/** Which files come out as they went in. The first slip of the writer decides: a payload that is not kept
    shows in its place, and a compound that stays open makes the output shorter, whatever follows. */
module NbtSlips {
  import opened Bytes
  import opened Wrappers
  import opened NbtTree
  import NbtParse
  import opened NbtComplete
  import opened FlatWalk
  import opened NbtWrite
  import opened NbtRoundTrip
  import opened NbtRewrite

  /** Nothing goes wrong in `t`. A negative size does no harm as long as only lists are around it, which is
      what `lists` says of the place where `t` stands. */
  predicate Harmless(t: Tree, lists: bool) {
    Kept(t) && if lists then NoneOpen(t) else NonNegative(t)
  }

  predicate Inside(t: Tree, lists: bool) { lists && t.tag.typ != COMPOUND }

  /** The first thing to go wrong is a payload. */
  predicate Early(t: Tree, lists: bool)
    decreases t, 1
  {
    !KeepsPayload(t.tag) || EarlyIn(t.kids, Inside(t, lists))
  }

  predicate EarlyIn(ts: seq<Tree>, lists: bool)
    decreases ts, 0
  {
    ts != [] && (Early(ts[0], lists) || (Harmless(ts[0], lists) && EarlyIn(ts[1..], lists)))
  }

  /** The first thing to go wrong is a negative size below a compound. */
  predicate Late(t: Tree, lists: bool)
    decreases t, 1
  {
    KeepsPayload(t.tag) && ((!lists && DeclaredCount(t.tag) < 0) || LateIn(t.kids, Inside(t, lists)))
  }

  predicate LateIn(ts: seq<Tree>, lists: bool)
    decreases ts, 0
  {
    ts != [] && (Late(ts[0], lists) || (Harmless(ts[0], lists) && LateIn(ts[1..], lists)))
  }

  lemma {:induction false} OneOfThree(t: Tree, lists: bool, named: bool)
    requires Parsed(t, named)
    ensures Harmless(t, lists) || Early(t, lists) || Late(t, lists)
    decreases t, 1
  {
    hide KeepsPayload, HeadParsed;
    NegativeLeaf(t, named);
    OneOfThreeIn(t.kids, Inside(t, lists), t.tag.typ == COMPOUND);
    if NonNegative(t) {
      NonNegativeNoneOpen(t);
    }
  }

  lemma {:induction false} NegativeLeaf(t: Tree, named: bool)
    requires Parsed(t, named)
    ensures DeclaredCount(t.tag) < 0 ==> t.kids == [] && t.tag.typ != COMPOUND
    ensures forall i :: 0 <= i < |t.kids| ==> Parsed(t.kids[i], t.tag.typ == COMPOUND)
  {
  }

  lemma {:induction false} OneOfThreeIn(ts: seq<Tree>, lists: bool, named: bool)
    requires forall i :: 0 <= i < |ts| ==> Parsed(ts[i], named)
    ensures (forall i :: 0 <= i < |ts| ==> Harmless(ts[i], lists)) || EarlyIn(ts, lists) || LateIn(ts, lists)
    decreases ts, 0
  {
    hide Parsed, Harmless, Early, Late;
    if ts != [] {
      OneOfThree(ts[0], lists, named);
      OneOfThreeIn(ts[1..], lists, named);
      assert forall i :: 0 < i < |ts| ==> ts[i] == ts[1..][i - 1];
    }
  }

  /** On top is a container that still takes `n` children, or a list that takes any number. */
  predicate Ready(stack: seq<Entry>, n: int, lists: bool, named: bool) {
    stack != [] && IsNotArray(Top(stack).tag.typ) == named && (Top(stack).left == n || (lists && Stuck(stack)))
  }

  lemma {:induction false} ReadyStays(stack: seq<Entry>, n: int, lists: bool, named: bool)
    requires Ready(stack, n, lists, named)
    ensures NamedBelow(Parent(stack)) == named && Ready(Taken(stack), n - 1, lists, named)
    ensures n != 0 ==> Closing(stack) == stack && ClosingText(WRITER, stack) == []
  {
  }

  /** A harmless child is written as it should be, and the next one finds the stack ready. */
  lemma {:induction false} PassesHarmless(t: Tree, more: seq<Tag>, stack: seq<Entry>, n: int, lists: bool, named: bool)
    returns (after: seq<Entry>)
    requires Parsed(t, named) && Harmless(t, lists) && n > 1 && Ready(stack, n, lists, named) && (lists ==> !named)
    requires |stack| + Height(t) + Stays(t) <= MAX_DEPTH
    ensures Walk(WRITER, Flat(t) + more, stack) == Wire(t, named) + Walk(WRITER, more, after)
    ensures Ready(after, n - 1, lists, named) && |after| == |stack| + Stays(t)
  {
    hide Walk, Closing, ClosingText, Parsed, Kept, NonNegative, NoneOpen, Left, Wire, Flat, Taken, Parent, Height, Stays, Ready;
    ReadyStays(stack, n, lists, named);
    if NonNegative(t) {
      ReadyStays(Taken(stack), n - 1, lists, named);
      PassesKid(t, more, stack, named);
      after := Taken(stack);
      LeftGood(t, named);
    } else {
      after := WalksOpen(t, more, stack, named);
      LeftIsWire(t, named);
      StuckReady(after, n - 1, named);
    }
  }

  lemma {:induction false} LeftGood(t: Tree, named: bool)
    requires NonNegative(t)
    ensures Left(t, named) == Wire(t, named)
  {
  }

  lemma {:induction false} StuckReady(stack: seq<Entry>, n: int, named: bool)
    requires Stuck(stack) && !named
    ensures Ready(stack, n, true, named)
  {
  }

  /** Two outputs that go the same way for `p`, and then one has `x` where the other has `y`. */
  predicate Parts(a: seq<byte>, b: seq<byte>, p: seq<byte>, x: seq<byte>, y: seq<byte>) {
    p + x <= a && p + y <= b && |x| == |y| && x != y
  }

  lemma {:induction false} PartsDiffer(a: seq<byte>, b: seq<byte>, p: seq<byte>, x: seq<byte>, y: seq<byte>)
    requires Parts(a, b, p, x, y)
    ensures a != b
  {
    assert a[|p|..|p + x|] == (p + x)[|p|..] == x && b[|p|..|p + y|] == (p + y)[|p|..] == y;
  }

  lemma {:induction false} PartsLater(h: seq<byte>, a: seq<byte>, b: seq<byte>, c: seq<byte>,
                                      p: seq<byte>, x: seq<byte>, y: seq<byte>)
    requires Parts(a, b, p, x, y)
    ensures Parts(h + a, h + b + c, h + p, x, y)
  {
    Assoc(h, p, x);
    Assoc(h, p, y);
    Assoc(h, b, c);
  }

  lemma {:induction false} PartsAtOnce(p: seq<byte>, x: seq<byte>, y: seq<byte>, a: seq<byte>, b: seq<byte>)
    requires |x| == |y| && x != y
    ensures Parts(p + x + a, p + y + b, p, x, y)
  {
  }

  /** A payload that is the first thing to go wrong shows in its place. */
  lemma {:induction false} EarlyShows(t: Tree, rest: seq<Tag>, stack: seq<Entry>, lists: bool, named: bool)
    returns (p: seq<byte>, x: seq<byte>, y: seq<byte>)
    requires Parsed(t, named) && Early(t, lists) && NamedBelow(Parent(stack)) == named
    requires |stack| + Height(t) + Stays(t) <= MAX_DEPTH
    ensures Parts(Walk(WRITER, Flat(t) + rest, stack), Wire(t, named), p, x, y)
    decreases t, 1
  {
    hide Walk, Closing, ClosingText, WireData, WireHead, WireEnd, Taken, Parent, HeadParsed, Stays, Height, Parts,
         OpenTag, KeepsPayload, FromParser, PayloadBytes, EarlyIn, Parsed, Stuck, Wires, NonNegative;
    var tags, entered := Flat(t) + rest, Entered(WRITER, stack, t.tag);
    assert tags[1..] == Flats(t.kids) + rest;
    WalkStep(WRITER, tags, stack);
    ParsedHead(t, named);
    OpensAsWire(t.tag, Parent(stack), |stack|);
    PayloadKept(t.tag);
    var head, compound := WireHead(t.tag, named), t.tag.typ == COMPOUND;
    if !KeepsPayload(t.tag) {
      p, x, y := head, PayloadBytes(t.tag), WireData(t.tag);
      PartsAtOnce(p, x, y, ClosingText(WRITER, entered) + Walk(WRITER, tags[1..], Closing(entered)),
                  Wires(t.kids, compound) + WireEnd(t.tag));
      Assoc(head + WireData(t.tag), Wires(t.kids, compound), WireEnd(t.tag));
    } else {
      KidsSome(t.kids, Inside(t, lists));
      EntersReady(t, stack, named, Inside(t, lists));
      p, x, y := EarlyShowsIn(t.kids, rest, entered, Inside(t, lists), compound);
      NoHead(Walk(WRITER, tags[1..], entered));
      PartsLater(head + WireData(t.tag), Walk(WRITER, Flats(t.kids) + rest, entered), Wires(t.kids, compound),
                 WireEnd(t.tag), p, x, y);
      p := head + WireData(t.tag) + p;
    }
  }

  lemma {:induction false} KidsSome(ts: seq<Tree>, lists: bool)
    ensures EarlyIn(ts, lists) || LateIn(ts, lists) ==> ts != []
  {
  }

  lemma {:induction false} ParsedHead(t: Tree, named: bool)
    requires Parsed(t, named)
    ensures FromParser(t.tag) && (t.kids != [] ==> IsContainer(t.tag.typ) && DeclaredCount(t.tag) == |t.kids|)
    ensures t.tag.typ == COMPOUND <==> IsContainer(t.tag.typ) && IsNotArray(t.tag.typ)
    ensures forall i :: 0 <= i < |t.kids| ==> Parsed(t.kids[i], t.tag.typ == COMPOUND)
  {
  }

  /** A container with children that has just been entered. */
  lemma {:induction false} EntersReady(t: Tree, stack: seq<Entry>, named: bool, lists: bool)
    requires Parsed(t, named) && t.kids != [] && WrittenCount(t.tag) == DeclaredCount(t.tag)
    requires |stack| + Height(t) + Stays(t) <= MAX_DEPTH
    ensures var entered := Entered(WRITER, stack, t.tag);
            && |entered| == |stack| + 1 && Ready(entered, |t.kids|, lists, t.tag.typ == COMPOUND)
            && Closing(entered) == entered && ClosingText(WRITER, entered) == []
    ensures |stack| + 1 + Heights(t.kids) + StaysIn(t.kids) <= MAX_DEPTH
  {
    hide FromParser, Parsed, Taken;
    ParsedHead(t, named);
    var entered := Entered(WRITER, stack, t.tag);
    assert entered == Taken(stack) + [Entry(t.tag, |t.kids|)];
    StaysOpen(WRITER, entered);
  }

  lemma {:induction false} EarlyShowsIn(ts: seq<Tree>, rest: seq<Tag>, stack: seq<Entry>, lists: bool, named: bool)
    returns (p: seq<byte>, x: seq<byte>, y: seq<byte>)
    requires (forall i :: 0 <= i < |ts| ==> Parsed(ts[i], named)) && EarlyIn(ts, lists)
    requires Ready(stack, |ts|, lists, named) && (lists ==> !named)
    requires |stack| + Heights(ts) + StaysIn(ts) <= MAX_DEPTH
    ensures Parts(Walk(WRITER, Flats(ts) + rest, stack), Wires(ts, named), p, x, y)
    decreases ts, 0
  {
    hide Walk, Closing, ClosingText, Parsed, Wire, Flat, Parent, Height, Stays, Stuck, Ready, Parts, Early, Harmless;
    var t, ts' := ts[0], ts[1..];
    assert forall i :: 0 < i < |ts| ==> ts[i] == ts'[i - 1];
    Assoc(Flat(t), Flats(ts'), rest);
    ReadyStays(stack, |ts|, lists, named);
    if Early(t, lists) {
      p, x, y := EarlyShows(t, Flats(ts') + rest, stack, lists, named);
      PartsLater([], Walk(WRITER, Flats(ts) + rest, stack), Wire(t, named), Wires(ts', named), p, x, y);
      NoHead(Walk(WRITER, Flats(ts) + rest, stack));
      NoHead(Wire(t, named));
      p := [] + p;
    } else {
      KidsSome(ts', lists);
      var after := PassesHarmless(t, Flats(ts') + rest, stack, |ts|, lists, named);
      p, x, y := EarlyShowsIn(ts', rest, after, lists, named);
      PartsLater(Wire(t, named), Walk(WRITER, Flats(ts') + rest, after), Wires(ts', named), [], p, x, y);
      NoTail(Wire(t, named) + Wires(ts', named));
      p := Wire(t, named) + p;
    }
  }

  lemma {:induction false} NoHead(s: seq<byte>)
    ensures [] + s == s
  {
  }

  lemma {:induction false} NoTail(s: seq<byte>)
    ensures s + [] == s
  {
  }

  /** Bytes a tag brings with it: payload and name, and for a compound its end and the least that the heads of
      its members take. */
  function Weight(tag: Tag): nat {
    |WireData(tag)| + |tag.name| + if tag.typ == COMPOUND then 1 + 3 * Max0(DeclaredCount(tag)) else 0
  }

  function Weights(tags: seq<Tag>): nat {
    if tags == [] then 0 else Weight(tags[0]) + Weights(tags[1..])
  }

  lemma {:induction false} WeightsAppend(a: seq<Tag>, b: seq<Tag>)
    ensures Weights(a + b) == Weights(a) + Weights(b)
  {
    hide Weight;
    if a == [] {
      assert a + b == b;
    } else {
      assert (a + b)[1..] == a[1..] + b;
      WeightsAppend(a[1..], b);
    }
  }

  lemma {:induction false} HeadSize(tag: Tag, named: bool)
    ensures |WireHead(tag, named)| == if named then 3 + |tag.name| else 0
  {
  }

  /** The wire form takes exactly these bytes. */
  lemma {:induction false} WireWeighs(t: Tree, named: bool)
    requires Parsed(t, named)
    ensures |Wire(t, named)| == Weights(Flat(t)) + if named then 3 else 0
    decreases t, 1
  {
    hide WireData, WireHead, HeadParsed, Wires, Flats;
    HeadSize(t.tag, named);
    NameBelow(t, named);
    WiresWeigh(t.kids, t.tag.typ == COMPOUND);
    assert Flat(t)[1..] == Flats(t.kids);
  }

  lemma {:induction false} NameBelow(t: Tree, named: bool)
    requires Parsed(t, named)
    ensures !named ==> t.tag.name == []
    ensures t.tag.typ == COMPOUND ==> DeclaredCount(t.tag) == |t.kids|
  {
  }

  lemma {:induction false} WiresWeigh(ts: seq<Tree>, named: bool)
    requires forall i :: 0 <= i < |ts| ==> Parsed(ts[i], named)
    ensures |Wires(ts, named)| == Weights(Flats(ts)) + if named then 3 * |ts| else 0
    decreases ts, 0
  {
    hide Parsed, Wire, Flat, Weight;
    if ts != [] {
      WireWeighs(ts[0], named);
      WiresWeigh(ts[1..], named);
      WeightsAppend(Flat(ts[0]), Flats(ts[1..]));
    }
  }

  /** What the compounds above entry `b` may still bring: their ends, and heads for the children to come. */
  function Live(stack: seq<Entry>, b: nat): nat {
    if |stack| <= b + 1 then 0
    else Live(Front(stack), b) + if Top(stack).tag.typ == COMPOUND then 1 + 3 * Max0(Top(stack).left) else 0
  }

  /** Entry `b` is a list that is never closed. */
  predicate StuckAt(stack: seq<Entry>, b: nat) {
    b < |stack| && Stuck(stack[..b + 1])
    && forall i :: b < i < |stack| ==>
         IsContainer(stack[i].tag.typ) && (stack[i].tag.typ == COMPOUND ==> stack[i].left >= 0)
  }

  lemma {:induction false} TakenLive(stack: seq<Entry>, b: nat)
    requires StuckAt(stack, b) && Top(stack).left != 0
    ensures StuckAt(Taken(stack), b)
    ensures Live(Taken(stack), b) + (if Top(stack).tag.typ == COMPOUND then 3 else 0) == Live(stack, b)
  {
    var taken := Taken(stack);
    assert Front(taken) == Front(stack);
    assert stack[..b + 1][b] == stack[b] && taken[..b + 1][b] == taken[b];
  }

  lemma {:induction false} EnteredLive(stack: seq<Entry>, b: nat, tag: Tag)
    requires StuckAt(stack, b) && Top(stack).left != 0 && FromParser(tag) && (tag.typ == COMPOUND ==> DeclaredCount(tag) >= 0)
    ensures var entered := Entered(WRITER, stack, tag);
            StuckAt(entered, b)
            && Live(entered, b) + (if Top(stack).tag.typ == COMPOUND then 3 else 0)
               <= Live(stack, b) + if tag.typ == COMPOUND then 1 + 3 * DeclaredCount(tag) else 0
  {
    TakenLive(stack, b);
    CompoundCount(tag);
    hide Taken, FromParser;
    var taken, entered := Taken(stack), Entered(WRITER, stack, tag);
    if IsContainer(tag.typ) && |stack| < MAX_DEPTH {
      assert Front(entered) == taken && entered[..b + 1] == taken[..b + 1];
    }
  }

  lemma {:induction false} CompoundCount(tag: Tag)
    requires FromParser(tag)
    ensures tag.typ == COMPOUND ==> WrittenCount(tag) == DeclaredCount(tag)
  {
  }

  lemma {:induction false} ClosedLive(stack: seq<Entry>, b: nat)
    requires StuckAt(stack, b)
    ensures var closed := Closing(stack);
            StuckAt(closed, b) && Top(closed).left != 0
            && |ClosingText(WRITER, stack)| + Live(closed, b) <= Live(stack, b)
    decreases |stack|
  {
    assert stack[..b + 1][b] == stack[b];
    if Top(stack).left == 0 {
      assert b < |stack| - 1;
      assert Front(stack)[..b + 1] == stack[..b + 1];
      ClosedLive(Front(stack), b);
    }
  }

  /** Tags as they come from the bytes: compounds count their members. */
  predicate FromBytes(tags: seq<Tag>) {
    forall tag :: tag in tags ==> FromParser(tag) && (tag.typ == COMPOUND ==> DeclaredCount(tag) >= 0)
  }

  /** Above a list that is never closed, nothing is written that the tags and the open compounds do not bring. */
  lemma {:induction false} StuckShort(tags: seq<Tag>, stack: seq<Entry>, b: nat)
    requires StuckAt(stack, b) && Top(stack).left != 0 && FromBytes(tags)
    ensures |Walk(WRITER, tags, stack)| <= Weights(tags) + Live(stack, b)
    decreases |tags|
  {
    hide Walk, Closing, ClosingText, OpenTag, WireData, WireHead, Entered, StuckAt, Live, FromParser, PayloadBytes;
    WalkStep(WRITER, tags, stack);
    if tags != [] {
      var tag := tags[0];
      assert FromBytes(tags[1..]);
      var entered := Entered(WRITER, stack, tag);
      OpensAsWire(tag, Parent(stack), |stack|);
      PayloadKept(tag);
      HeadSize(tag, NamedBelow(Parent(stack)));
      TopCompound(stack, b);
      EnteredLive(stack, b, tag);
      ClosedLive(entered, b);
      StuckShort(tags[1..], Closing(entered), b);
    }
  }

  /** Heads are written below compounds only. */
  lemma {:induction false} TopCompound(stack: seq<Entry>, b: nat)
    requires StuckAt(stack, b)
    ensures NamedBelow(Parent(stack)) ==> stack != [] && Top(stack).tag.typ == COMPOUND
  {
  }

  /** Once a negative size below a compound is the first thing to go wrong, the output stays shorter: `lists`
      tells whether the compound is still to come. */
  lemma {:induction false} LateShort(t: Tree, rest: seq<Tag>, stack: seq<Entry>, lists: bool, named: bool)
    requires Parsed(t, named) && Late(t, lists) && NamedBelow(Parent(stack)) == named && FromBytes(Flat(t) + rest)
    requires |stack| + Height(t) + Stays(t) <= MAX_DEPTH
    ensures |Walk(WRITER, Flat(t) + rest, stack)| + (if lists then 1 else 0) <= |Wire(t, named)| + Weights(rest)
    decreases t, 1
  {
    hide Walk, Closing, ClosingText, WireData, WireHead, Taken, Parent, HeadParsed, Stays, Height, Weights, FromBytes,
         OpenTag, KeepsPayload, FromParser, PayloadBytes, LateIn, Parsed, Stuck, Wires, NonNegative;
    var tags, entered := Flat(t) + rest, Entered(WRITER, stack, t.tag);
    assert tags[1..] == Flats(t.kids) + rest;
    WalkStep(WRITER, tags, stack);
    ParsedHead(t, named);
    OpensAsWire(t.tag, Parent(stack), |stack|);
    FewerTags(tags, 1);
    if DeclaredCount(t.tag) < 0 {
      NegativeEnters(t, stack, named);
      assert !lists by {
        NoneLate(Inside(t, lists));
      }
      StuckShort(tags[1..], entered, |stack|);
      assert tags[1..] == rest;
      assert Live(entered, |stack|) == 0;
    } else {
      KidsSome(t.kids, Inside(t, lists));
      EntersReady(t, stack, named, Inside(t, lists));
      LateShortIn(t.kids, rest, entered, Inside(t, lists), t.tag.typ == COMPOUND);
    }
  }

  lemma {:induction false} NoneLate(lists: bool)
    ensures !LateIn([], lists)
  {
  }

  lemma {:induction false} FewerTags(tags: seq<Tag>, n: nat)
    requires FromBytes(tags) && n <= |tags|
    ensures FromBytes(tags[n..])
  {
  }

  /** A list of negative size is entered and never left. */
  lemma {:induction false} NegativeEnters(t: Tree, stack: seq<Entry>, named: bool)
    requires Parsed(t, named) && KeepsPayload(t.tag) && DeclaredCount(t.tag) < 0 && |stack| + Height(t) + Stays(t) <= MAX_DEPTH
    ensures var entered := Entered(WRITER, stack, t.tag);
            && |entered| == |stack| + 1 && StuckAt(entered, |stack|) && Top(entered).left != 0
            && Closing(entered) == entered && ClosingText(WRITER, entered) == [] && t.kids == []
  {
    hide Taken, Parsed, FromParser, KeepsPayload;
    NegativeLeaf(t, named);
    NegativeKept(t, named);
    var entered := Entered(WRITER, stack, t.tag);
    assert entered == Taken(stack) + [Entry(t.tag, WrittenCount(t.tag))];
    assert entered[..|stack| + 1] == entered;
    StaysOpen(WRITER, entered);
  }

  lemma {:induction false} NegativeKept(t: Tree, named: bool)
    requires Parsed(t, named) && KeepsPayload(t.tag) && DeclaredCount(t.tag) < 0
    ensures IsContainer(t.tag.typ) && !IsNotArray(t.tag.typ) && WrittenCount(t.tag) == DeclaredCount(t.tag)
    ensures Height(t) + Stays(t) > 0
  {
  }

  lemma {:induction false} LateShortIn(ts: seq<Tree>, rest: seq<Tag>, stack: seq<Entry>, lists: bool, named: bool)
    requires (forall i :: 0 <= i < |ts| ==> Parsed(ts[i], named)) && LateIn(ts, lists)
    requires Ready(stack, |ts|, lists, named) && (lists ==> !named) && FromBytes(Flats(ts) + rest)
    requires |stack| + Heights(ts) + StaysIn(ts) <= MAX_DEPTH
    ensures |Walk(WRITER, Flats(ts) + rest, stack)| + (if lists then 1 else 0) <= |Wires(ts, named)| + Weights(rest)
    decreases ts, 0
  {
    hide Walk, Closing, ClosingText, Parsed, Wire, Flat, Parent, Height, Stays, Stuck, Ready, Late, Harmless, FromBytes, Weights;
    var t, ts' := ts[0], ts[1..];
    assert forall i :: 0 < i < |ts| ==> ts[i] == ts'[i - 1];
    Assoc(Flat(t), Flats(ts'), rest);
    ReadyStays(stack, |ts|, lists, named);
    if Late(t, lists) {
      LateShort(t, Flats(ts') + rest, stack, lists, named);
      WeightsAppend(Flats(ts'), rest);
      WiresWeigh(ts', named);
    } else {
      KidsSome(ts', lists);
      var after := PassesHarmless(t, Flats(ts') + rest, stack, |ts|, lists, named);
      FewerTags(Flats(ts) + rest, |Flat(t)|);
      assert (Flats(ts) + rest)[|Flat(t)|..] == Flats(ts') + rest;
      LateShortIn(ts', rest, after, lists, named);
    }
  }

  lemma {:induction false} FlatFromBytes(t: Tree, named: bool)
    requires Parsed(t, named)
    ensures FromBytes(Flat(t))
    decreases t, 1
  {
    hide FromParser;
    ParsedHead(t, named);
    NegativeLeaf(t, named);
    FlatsFromBytes(t.kids, t.tag.typ == COMPOUND);
  }

  lemma {:induction false} FlatsFromBytes(ts: seq<Tree>, named: bool)
    requires forall i :: 0 <= i < |ts| ==> Parsed(ts[i], named)
    ensures FromBytes(Flats(ts))
    decreases ts, 0
  {
    hide Parsed, Flat, FromParser;
    if ts != [] {
      FlatFromBytes(ts[0], named);
      FlatsFromBytes(ts[1..], named);
    }
  }

  /** Reading a file and writing it again reproduces its bytes exactly when every float in it reads the same
      both ways, no array in it has elements, and no compound in it has a negative size in it. */
  lemma {:induction false} ReadThenWrite(t: Tree)
    requires Parsed(t, true) && Height(t) + Stays(t) <= MAX_DEPTH && OpenDepth(t) <= MAX_DEPTH
    ensures NbtParse.ParseStrictly(Wire(t, true)) == NbtParse.Done(Flat(t), [])
    ensures Walk(WRITER, Flat(t), []) == Wire(t, true)
            <==> NoneOpen(t) && forall tag :: tag in Flat(t) ==> KeepsPayload(tag)
  {
    hide Walk, Wire, Parsed, NoneOpen, Flat, KeepsPayload, Height, Stays, Kept, Early, Late, Parts;
    ParsesWire(t, []);
    assert Wire(t, true) + [] == Wire(t, true) && Flat(t) + [] == Flat(t);
    KeptTags(t);
    if Kept(t) {
      WalkIsWire(t);
    } else {
      OneOfThree(t, true, true);
      if Early(t, true) {
        var p, x, y := EarlyShows(t, [], [], true, true);
        PartsDiffer(Walk(WRITER, Flat(t), []), Wire(t, true), p, x, y);
      } else {
        FlatFromBytes(t, true);
        LateShort(t, [], [], true, true);
      }
    }
  }

  /** A compound that holds a list of size -2: parsed as it is, and written without the end of the compound. */
  lemma {:induction false} EndMissing(elem: byte)
    ensures var list := Node(Tag(LIST, [], ListHead(elem, -2)), []);
            var t := Node(Tag(COMPOUND, [], CompoundHead(1)), [list]);
            Parsed(t, true) && NbtParse.Parse(Wire(t, true)) == NbtParse.Done(Flat(t), [])
            && (forall tag :: tag in Flat(t) ==> KeepsPayload(tag))
            && Walk(WRITER, Flat(t), []) + [END] == Wire(t, true)
  {
    var list := Node(Tag(LIST, [], ListHead(elem, -2)), []);
    var t := Node(Tag(COMPOUND, [], CompoundHead(1)), [list]);
    EndMissingTree(t, list);
    hide Walk, Wire, Parsed, NoneOpen, Flat, KeepsPayload, Left, Kept;
    assert Wire(t, true) + [] == Wire(t, true) && Flat(t) + [] == Flat(t);
    ParsesWire(t, []);
    KeptTags(t);
    var after := WalksOpen(t, [], [], true);
    WalkStep(WRITER, [], after);
    assert Left(t, true) + [] == Left(t, true);
  }

  lemma {:induction false} EndMissingTree(t: Tree, list: Tree)
    requires list.tag.typ == LIST && list.tag.name == [] && list.tag.data.ListHead? && list.tag.data.size == -2 && list.kids == []
    requires t == Node(Tag(COMPOUND, [], CompoundHead(1)), [list])
    ensures Parsed(t, true) && !NonNegative(t) && Height(t) == 2 && Stays(t) == 2 && OpenDepth(t) == 1
    ensures forall tag :: tag in Flat(t) ==> KeepsPayload(tag)
    ensures Left(t, true) + [END] == Wire(t, true)
  {
    hide WireData, WireHead;
    assert Heights([list]) == Height(list) == 1 by {
      assert [list][1..] == [] && Heights(list.kids) == 0;
    }
    assert OpenDepths([list]) == OpenDepth(list) == 0 by {
      assert [list][1..] == [] && OpenDepths(list.kids) == 0;
    }
    assert [list][1..] == [] && Parsed(list, true) && !NonNegative(t.kids[0]);
    assert Flat(t) == [t.tag, list.tag] by {
      assert Flats([list]) == Flat(list) + Flats([]);
    }
    assert StaysIn([list]) == Stays(list) + StaysIn([]) && StaysIn(list.kids) == 0;
    assert Lefts([list], true) == Left(list, true) + Lefts([], false);
    assert Wires([list], true) == Wire(list, true) + Wires([], true);
    assert Left(list, true) == Wire(list, true);
  }
}
