/** What comes out when bytes are read and written again. A list that declares a negative size is never
    closed by the writer, nor is anything around it. */
module NbtRewrite {
  import opened Bytes
  import opened Wrappers
  import opened NbtTree
  import NbtParse
  import opened NbtComplete
  import opened FlatWalk
  import opened NbtWrite
  import opened NbtRoundTrip

  /** No list or array declares a negative size. */
  predicate NonNegative(t: Tree) {
    DeclaredCount(t.tag) >= 0 && forall i :: 0 <= i < |t.kids| ==> NonNegative(t.kids[i])
  }

  /** Every payload is written as it was read. */
  predicate Kept(t: Tree) {
    KeepsPayload(t.tag) && forall i :: 0 <= i < |t.kids| ==> Kept(t.kids[i])
  }

  lemma {:induction false} KeptTags(t: Tree)
    ensures Kept(t) <==> forall tag :: tag in Flat(t) ==> KeepsPayload(tag)
    decreases t, 1
  {
    hide KeepsPayload;
    KeptTagsAll(t.kids);
  }

  lemma {:induction false} KeptTagsAll(ts: seq<Tree>)
    ensures (forall i :: 0 <= i < |ts| ==> Kept(ts[i])) <==> forall tag :: tag in Flats(ts) ==> KeepsPayload(tag)
    decreases ts, 0
  {
    hide Kept, KeepsPayload, Flat;
    if ts != [] {
      KeptTags(ts[0]);
      KeptTagsAll(ts[1..]);
      assert forall i :: 0 < i < |ts| ==> ts[i] == ts[1..][i - 1];
    }
  }

  /** Tags as the parser leaves them. */
  predicate FromParser(tag: Tag) {
    && DataFits(tag) && |tag.name| <= MAX_STRING
    && (tag.typ == STRING ==> |tag.data.chars| <= MAX_STRING)
    && (IsPlainArray(tag.typ) ==> IsI32(tag.data.arraySize) && tag.data.listSize == 0)
  }

  lemma {:induction false} PayloadKept(tag: Tag)
    requires FromParser(tag)
    ensures |PayloadBytes(tag)| == |WireData(tag)|
    ensures PayloadBytes(tag) == WireData(tag) <==> KeepsPayload(tag)
    ensures KeepsPayload(tag) ==> WrittenCount(tag) == DeclaredCount(tag)
  {
    if IsPlainArray(tag.typ) && PayloadBytes(tag) == WireData(tag) {
      Widths();
      WireRoundTrip(FromI32(0), 4);
      WireRoundTrip(FromI32(tag.data.arraySize), 4);
    }
  }

  lemma {:induction false} HeadFrom(t: Tree, named: bool)
    requires HeadParsed(t, named)
    ensures FromParser(t.tag)
  {
  }

  /** What is written for a tag whose payload is kept. */
  lemma {:induction false} OpensAsWire(tag: Tag, parent: Option<Entry>, depth: nat)
    requires FromParser(tag)
    ensures OpenTag(parent, depth, tag) == WireHead(tag, NamedBelow(parent)) + PayloadBytes(tag)
    ensures KeepsPayload(tag) ==>
              OpenTag(parent, depth, tag) == WireHead(tag, NamedBelow(parent)) + WireData(tag)
              && WrittenCount(tag) == DeclaredCount(tag)
  {
    PayloadKept(tag);
  }

  lemma {:induction false} ParsedCounted(t: Tree, named: bool)
    requires Parsed(t, named) && NonNegative(t) && Kept(t)
    ensures Counted(WRITER, t)
  {
    hide KeepsPayload, FromParser;
    HeadFrom(t, named);
    PayloadKept(t.tag);
    forall i | 0 <= i < |t.kids| ensures Counted(WRITER, t.kids[i]) {
      ParsedCounted(t.kids[i], t.tag.typ == COMPOUND);
    }
  }

  lemma {:induction false} WireRenders(t: Tree, parent: Option<Entry>, depth: nat, named: bool)
    requires Parsed(t, named) && Kept(t)
    ensures Render(WRITER, t, parent, depth) == Wire(t, NamedBelow(parent))
    decreases t, 1
  {
    hide WireData, WireHead, Renders, Wires, HeadParsed, KeepsPayload, FromParser, OpenTag;
    HeadFrom(t, named);
    OpensAsWire(t.tag, parent, depth);
    if IsContainer(t.tag.typ) {
      WiresRender(t.kids, Entry(t.tag, |t.kids|), depth + 1);
      Assoc(OpenTag(parent, depth, t.tag), Wires(t.kids, t.tag.typ == COMPOUND), WireEnd(t.tag));
    } else {
      LeafNoKids(t, named);
    }
  }

  lemma {:induction false} LeafNoKids(t: Tree, named: bool)
    requires Parsed(t, named) && !IsContainer(t.tag.typ)
    ensures Wires(t.kids, false) == [] && WireEnd(t.tag) == []
  {
  }

  lemma {:induction false} WiresRender(ts: seq<Tree>, parent: Entry, depth: nat)
    requires forall i :: 0 <= i < |ts| ==> Parsed(ts[i], IsNotArray(parent.tag.typ)) && Kept(ts[i])
    ensures Renders(WRITER, ts, parent, depth) == Wires(ts, IsNotArray(parent.tag.typ))
    decreases ts, 0
  {
    hide Parsed, Wire, Render, Kept;
    if ts != [] {
      WireRenders(ts[0], Some(parent), depth, IsNotArray(parent.tag.typ));
      WiresRender(ts[1..], parent.(left := parent.left - 1), depth);
    }
  }

  /** No compound has a negative size anywhere in it. */
  predicate NoneOpen(t: Tree) {
    (t.tag.typ == COMPOUND ==> NonNegative(t)) && forall i :: 0 <= i < |t.kids| ==> NoneOpen(t.kids[i])
  }

  lemma {:induction false} NonNegativeNoneOpen(t: Tree)
    requires NonNegative(t)
    ensures NoneOpen(t)
  {
    forall i | 0 <= i < |t.kids| ensures NoneOpen(t.kids[i]) {
      NonNegativeNoneOpen(t.kids[i]);
    }
  }

  /** Containers with a negative size in them: none of them is ever closed. */
  function Stays(t: Tree): nat
    decreases t, 1
  {
    (if NonNegative(t) then 0 else 1) + StaysIn(t.kids)
  }

  function StaysIn(ts: seq<Tree>): nat
    decreases ts, 0
  {
    if ts == [] then 0 else Stays(ts[0]) + StaysIn(ts[1..])
  }

  /** What is written instead of the wire form of `t`: the ends of the compounds that stay open are missing,
      and so are type and name of everything that follows a negative size in its compound. */
  function Left(t: Tree, named: bool): seq<byte>
    decreases t, 1
  {
    if NonNegative(t) then Wire(t, named)
    else WireHead(t.tag, named) + WireData(t.tag) + Lefts(t.kids, t.tag.typ == COMPOUND)
  }

  function Lefts(ts: seq<Tree>, named: bool): seq<byte>
    decreases ts, 0
  {
    if ts == [] then [] else Left(ts[0], named) + Lefts(ts[1..], named && NonNegative(ts[0]))
  }

  /** It is never longer than the wire form, and shorter if a compound stays open. */
  lemma {:induction false} LeftShorter(t: Tree, less: bool, named: bool)
    requires less ==> named
    ensures |Left(t, less)| <= |Wire(t, named)| && (!NoneOpen(t) ==> |Left(t, less)| < |Wire(t, named)|)
    decreases t, 1
  {
    hide WireData, NonNegative;
    if NonNegative(t) {
      NonNegativeNoneOpen(t);
      assert |WireHead(t.tag, less)| <= |WireHead(t.tag, named)|;
    } else {
      LeftsShorter(t.kids, t.tag.typ == COMPOUND, t.tag.typ == COMPOUND);
    }
  }

  lemma {:induction false} LeftsShorter(ts: seq<Tree>, less: bool, named: bool)
    requires less ==> named
    ensures |Lefts(ts, less)| <= |Wires(ts, named)|
    ensures (exists i :: 0 <= i < |ts| && !NoneOpen(ts[i])) ==> |Lefts(ts, less)| < |Wires(ts, named)|
    decreases ts, 0
  {
    hide Left, Wire, NoneOpen, NonNegative;
    if ts != [] {
      LeftShorter(ts[0], less, named);
      LeftsShorter(ts[1..], less && NonNegative(ts[0]), named);
      assert forall i :: 0 < i < |ts| ==> ts[i] == ts[1..][i - 1];
    }
  }

  /** It is the wire form if no compound stays open. */
  lemma {:induction false} LeftIsWire(t: Tree, named: bool)
    requires NoneOpen(t)
    ensures Left(t, named) == Wire(t, named)
    decreases t, 1
  {
    hide WireData, WireHead, NonNegative;
    if !NonNegative(t) {
      LeftsAreWires(t.kids);
    }
  }

  lemma {:induction false} LeftsAreWires(ts: seq<Tree>)
    requires forall i :: 0 <= i < |ts| ==> NoneOpen(ts[i])
    ensures Lefts(ts, false) == Wires(ts, false)
    decreases ts, 0
  {
    hide Left, Wire, NoneOpen, NonNegative;
    if ts != [] {
      LeftIsWire(ts[0], false);
      LeftsAreWires(ts[1..]);
    }
  }

  /** On top is a list that is never closed. */
  predicate Stuck(stack: seq<Entry>) {
    stack != [] && Top(stack).left < 0 && !IsNotArray(Top(stack).tag.typ)
  }

  lemma {:induction false} StuckTop(below: seq<Entry>, e: Entry)
    requires e.left < 0 && !IsNotArray(e.tag.typ)
    ensures Stuck(below + [e])
  {
  }

  lemma {:induction false} StuckStays(stack: seq<Entry>)
    requires Stuck(stack)
    ensures Stuck(Taken(stack)) && Closing(stack) == stack && ClosingText(WRITER, stack) == []
    ensures !NamedBelow(Parent(stack))
  {
  }

  /** A tree with a negative size in it is written as far as that goes, and leaves a stack that no longer
      closes anything below. */
  lemma {:induction false} WalksOpen(t: Tree, rest: seq<Tag>, stack: seq<Entry>, named: bool) returns (after: seq<Entry>)
    requires Parsed(t, named) && Kept(t) && !NonNegative(t) && |stack| + Height(t) + Stays(t) <= MAX_DEPTH
    ensures Stuck(after) && |after| == |stack| + Stays(t)
    ensures Walk(WRITER, Flat(t) + rest, stack) == Left(t, NamedBelow(Parent(stack))) + Walk(WRITER, rest, after)
    decreases t, 1
  {
    hide Walk, WireData, WireHead, Taken, Parent, Parsed, NonNegative, Wire, Stuck, Stays, Height, Left, Lefts, Kept, Flat,
         FromParser, NamedBelow;
    NegativeHead(t, named);
    KeptHead(t);
    OpensFirst(t, rest, stack, named);
    var head := WireHead(t.tag, NamedBelow(Parent(stack))) + WireData(t.tag);
    if DeclaredCount(t.tag) < 0 {
      after := Taken(stack) + [Entry(t.tag, DeclaredCount(t.tag))];
      StuckTop(Taken(stack), Entry(t.tag, DeclaredCount(t.tag)));
      NothingLeft(head, rest);
    } else {
      after := WalksKidsOpen(t.kids, rest, Taken(stack), t.tag, t.tag.typ == COMPOUND);
      Assoc(head, Lefts(t.kids, t.tag.typ == COMPOUND), Walk(WRITER, rest, after));
    }
  }

  lemma {:induction false} KeptHead(t: Tree)
    requires Kept(t)
    ensures KeepsPayload(t.tag) && forall i :: 0 <= i < |t.kids| ==> Kept(t.kids[i])
  {
  }

  lemma {:induction false} NothingLeft(head: seq<byte>, rest: seq<Tag>)
    ensures head + Lefts([], false) == head && Flats([]) + rest == rest
  {
  }

  /** The head of a tree with a negative size in it. */
  lemma {:induction false} OpensFirst(t: Tree, rest: seq<Tag>, stack: seq<Entry>, named: bool)
    requires Parsed(t, named) && KeepsPayload(t.tag) && !NonNegative(t) && |stack| < MAX_DEPTH
    ensures Walk(WRITER, Flat(t) + rest, stack)
            == (WireHead(t.tag, NamedBelow(Parent(stack))) + WireData(t.tag))
               + Walk(WRITER, Flats(t.kids) + rest, Taken(stack) + [Entry(t.tag, DeclaredCount(t.tag))])
  {
    hide Walk, Closing, ClosingText, WireData, WireHead, Taken, Parent, Parsed, NonNegative, OpenTag, KeepsPayload, FromParser,
         PayloadBytes, NamedBelow, Height, Stays, Left;
    var tags, entered := Flat(t) + rest, Taken(stack) + [Entry(t.tag, DeclaredCount(t.tag))];
    assert tags[1..] == Flats(t.kids) + rest;
    NegativeHead(t, named);
    WalkStep(WRITER, tags, stack);
    OpensAsWire(t.tag, Parent(stack), |stack|);
    StaysOpen(WRITER, entered);
    assert Entered(WRITER, stack, t.tag) == entered;
    assert [] + Walk(WRITER, tags[1..], entered) == Walk(WRITER, tags[1..], entered);
  }

  lemma {:induction false} NegativeHead(t: Tree, named: bool)
    requires Parsed(t, named) && !NonNegative(t)
    ensures IsContainer(t.tag.typ) && (t.tag.typ == COMPOUND <==> IsNotArray(t.tag.typ)) && FromParser(t.tag)
    ensures forall i :: 0 <= i < |t.kids| ==> Parsed(t.kids[i], t.tag.typ == COMPOUND)
    ensures Height(t) == 1 + Heights(t.kids) && Stays(t) == 1 + StaysIn(t.kids)
    ensures forall n: bool :: Left(t, n) == WireHead(t.tag, n) + WireData(t.tag) + Lefts(t.kids, t.tag.typ == COMPOUND)
    ensures if DeclaredCount(t.tag) < 0 then !IsNotArray(t.tag.typ) && t.kids == []
            else DeclaredCount(t.tag) == |t.kids| > 0 && exists i :: 0 <= i < |t.kids| && !NonNegative(t.kids[i])
  {
  }

  /** The children up to the first with a negative size, and on. */
  lemma {:induction false} WalksKidsOpen(ts: seq<Tree>, rest: seq<Tag>, below: seq<Entry>, tag: Tag, named: bool)
    returns (after: seq<Entry>)
    requires (forall i :: 0 <= i < |ts| ==> Parsed(ts[i], named) && Kept(ts[i])) && (exists i :: 0 <= i < |ts| && !NonNegative(ts[i]))
    requires named == IsNotArray(tag.typ) && |below| + 1 + Heights(ts) + StaysIn(ts) <= MAX_DEPTH
    ensures Stuck(after) && |after| == |below| + 1 + StaysIn(ts)
    ensures Walk(WRITER, Flats(ts) + rest, below + [Entry(tag, |ts|)]) == Lefts(ts, named) + Walk(WRITER, rest, after)
    decreases ts, 0
  {
    hide Walk, Closing, ClosingText, Kept, Parsed, NonNegative, Left, Wire, Flat, Taken, Parent, Height, Stays, Stuck;
    var t, ts', stack := ts[0], ts[1..], below + [Entry(tag, |ts|)];
    assert forall i :: 0 < i < |ts| ==> ts[i] == ts'[i - 1];
    Assoc(Flat(t), Flats(ts'), rest);
    TakesKid(below, tag, |ts|);
    if NonNegative(t) {
      PassesKid(t, Flats(ts') + rest, stack, named);
      StaysOpen(WRITER, below + [Entry(tag, |ts| - 1)]);
      after := WalksKidsOpen(ts', rest, below, tag, named);
    } else {
      var stuck := WalksOpen(t, Flats(ts') + rest, stack, named);
      after := WalksStuck(ts', rest, stuck, named);
    }
    Assoc(Left(t, named), Lefts(ts', named && NonNegative(t)), Walk(WRITER, rest, after));
  }

  lemma {:induction false} StaysNone(t: Tree)
    requires NonNegative(t)
    ensures Stays(t) == 0
    decreases t, 1
  {
    StaysNoneIn(t.kids);
  }

  lemma {:induction false} StaysNoneIn(ts: seq<Tree>)
    requires forall i :: 0 <= i < |ts| ==> NonNegative(ts[i])
    ensures StaysIn(ts) == 0
    decreases ts, 0
  {
    if ts != [] {
      StaysNone(ts[0]);
      StaysNoneIn(ts[1..]);
    }
  }

  /** A child without negative sizes is written as it should be. */
  lemma {:induction false} PassesKid(t: Tree, more: seq<Tag>, stack: seq<Entry>, named: bool)
    requires Parsed(t, named) && Kept(t) && NonNegative(t) && |stack| + Height(t) <= MAX_DEPTH
    ensures var after := Taken(stack);
            Walk(WRITER, Flat(t) + more, stack)
            == Left(t, NamedBelow(Parent(stack))) + (ClosingText(WRITER, after) + Walk(WRITER, more, Closing(after)))
    ensures Stays(t) == 0
  {
    hide Walk, Closing, ClosingText, Kept, Parsed, Wire, Flat, Parent, Height, Stays;
    ParsedCounted(t, named);
    WalksTree(WRITER, t, more, stack);
    WireRenders(t, Parent(stack), |stack|, named);
    StaysNone(t);
  }

  /** Everything that follows goes below the list that is never closed. */
  lemma {:induction false} WalksStuck(ts: seq<Tree>, rest: seq<Tag>, stack: seq<Entry>, named: bool) returns (after: seq<Entry>)
    requires Stuck(stack) && forall i :: 0 <= i < |ts| ==> Parsed(ts[i], named) && Kept(ts[i])
    requires |stack| + Heights(ts) + StaysIn(ts) <= MAX_DEPTH
    ensures Stuck(after) && |after| == |stack| + StaysIn(ts)
    ensures Walk(WRITER, Flats(ts) + rest, stack) == Lefts(ts, false) + Walk(WRITER, rest, after)
    decreases ts, 0
  {
    hide Walk, Closing, ClosingText, Kept, Parsed, NonNegative, Left, Wire, Flat, Taken, Parent, Height, Stays, Stuck;
    if ts == [] {
      assert Flats(ts) + rest == rest;
      after := stack;
    } else {
      var t, ts' := ts[0], ts[1..];
      Assoc(Flat(t), Flats(ts'), rest);
      StuckStays(stack);
      if NonNegative(t) {
        PassesKid(t, Flats(ts') + rest, stack, named);
        StuckStays(Taken(stack));
        after := WalksStuck(ts', rest, Taken(stack), named);
      } else {
        var stuck := WalksOpen(t, Flats(ts') + rest, stack, named);
        after := WalksStuck(ts', rest, stuck, named);
      }
      Assoc(Left(t, false), Lefts(ts', false), Walk(WRITER, rest, after));
    }
  }

  /** The walk over a tree whose payloads are kept writes the wire form exactly when no compound has a negative
      size in it. */
  lemma {:induction false} WalkIsWire(t: Tree)
    requires Parsed(t, true) && Kept(t) && Height(t) + Stays(t) <= MAX_DEPTH
    ensures Walk(WRITER, Flat(t), []) == Wire(t, true) <==> NoneOpen(t)
  {
    hide Walk, Wire, Left, Parsed, Kept, NonNegative, NoneOpen, Flat, Stuck;
    if NonNegative(t) {
      ParsedCounted(t, true);
      WalkRenders(WRITER, t);
      WireRenders(t, None, 0, true);
      NonNegativeNoneOpen(t);
    } else {
      assert Flat(t) + [] == Flat(t);
      var after := WalksOpen(t, [], [], true);
      WalkStep(WRITER, [], after);
      assert Left(t, true) + [] == Left(t, true);
      LeftShorter(t, true, true);
      if NoneOpen(t) {
        LeftIsWire(t, true);
      }
    }
  }
}
