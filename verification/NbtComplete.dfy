/** The language of the NBT parser: the wire form of a tree, and the proof that the parse loop
    rebuilds the preorder array of every tree from its wire form. */
module NbtComplete {
  import opened Bytes
  import opened Wrappers
  import opened NbtTree
  import opened NbtParse

  /** Whether `kid` may stand in a container headed by `parent`. An empty list directly inside a
      list is kept out: the parser would credit the wrong container. */
  predicate Fits(parent: Tag, kid: Tree) {
    if parent.typ == LIST then
      && parent.data.ListHead? && kid.tag.typ == parent.data.elem
      && (kid.tag.typ == LIST ==> kid.kids != [])
    else if IsPlainArray(parent.typ) then kid.tag.typ == ElementOf(parent.typ)
    else parent.typ == COMPOUND
  }

  function Max0(i: int): nat { if i > 0 then i else 0 }

  predicate SizeFits(size: int, kids: seq<Tree>) {
    IsI32(size) && size != -1 && |kids| == Max0(size)
  }

  /** The head of a tree as the parser leaves it. */
  predicate HeadParsed(t: Tree, named: bool) {
    && DataFits(t.tag)
    && (if named then |t.tag.name| < 0x1_0000 else t.tag.name == [])
    && (if t.tag.typ == LIST then SizeFits(t.tag.data.size, t.kids)
        else if IsPlainArray(t.tag.typ) then t.tag.data.listSize == 0 && SizeFits(t.tag.data.arraySize, t.kids)
        else if t.tag.typ == COMPOUND then t.tag.data.count == |t.kids|
        else t.kids == [] && (t.tag.typ == STRING ==> |t.tag.data.chars| < 0x1_0000))
  }

  /** The trees the parser builds. */
  predicate Parsed(t: Tree, named: bool) {
    && HeadParsed(t, named)
    && forall i :: 0 <= i < |t.kids| ==> Fits(t.tag, t.kids[i]) && Parsed(t.kids[i], t.tag.typ == COMPOUND)
  }

  function WireString(s: seq<byte>): seq<byte> {
    BigEndian(|s|, 2) + s
  }

  function WireHead(tag: Tag, named: bool): seq<byte> {
    if named then [tag.typ] + WireString(tag.name) else []
  }

  function WireData(tag: Tag): seq<byte> {
    match tag.data
    case Num(bits) =>
      if !IsNumber(tag.typ) then []
      else if IsFloating(tag.typ) then Memory(bits, Width(tag.typ))
      else BigEndian(bits, Width(tag.typ))
    case Text(chars) => WireString(chars)
    case ListHead(elem, size) => [elem] + BigEndian(FromI32(size), 4)
    case ArrayHead(size, _) => BigEndian(FromI32(size), 4)
    case CompoundHead(_) => []
  }

  function WireEnd(tag: Tag): seq<byte> {
    if tag.typ == COMPOUND then [END] else []
  }

  /** The bytes the parser reads as tree `t`. */
  function Wire(t: Tree, named: bool): seq<byte> {
    WireHead(t.tag, named) + WireData(t.tag) + Wires(t.kids, t.tag.typ == COMPOUND) + WireEnd(t.tag)
  }

  function Wires(ts: seq<Tree>, named: bool): seq<byte> {
    if ts == [] then [] else Wire(ts[0], named) + Wires(ts[1..], named)
  }

  lemma {:induction false} TakeAll(a: seq<byte>, b: seq<byte>)
    ensures Take(a + b, |a|) == Some((a, b))
  {
    assert (a + b)[..|a|] == a && (a + b)[|a|..] == b;
  }

  lemma {:induction false} ReadsString(s: seq<byte>, rest: seq<byte>)
    requires |s| < 0x1_0000
    ensures ReadString(WireString(s) + rest) == Some((s, rest))
  {
    var len := BigEndian(|s|, 2);
    assert WireString(s) + rest == len + (s + rest);
    TakeAll(len, s + rest);
    Widths();
    WireRoundTrip(|s|, 2);
    TakeAll(s, rest);
  }

  lemma {:induction false} ReadsSize(size: int, rest: seq<byte>)
    requires IsI32(size)
    ensures Take(BigEndian(FromI32(size), 4) + rest, 4) == Some((BigEndian(FromI32(size), 4), rest))
    ensures ToI32(FromBigEndian(BigEndian(FromI32(size), 4))) == size
  {
    TakeAll(BigEndian(FromI32(size), 4), rest);
    Widths();
    WireRoundTrip(FromI32(size), 4);
  }

  /** The innermost container waits for a tree headed like `t`. */
  predicate Awaits(s: State, t: Tree) {
    s.stack != [] ==>
      && MetaFits(Top(s.stack), s.tags)
      && Fits(s.tags[Top(s.stack).idx], t)
  }

  function Credit(stack: seq<Meta>): (r: seq<Meta>)
    ensures |r| == |stack|
  {
    if stack == [] then [] else stack[..|stack| - 1] + [Credited(Top(stack))]
  }

  /** update_parents credits the container a tag was read in, both when the tag was pushed itself
      and when it was not, unless the tag was not pushed and has the type of its container. */
  lemma {:induction false} CreditsContainer(stack: seq<Meta>, m: Meta)
    requires m.typ != END
    ensures UpdateParents(stack + [m], m.typ) == Credit(stack) + [m]
    ensures UpdateParents(stack, m.typ) == Credit(stack) <==>
              stack == [] || Top(stack).typ != m.typ
              || (Credited(Top(stack)) == Top(stack) && (|stack| > 1 ==> Credited(stack[|stack| - 2]) == stack[|stack| - 2]))
  {
    assert stack != [] ==> stack[..|stack| - 1] + [Top(stack)] == stack;
    if stack != [] && Top(stack).typ == m.typ {
      var r, c := UpdateParents(stack, m.typ), Credit(stack);
      if r == c {
        assert r[|stack| - 1] == Top(stack) && c[|stack| - 1] == Credited(Top(stack));
        if |stack| > 1 {
          assert r[|stack| - 2] == Credited(stack[|stack| - 2]) && c[|stack| - 2] == stack[|stack| - 2];
        }
      }
    }
  }

  /** The type and name of a tag are read back. */
  lemma {:induction false} ReadsHead(s: State, t: Tree, more: seq<byte>)
    requires Sane(s) && Awaits(s, t) && HeadParsed(t, Named(s.stack))
    requires s.input == WireHead(t.tag, Named(s.stack)) + more
    ensures ReadType(s).Some? && ReadType(s).value.0 == t.tag.typ
    ensures ParseTag(s.(input := ReadType(s).value.1), t.tag.typ)
              == ParseData(s.(input := more), t.tag.typ, t.tag.name)
  {
    hide ParseData, ReadString, WireString, WireData, SizeFits;
    TagTypes(t, Named(s.stack));
    if Named(s.stack) {
      assert s.input == [t.tag.typ] + (WireString(t.tag.name) + more);
      assert s.input[1..] == WireString(t.tag.name) + more;
      ReadsString(t.tag.name, more);
    } else {
      ElementType(s, t);
      assert s.input == more;
    }
  }

  /** Inside a list or an array the type is the element type. */
  lemma {:induction false} ElementType(s: State, t: Tree)
    requires Sane(s) && Awaits(s, t) && !Named(s.stack) && t.tag.typ <= LONG_ARRAY
    ensures ReadType(s) == Some((t.tag.typ, s.input))
  {
  }

  predicate Opens(t: Tree) {
    t.tag.typ == COMPOUND || t.kids != []
  }

  /** The tag stored when the head of `t` has been read: a compound starts with no members. */
  function HeadRead(tag: Tag): Tag {
    if tag.typ == COMPOUND then tag.(data := CompoundHead(0)) else tag
  }

  lemma {:induction false} ReadsNumber(s: State, tag: Tag, more: seq<byte>)
    requires IsNumber(tag.typ) && DataFits(tag) && s.input == WireData(tag) + more
    ensures ParseNumber(s, tag.typ, tag.name) == Next(s.(input := more, tags := s.tags + [tag]))
  {
    TakeAll(WireData(tag), more);
    if IsFloating(tag.typ) {
      NumberOfMemory(tag.data.bits, Width(tag.typ));
    } else {
      WireRoundTrip(tag.data.bits, Width(tag.typ));
    }
  }

  lemma {:induction false} ReadsArray(s: State, blank: Tag, size: int, more: seq<byte>)
    requires IsI32(size) && size != -1 && s.input == BigEndian(FromI32(size), 4) + more
    requires |s.stack| < MAX_DEPTH || size <= 0
    ensures ParseArray(s, blank)
              == Next(State(if size > 0 then s.stack + [Meta(WithSize(blank, size).typ, size, |s.tags|)] else s.stack,
                            s.tags + [WithSize(blank, size)], more))
  {
    ReadsSize(size, more);
  }

  /** The payload of a tag is read back, and the tag is opened if it has more to come. */
  lemma {:induction false} ReadsData(s: State, t: Tree, named: bool, more: seq<byte>)
    requires Sane(s) && HeadParsed(t, named) && s.input == WireData(t.tag) + more
    requires |s.stack| < MAX_DEPTH || !Opens(t)
    ensures ParseData(s, t.tag.typ, t.tag.name)
              == Next(State(if Opens(t) then s.stack + [Opened(t, |s.tags|)] else s.stack,
                            s.tags + [HeadRead(t.tag)], more))
  {
    var tag := t.tag;
    if IsNumber(tag.typ) {
      ReadsNumber(s, tag, more);
    } else if tag.typ == STRING {
      ReadsString(tag.data.chars, more);
    } else if tag.typ == LIST {
      var size := BigEndian(FromI32(tag.data.size), 4);
      assert s.input == [tag.data.elem] + (size + more);
      TakeAll([tag.data.elem], size + more);
      ReadsArray(s.(input := size + more), Tag(LIST, tag.name, ListHead(tag.data.elem, 0)), tag.data.size, more);
    } else if IsPlainArray(tag.typ) {
      ReadsArray(s, Tag(tag.typ, tag.name, ArrayHead(0, 0)), tag.data.arraySize, more);
    } else {
      assert s.input == more;
    }
  }

  function Opened(t: Tree, idx: nat): Meta {
    Meta(t.tag.typ, if t.tag.typ == COMPOUND then 0 else |t.kids|, idx)
  }

  /** State after a whole tree was read: its container is credited, finished lists are closed. */
  function Settled(stack: seq<Meta>, tags: seq<Tag>, input: seq<byte>): State {
    State(Prune(Credit(stack)), tags, input)
  }

  lemma {:induction false} SettledSane(s: State, t: Tree, more: seq<Tag>, rest: seq<byte>)
    requires Sane(s)
    ensures Sane(Settled(s.stack, s.tags + more, rest))
  {
    var stack := Prune(Credit(s.stack));
    forall i | 0 <= i < |stack| ensures MetaFits(stack[i], s.tags + more) {
      assert MetaFits(s.stack[i], s.tags);
      assert stack[i] == Credit(s.stack)[i];
    }
  }

  /** The state after the round that reads the head of `t`. */
  function HeadRound(s: State, t: Tree, more: seq<byte>): State {
    if Opens(t) then State(Credit(s.stack) + [Opened(t, |s.tags|)], s.tags + [HeadRead(t.tag)], more)
    else Settled(s.stack, s.tags + [t.tag], more)
  }

  lemma {:induction false} ReadsRound(s: State, t: Tree, more: seq<byte>, strict: bool)
    requires Sane(s) && Awaits(s, t) && HeadParsed(t, Named(s.stack))
    requires s.input == WireHead(t.tag, Named(s.stack)) + (WireData(t.tag) + more)
    requires |s.stack| < MAX_DEPTH || !Opens(t)
    ensures Round(s, strict) == Next(HeadRound(s, t, more))
    ensures Sane(HeadRound(s, t, more))
    ensures Go(s, strict) == After(HeadRound(s, t, more), strict)
  {
    hide ReadType, ParseTag, ParseData, WireHead, WireData, HeadParsed, Sane, MetaFits, Awaits, Prune, UpdateParents, Credit;
    ReadsHead(s, t, WireData(t.tag) + more);
    SaneInput(s, WireData(t.tag) + more);
    ReadsData(s.(input := WireData(t.tag) + more), t, Named(s.stack), more);
    var stack := if Opens(t) then s.stack + [Opened(t, |s.tags|)] else s.stack;
    HeadFitsIn(s, t, State(stack, s.tags + [HeadRead(t.tag)], more));
    RoundKeeps(s, strict);
  }

  lemma {:induction false} SaneInput(s: State, input: seq<byte>)
    requires Sane(s)
    ensures Sane(s.(input := input))
  {
  }

  /** A head that may stand where it was read is no misfit. */
  lemma {:induction false} NoMisfit(s: State, t: Tree, s1: State)
    requires Sane(s) && Awaits(s, t) && HeadParsed(t, Named(s.stack))
    requires s1.stack == if Opens(t) then s.stack + [Opened(t, |s.tags|)] else s.stack
    ensures !Misfit(s, t.tag.typ, s1)
  {
    hide Prune, UpdateParents, Credit, SizeFits;
    TagTypes(t, Named(s.stack));
  }

  lemma {:induction false} TagTypes(t: Tree, named: bool)
    requires HeadParsed(t, named)
    ensures END < t.tag.typ <= LONG_ARRAY
  {
    hide SizeFits;
  }

  /** The container that is credited. */
  lemma {:induction false} CreditsWhere(s: State, t: Tree, stack: seq<Meta>)
    requires Sane(s) && Awaits(s, t) && HeadParsed(t, Named(s.stack))
    requires stack == if Opens(t) then s.stack + [Opened(t, |s.tags|)] else s.stack
    ensures UpdateParents(stack, t.tag.typ)
              == if Opens(t) then Credit(s.stack) + [Opened(t, |s.tags|)] else Credit(s.stack)
  {
    hide Prune, UpdateParents, Credit, HeadParsed, Misfit;
    TagTypes(t, Named(s.stack));
    CreditsContainer(s.stack, Opened(t, |s.tags|));
    if !Opens(t) && s.stack != [] {
      OtherType(s, t);
    }
  }

  /** A tag that is not opened has another type than its container, or its container is not counted by it. */
  lemma {:induction false} OtherType(s: State, t: Tree)
    requires Sane(s) && Awaits(s, t) && !Opens(t) && s.stack != []
    ensures Top(s.stack).typ != t.tag.typ
  {
    hide Prune, UpdateParents, Credit, HeadParsed;
  }

  /** An open container is not pruned. */
  lemma {:induction false} OpenStays(stack: seq<Meta>, t: Tree, idx: nat)
    requires Opens(t) && IsContainer(t.tag.typ)
    ensures Prune(stack + [Opened(t, idx)]) == stack + [Opened(t, idx)]
  {
  }

  lemma {:induction false} OpensContainer(t: Tree, named: bool)
    requires HeadParsed(t, named)
    ensures Opens(t) ==> IsContainer(t.tag.typ)
    ensures HeadRead(t.tag) == t.tag || Opens(t)
  {
    hide SizeFits;
  }

  lemma {:induction false} HeadFitsIn(s: State, t: Tree, s1: State)
    requires Sane(s) && Awaits(s, t) && HeadParsed(t, Named(s.stack))
    requires s1.stack == if Opens(t) then s.stack + [Opened(t, |s.tags|)] else s.stack
    ensures !Misfit(s, t.tag.typ, s1)
    ensures Prune(UpdateParents(s1.stack, t.tag.typ))
              == if Opens(t) then Credit(s.stack) + [Opened(t, |s.tags|)] else Prune(Credit(s.stack))
    ensures HeadRead(t.tag) == t.tag || Opens(t)
  {
    hide Sane, Awaits, HeadParsed, Misfit, Prune, UpdateParents, Credit, Opens, Opened, HeadRead;
    NoMisfit(s, t, s1);
    CreditsWhere(s, t, s1.stack);
    OpensContainer(t, Named(s.stack));
    if Opens(t) {
      OpenStays(Credit(s.stack), t, |s.tags|);
    }
  }

  /** From any state that awaits tree `t` and has its wire form ahead, the loop reaches the state
      in which the flat form of `t` has been appended and exactly its bytes have been consumed. */
  lemma {:induction false} ReadsTree(s: State, t: Tree, rest: seq<byte>, strict: bool)
    requires Sane(s) && Awaits(s, t) && Parsed(t, Named(s.stack))
    requires s.input == Wire(t, Named(s.stack)) + rest
    requires |s.stack| + OpenDepth(t) <= MAX_DEPTH
    ensures Sane(Settled(s.stack, s.tags + Flat(t), rest))
    ensures Go(s, strict) == After(Settled(s.stack, s.tags + Flat(t), rest), strict)
    decreases t, 1
  {
    hide Go, Prune, Credited, Credit, Sane, Awaits, MetaFits, Wire, Wires, WireHead, WireData, WireEnd;
    hide Parsed, HeadParsed, HeadRead, HeadRound, OpenCompound, Flat, Flats, OpenDepth, OpenDepths;
    TreeParts(t, Named(s.stack));
    var more := Wires(t.kids, t.tag.typ == COMPOUND) + (WireEnd(t.tag) + rest);
    SplitWire(s, t, rest, more);
    ReadsRound(s, t, more, strict);
    SettledSane(s, t, Flat(t), rest);
    var s1 := HeadRound(s, t, more);
    FlatParts(s.tags, t);
    if t.tag.typ == COMPOUND {
      OpensCompound(s, t, more, rest);
      ReadsMembers(s1, Credit(s.stack), s.tags, t, [], t.kids, rest, strict);
      assert [] + t.kids == t.kids;
    } else if t.kids != [] {
      AwaitsKids(s, s1, t, rest);
      ReadsElements(s1, Credit(s.stack), t.kids, rest, strict);
    } else {
      LeafRound(s, t, more, rest);
    }
  }

  lemma {:induction false} TreeParts(t: Tree, named: bool)
    requires Parsed(t, named)
    ensures HeadParsed(t, named)
    ensures OpenDepth(t) == (if Opens(t) then 1 else 0) + OpenDepths(t.kids)
  {
  }

  lemma {:induction false} LeafRound(s: State, t: Tree, more: seq<byte>, rest: seq<byte>)
    requires !Opens(t) && more == Wires(t.kids, t.tag.typ == COMPOUND) + (WireEnd(t.tag) + rest)
    ensures HeadRound(s, t, more) == Settled(s.stack, s.tags + Flat(t), rest)
  {
    assert more == rest && Flat(t) == [t.tag];
  }

  lemma {:induction false} SplitWire(s: State, t: Tree, rest: seq<byte>, more: seq<byte>)
    requires s.input == Wire(t, Named(s.stack)) + rest
    requires more == Wires(t.kids, t.tag.typ == COMPOUND) + (WireEnd(t.tag) + rest)
    ensures s.input == WireHead(t.tag, Named(s.stack)) + (WireData(t.tag) + more)
  {
    hide WireHead, WireData, Wires, WireEnd, Named;
    var head, data, kids := WireHead(t.tag, Named(s.stack)), WireData(t.tag), Wires(t.kids, t.tag.typ == COMPOUND);
    Assoc(head + data + kids, WireEnd(t.tag), rest);
    Assoc(head + data, kids, WireEnd(t.tag) + rest);
    Assoc(head, data, more);
  }

  lemma {:induction false} FlatParts(before: seq<Tag>, t: Tree)
    ensures before + Flat(t) == before + [t.tag] + Flats(t.kids)
    ensures t.kids == [] ==> Flat(t) == [t.tag]
  {
  }

  lemma {:induction false} OpensCompound(s: State, t: Tree, more: seq<byte>, rest: seq<byte>)
    requires t.tag.typ == COMPOUND && Parsed(t, Named(s.stack))
    requires more == Wires(t.kids, true) + (WireEnd(t.tag) + rest)
    ensures OpenCompound(HeadRound(s, t, more), Credit(s.stack), s.tags, t, [])
    ensures |HeadRound(s, t, more).stack| == |s.stack| + 1 && HeadRound(s, t, more).input == more
    ensures t.tag.data == CompoundHead(|t.kids|)
    ensures more == Wires(t.kids, true) + ([END] + rest)
    ensures forall i :: 0 <= i < |t.kids| ==> Parsed(t.kids[i], true)
  {
    assert s.tags + [HeadRead(t.tag)] + Flats([]) == s.tags + [HeadRead(t.tag)];
  }

  lemma {:induction false} AwaitsKids(s: State, s1: State, t: Tree, rest: seq<byte>)
    requires Parsed(t, Named(s.stack)) && t.tag.typ != COMPOUND && t.kids != []
    requires s1 == HeadRound(s, t, Wires(t.kids, false) + (WireEnd(t.tag) + rest))
    ensures s1.input == Wires(t.kids, false) + rest
    ensures |s1.stack| == |s.stack| + 1 && s1.stack[..|s.stack|] == Credit(s.stack)
    ensures s1.tags == s.tags + [t.tag]
    ensures !Named(s1.stack) && Top(s1.stack).left == |t.kids|
    ensures forall i :: 0 <= i < |t.kids| ==> Awaits(s1, t.kids[i]) && Parsed(t.kids[i], false)
  {
    assert s1.tags[Top(s1.stack).idx] == t.tag;
    forall i | 0 <= i < |t.kids| ensures Awaits(s1, t.kids[i]) && Parsed(t.kids[i], false) {
      assert Fits(t.tag, t.kids[i]);
    }
  }

  /** The elements of an open list or array are read, then the list is closed. */
  lemma {:induction false} ReadsElements(s: State, below: seq<Meta>, ts: seq<Tree>, rest: seq<byte>, strict: bool)
    requires Sane(s) && |s.stack| == |below| + 1 && s.stack[..|below|] == below
    requires !Named(s.stack) && Top(s.stack).left == |ts| > 0
    requires forall i :: 0 <= i < |ts| ==> Awaits(s, ts[i]) && Parsed(ts[i], false)
    requires s.input == Wires(ts, false) + rest
    requires |s.stack| + OpenDepths(ts) <= MAX_DEPTH
    ensures Sane(State(Prune(below), s.tags + Flats(ts), rest))
    ensures Go(s, strict) == After(State(Prune(below), s.tags + Flats(ts), rest), strict)
    decreases ts, 0
  {
    hide Go, Prune, Credit, Sane, MetaFits, Wire, HeadParsed, Parsed, Flat, OpenDepth, Awaits;
    var t, ts' := ts[0], ts[1..];
    assert Awaits(s, t) && Parsed(t, false);
    var more := Wires(ts', false) + rest;
    assert s.input == Wire(t, false) + more;
    ReadsTree(s, t, more, strict);
    var s1 := Settled(s.stack, s.tags + Flat(t), more);
    assert s.tags + Flats(ts) == s.tags + Flat(t) + Flats(ts');
    if ts' == [] {
      LastElement(s, below);
      assert more == rest && Flats(ts) == Flat(t);
    } else {
      AwaitsStill(s, s1, ts);
      ReadsElements(s1, below, ts', rest, strict);
    }
  }

  lemma {:induction false} LastElement(s: State, below: seq<Meta>)
    requires |s.stack| == |below| + 1 && s.stack[..|below|] == below
    requires !Named(s.stack) && Top(s.stack).left == 1
    ensures Prune(Credit(s.stack)) == Prune(below)
  {
    assert Credit(s.stack)[..|below|] == below;
  }

  lemma {:induction false} AwaitsStill(s: State, s1: State, ts: seq<Tree>)
    requires !Named(s.stack) && Top(s.stack).left == |ts| > 1
    requires forall i :: 0 <= i < |ts| ==> Awaits(s, ts[i]) && Parsed(ts[i], false)
    requires s1 == Settled(s.stack, s1.tags, s1.input) && s.tags <= s1.tags
    ensures |s1.stack| == |s.stack| && s1.stack[..|s.stack| - 1] == s.stack[..|s.stack| - 1]
    ensures !Named(s1.stack) && Top(s1.stack).left == |ts| - 1
    ensures forall i :: 0 <= i < |ts[1..]| ==> Awaits(s1, ts[1..][i]) && Parsed(ts[1..][i], false)
  {
    forall i | 0 <= i < |ts[1..]| ensures Awaits(s1, ts[1..][i]) && Parsed(ts[1..][i], false) {
      assert Awaits(s, ts[i + 1]);
    }
  }

  /** An open compound with `seen` members read so far, at index |before|. */
  ghost predicate OpenCompound(s: State, below: seq<Meta>, before: seq<Tag>, t: Tree, seen: seq<Tree>) {
    && t.tag.typ == COMPOUND
    && s.stack == below + [Meta(COMPOUND, |seen|, |before|)]
    && s.tags == before + [HeadRead(t.tag)] + Flats(seen)
  }

  /** The members of an open compound are read, then its end tag closes it and stores the count. */
  lemma {:induction false} ReadsMembers(s: State, below: seq<Meta>, before: seq<Tag>, t: Tree,
                                        seen: seq<Tree>, ts: seq<Tree>, rest: seq<byte>, strict: bool)
    requires Sane(s) && OpenCompound(s, below, before, t, seen)
    requires t.tag.data == CompoundHead(|seen| + |ts|)
    requires forall i :: 0 <= i < |ts| ==> Parsed(ts[i], true)
    requires s.input == Wires(ts, true) + ([END] + rest)
    requires |s.stack| + OpenDepths(ts) <= MAX_DEPTH
    ensures Sane(State(Prune(below), before + [t.tag] + Flats(seen + ts), rest))
    ensures Go(s, strict) == After(State(Prune(below), before + [t.tag] + Flats(seen + ts), rest), strict)
    decreases ts, 0
  {
    hide Go, Prune, Sane, MetaFits, Wire, HeadParsed, Parsed, Flat, OpenDepth, Awaits;
    if ts == [] {
      assert seen + ts == seen;
      ReadsEnd(s, below, before, t, seen, rest, strict);
    } else {
      var kid, ts' := ts[0], ts[1..];
      var more := Wires(ts', true) + ([END] + rest);
      assert s.input == Wire(kid, true) + more;
      AwaitsMember(s, below, before, t, seen, kid);
      ReadsTree(s, kid, more, strict);
      FlatsAppend(seen, kid);
      var s1 := Settled(s.stack, s.tags + Flat(kid), more);
      MemberCounted(below, |seen|, |before|);
      assert s1.tags == before + [HeadRead(t.tag)] + Flats(seen + [kid]);
      ReadsMembers(s1, below, before, t, seen + [kid], ts', rest, strict);
      assert seen + [kid] + ts' == seen + ts;
    }
  }

  lemma {:induction false} AwaitsMember(s: State, below: seq<Meta>, before: seq<Tag>, t: Tree, seen: seq<Tree>, kid: Tree)
    requires Sane(s) && OpenCompound(s, below, before, t, seen)
    ensures Awaits(s, kid) && Named(s.stack)
  {
  }

  lemma {:induction false} MemberCounted(below: seq<Meta>, n: nat, idx: nat)
    ensures Prune(Credit(below + [Meta(COMPOUND, n, idx)])) == below + [Meta(COMPOUND, n + 1, idx)]
  {
  }

  lemma {:induction false} ReadsEnd(s: State, below: seq<Meta>, before: seq<Tag>, t: Tree,
                                    seen: seq<Tree>, rest: seq<byte>, strict: bool)
    requires Sane(s) && OpenCompound(s, below, before, t, seen)
    requires t.tag.data == CompoundHead(|seen|)
    requires s.input == [END] + rest
    ensures Sane(State(Prune(below), before + [t.tag] + Flats(seen), rest))
    ensures Go(s, strict) == After(State(Prune(below), before + [t.tag] + Flats(seen), rest), strict)
  {
    var tags := before + [t.tag] + Flats(seen);
    assert s.tags[|before|] == HeadRead(t.tag);
    assert s.tags[|before| := t.tag] == tags;
    assert s.stack[..|s.stack| - 1] == below && s.input[1..] == rest;
    assert Round(s, strict) == Next(State(Prune(below), tags, rest));
    RoundKeeps(s, strict);
  }

  /** Completeness: the wire form of a tree, whatever follows it, is parsed to the flat form of the
      tree, and exactly the wire form is consumed. */
  lemma {:induction false} ParsesWire(t: Tree, rest: seq<byte>)
    requires Parsed(t, true) && OpenDepth(t) <= MAX_DEPTH
    ensures Parse(Wire(t, true) + rest) == Done(Flat(t), rest)
    ensures ParseStrictly(Wire(t, true) + rest) == Done(Flat(t), rest)
  {
    var s := State([], [], Wire(t, true) + rest);
    ReadsTree(s, t, rest, false);
    ReadsTree(s, t, rest, true);
    assert [] + Flat(t) == Flat(t);
  }
}
