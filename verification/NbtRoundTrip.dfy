/** Writer and parser together: what comes back when a tree is written and read. */
module NbtRoundTrip {
  import opened Bytes
  import opened Wrappers
  import opened NbtTree
  import NbtParse
  import opened NbtComplete
  import opened FlatWalk
  import opened NbtWrite

  /** The trees nbt_write is meant for: counts are the numbers of children (for arrays, the count
      the writer uses), children may stand in their container. */
  predicate Writable(t: Tree) {
    && DataFits(t.tag) && IsI32(|t.kids|)
    && (if IsContainer(t.tag.typ) then WrittenCount(t.tag) == |t.kids| else t.kids == [])
    && forall i :: 0 <= i < |t.kids| ==> Fits(t.tag, t.kids[i]) && Writable(t.kids[i])
  }

  /** The payload that comes back: floats with their bytes reversed, strings cut to 65535 bytes,
      array counts in the member meant for arrays. */
  function RereadData(tag: Tag): Payload
    requires DataFits(tag)
  {
    match tag.data
    case Num(bits) =>
      if IsFloating(tag.typ) then Num(Number(BigEndian(bits, Width(tag.typ)))) else tag.data
    case Text(chars) => Text(Clamped(chars))
    case ArrayHead(_, size) => ArrayHead(size, 0)
    case _ => tag.data
  }

  /** The tag that comes back: names are kept below compounds only. */
  function RereadTag(tag: Tag, named: bool): Tag
    requires DataFits(tag)
  {
    Tag(tag.typ, if named then Clamped(tag.name) else [], RereadData(tag))
  }

  /** The tree that comes back. */
  function Reread(t: Tree, named: bool): Tree
    requires Writable(t)
    decreases t, 1
  {
    Node(RereadTag(t.tag, named), Rereads(t.kids, t.tag.typ == COMPOUND))
  }

  function Rereads(ts: seq<Tree>, named: bool): (r: seq<Tree>)
    requires forall i :: 0 <= i < |ts| ==> Writable(ts[i])
    ensures |r| == |ts| && forall i :: 0 <= i < |ts| ==> r[i] == Reread(ts[i], named)
    decreases ts, 0
  {
    if ts == [] then [] else [Reread(ts[0], named)] + Rereads(ts[1..], named)
  }

  lemma {:induction false} RereadTagWire(tag: Tag, named: bool)
    requires DataFits(tag)
    ensures DataFits(RereadTag(tag, named))
    ensures WireHead(RereadTag(tag, named), named) + WireData(RereadTag(tag, named))
              == (if named then [tag.typ] + WireString(Clamped(tag.name)) else []) + PayloadBytes(tag)
    ensures WireEnd(RereadTag(tag, named)) == WireEnd(tag)
  {
    if IsNumber(tag.typ) && IsFloating(tag.typ) {
      MemoryOfNumber(BigEndian(tag.data.bits, Width(tag.typ)));
    }
  }

  /** The tree that comes back is one the parser builds. */
  lemma {:induction false} RereadParsed(t: Tree, named: bool)
    requires Writable(t)
    ensures Parsed(Reread(t, named), named)
    ensures OpenDepth(Reread(t, named)) <= Height(t)
    decreases t, 1
  {
    hide Clamped, WireString, Parsed, OpenDepth;
    var u := Reread(t, named);
    RereadHead(t, named);
    forall i | 0 <= i < |t.kids| ensures Fits(u.tag, u.kids[i]) && Parsed(u.kids[i], u.tag.typ == COMPOUND) {
      assert Fits(t.tag, t.kids[i]);
      RereadParsed(t.kids[i], t.tag.typ == COMPOUND);
    }
    RereadDepths(t.kids, t.tag.typ == COMPOUND);
    ParsedBy(u, named);
    DepthBy(u, t);
  }

  lemma {:induction false} RereadHead(t: Tree, named: bool)
    requires Writable(t)
    ensures HeadParsed(Reread(t, named), named)
  {
    RereadTagWire(t.tag, named);
  }

  lemma {:induction false} ParsedBy(u: Tree, named: bool)
    requires HeadParsed(u, named)
    requires forall i :: 0 <= i < |u.kids| ==> Fits(u.tag, u.kids[i]) && Parsed(u.kids[i], u.tag.typ == COMPOUND)
    ensures Parsed(u, named)
  {
  }

  lemma {:induction false} DepthBy(u: Tree, t: Tree)
    requires u.tag.typ == t.tag.typ && |u.kids| == |t.kids| && OpenDepths(u.kids) <= Heights(t.kids)
    requires Writable(t)
    ensures OpenDepth(u) <= Height(t)
  {
  }

  lemma {:induction false} RereadDepths(ts: seq<Tree>, named: bool)
    requires forall i :: 0 <= i < |ts| ==> Writable(ts[i])
    ensures OpenDepths(Rereads(ts, named)) <= Heights(ts)
    decreases ts, 0
  {
    hide Writable, OpenDepth, Height;
    if ts != [] {
      RereadParsed(ts[0], named);
      RereadDepths(ts[1..], named);
      assert Rereads(ts, named)[1..] == Rereads(ts[1..], named);
    }
  }

  lemma {:induction false} WritableCounted(t: Tree)
    requires Writable(t)
    ensures Counted(WRITER, t)
  {
    forall i | 0 <= i < |t.kids| ensures Counted(WRITER, t.kids[i]) {
      WritableCounted(t.kids[i]);
    }
  }

  predicate NamedBelow(parent: Option<Entry>) {
    parent.None? || IsNotArray(parent.value.tag.typ)
  }

  /** What the writer emits for a tree is the wire form of the tree that comes back. */
  lemma {:induction false} RenderIsWire(t: Tree, parent: Option<Entry>, depth: nat)
    requires Writable(t)
    ensures Render(WRITER, t, parent, depth) == Wire(Reread(t, NamedBelow(parent)), NamedBelow(parent))
    decreases t, 1
  {
    hide RereadTag, WireData, WireHead, HeadBytes, PayloadBytes, Renders, Wires;
    var named, compound := NamedBelow(parent), t.tag.typ == COMPOUND;
    var u := Reread(t, named);
    SameType(t, named);
    HeadBytesNamed(parent, t.tag);
    RereadTagWire(t.tag, named);
    if IsContainer(t.tag.typ) {
      RendersAreWires(t.kids, Entry(t.tag, |t.kids|), depth + 1);
      assert IsNotArray(t.tag.typ) == compound;
    } else {
      NoKids(u);
    }
    Assoc(OpenTag(parent, depth, t.tag), Wires(u.kids, compound), WireEnd(t.tag));
  }

  lemma {:induction false} RendersAreWires(ts: seq<Tree>, parent: Entry, depth: nat)
    requires forall i :: 0 <= i < |ts| ==> Writable(ts[i])
    ensures Renders(WRITER, ts, parent, depth)
              == Wires(Rereads(ts, IsNotArray(parent.tag.typ)), IsNotArray(parent.tag.typ))
    decreases ts, 0
  {
    hide Writable, Wire, Render;
    if ts != [] {
      var named := IsNotArray(parent.tag.typ);
      RenderIsWire(ts[0], Some(parent), depth);
      RendersAreWires(ts[1..], parent.(left := parent.left - 1), depth);
      assert Rereads(ts, named)[1..] == Rereads(ts[1..], named);
    }
  }

  lemma {:induction false} HeadBytesNamed(parent: Option<Entry>, tag: Tag)
    ensures HeadBytes(parent, tag) == if NamedBelow(parent) then [tag.typ] + WireString(Clamped(tag.name)) else []
  {
  }

  lemma {:induction false} NoKids(u: Tree)
    requires u.kids == [] && !IsContainer(u.tag.typ)
    ensures Wires(u.kids, false) == [] && WireEnd(u.tag) == []
  {
  }

  lemma {:induction false} SameType(t: Tree, named: bool)
    requires Writable(t)
    ensures Reread(t, named).tag.typ == t.tag.typ
  {
  }

  /** Writing a tree and parsing the bytes gives back `Reread(t, true)`, and consumes exactly the
      bytes written, whatever follows them. */
  lemma {:induction false} RoundTrip(t: Tree, rest: seq<byte>)
    requires Writable(t) && Height(t) <= MAX_DEPTH
    ensures NbtParse.Parse(Walk(WRITER, Flat(t), []) + rest) == NbtParse.Done(Flat(Reread(t, true)), rest)
  {
    WritableCounted(t);
    WalkRenders(WRITER, t);
    RenderIsWire(t, None, 0);
    RereadParsed(t, true);
    ParsesWire(Reread(t, true), rest);
  }

  /** The payloads that survive: floats whose bytes read the same both ways, strings that fit, and
      no array with elements, since its count moves to the other member. */
  predicate KeepsPayload(tag: Tag) {
    && DataFits(tag)
    && (IsNumber(tag.typ) && IsFloating(tag.typ) ==>
          BigEndian(tag.data.bits, Width(tag.typ)) == Memory(tag.data.bits, Width(tag.typ)))
    && (tag.typ == STRING ==> |tag.data.chars| <= MAX_STRING)
    && (IsPlainArray(tag.typ) ==> tag.data == ArrayHead(0, 0))
  }

  predicate KeepsTag(tag: Tag, named: bool) {
    KeepsPayload(tag) && if named then |tag.name| <= MAX_STRING else tag.name == []
  }

  predicate Unchanged(t: Tree, named: bool) {
    KeepsTag(t.tag, named) && forall i :: 0 <= i < |t.kids| ==> Unchanged(t.kids[i], t.tag.typ == COMPOUND)
  }

  lemma {:induction false} TagUnchanged(tag: Tag, named: bool)
    requires DataFits(tag)
    ensures RereadTag(tag, named) == tag <==> KeepsTag(tag, named)
  {
    if IsNumber(tag.typ) && IsFloating(tag.typ) {
      var w := Width(tag.typ);
      NumberOfMemory(tag.data.bits, w);
      MemoryOfNumber(BigEndian(tag.data.bits, w));
    }
  }

  lemma {:induction false} FlatUnchanged(t: Tree, named: bool)
    requires Writable(t)
    ensures |Flat(Reread(t, named))| == |Flat(t)|
    ensures Flat(Reread(t, named)) == Flat(t) <==> Unchanged(t, named)
    decreases t, 1
  {
    hide KeepsTag, RereadTag;
    var u, compound := Reread(t, named), t.tag.typ == COMPOUND;
    TagUnchanged(t.tag, named);
    FlatsUnchanged(t.kids, compound);
    assert Flat(u) == [u.tag] + Flats(u.kids) && Flat(t) == [t.tag] + Flats(t.kids);
    if Flat(u) == Flat(t) {
      assert Flat(u)[1..] == Flats(u.kids) && Flat(t)[1..] == Flats(t.kids);
    }
  }

  lemma {:induction false} FlatsUnchanged(ts: seq<Tree>, named: bool)
    requires forall i :: 0 <= i < |ts| ==> Writable(ts[i])
    ensures |Flats(Rereads(ts, named))| == |Flats(ts)|
    ensures Flats(Rereads(ts, named)) == Flats(ts) <==> forall i :: 0 <= i < |ts| ==> Unchanged(ts[i], named)
    decreases ts, 0
  {
    hide Writable, Unchanged, Flat;
    if ts != [] {
      var us := Rereads(ts, named);
      FlatUnchanged(ts[0], named);
      FlatsUnchanged(ts[1..], named);
      assert us[1..] == Rereads(ts[1..], named);
      var n := |Flat(ts[0])|;
      if Flats(us) == Flats(ts) {
        assert Flats(us)[..n] == Flat(us[0]) && Flats(ts)[..n] == Flat(ts[0]);
        assert Flats(us)[n..] == Flats(us[1..]) && Flats(ts)[n..] == Flats(ts[1..]);
        forall i | 0 <= i < |ts| ensures Unchanged(ts[i], named) {
          if i > 0 {
            assert ts[i] == ts[1..][i - 1];
          }
        }
      }
    }
  }

  /** The round trip gives back the same array exactly when every tag is one the codec keeps. */
  lemma {:induction false} RoundTripExact(t: Tree, rest: seq<byte>)
    requires Writable(t) && Height(t) <= MAX_DEPTH
    ensures NbtParse.Parse(Walk(WRITER, Flat(t), []) + rest) == NbtParse.Done(Flat(t), rest) <==> Unchanged(t, true)
  {
    RoundTrip(t, rest);
    FlatUnchanged(t, true);
  }

  /** A float whose bytes do not read the same both ways comes back as another one. */
  lemma {:induction false} FloatReversed(rest: seq<byte>)
    ensures var t := Node(Tag(FLOAT, [], Num(1)), []);
            Writable(t) && Height(t) == 0
            && NbtParse.Parse(Walk(WRITER, Flat(t), []) + rest) == NbtParse.Done([Tag(FLOAT, [], Num(0x100_0000))], rest)
  {
    hide Walk, NbtParse.Parse, BigEndian, Number;
    var t := Node(Tag(FLOAT, [], Num(1)), []);
    Widths();
    OneReversed();
    RoundTrip(t, rest);
    assert Reread(t, true) == Node(Tag(FLOAT, [], Num(0x100_0000)), []);
    assert Flat(Reread(t, true)) == [Tag(FLOAT, [], Num(0x100_0000))];
  }

  lemma {:induction false} OneReversed()
    ensures Number(BigEndian(1, 4)) == 0x100_0000
  {
    assert Memory(1, 4) == [1, 0, 0, 0] by {
      assert Memory(0, 1) == [0] && Memory(0, 2) == [0, 0] && Memory(0, 3) == [0, 0, 0];
    }
    assert BigEndian(1, 4) == [0, 0, 0, 1];
    assert Number([1]) == 1 && [0, 1][1..] == [1] && [0, 0, 1][1..] == [0, 1] && [0, 0, 0, 1][1..] == [0, 0, 1];
    assert Number([0, 1]) == 256 && Number([0, 0, 1]) == 65536;
  }

  /** An array with an element comes back with its count in the other member. */
  lemma {:induction false} ArrayMoved(rest: seq<byte>)
    ensures var item := Tag(BYTE, [], Num(7));
            var t := Node(Tag(BYTE_ARRAY, [], ArrayHead(1, 1)), [Node(item, [])]);
            Writable(t) && Height(t) == 1
            && NbtParse.Parse(Walk(WRITER, Flat(t), []) + rest)
               == NbtParse.Done([Tag(BYTE_ARRAY, [], ArrayHead(1, 0)), item], rest)
  {
    var item := Node(Tag(BYTE, [], Num(7)), []);
    var t := Node(Tag(BYTE_ARRAY, [], ArrayHead(1, 1)), [item]);
    OneItem(t, item);
    RoundTrip(t, rest);
  }

  lemma {:induction false} OneItem(t: Tree, item: Tree)
    requires item == Node(Tag(BYTE, [], Num(7)), []) && t == Node(Tag(BYTE_ARRAY, [], ArrayHead(1, 1)), [item])
    ensures Writable(t) && Height(t) == 1
    ensures Flat(Reread(t, true)) == [Tag(BYTE_ARRAY, [], ArrayHead(1, 0)), item.tag]
  {
    Widths();
    assert Writable(item) && Height(item) == 0;
    assert Heights([item]) == 0 by {
      assert [item][1..] == [];
    }
    hide Height, Heights;
    assert Rereads([item], false) == [item];
    assert Reread(t, true) == Node(Tag(BYTE_ARRAY, [], ArrayHead(1, 0)), [item]);
    assert Flats([item]) == Flat(item) + Flats([]) && Flat(item) == [item.tag];
  }
}
