/** The other direction: whatever bytes the parser accepts without a misfit are the wire form of a
    tree, and the array it returns is the flat form of that tree. The invariant of the loop is that
    the array is a partly built tree: a spine of open containers with their finished children. */
module NbtSound {
  import opened Bytes
  import opened Wrappers
  import opened NbtTree
  import opened NbtParse
  import opened NbtComplete

  /** An open container: its tag as stored so far and its finished children. */
  datatype Frame = Frame(tag: Tag, kids: seq<Tree>)

  function Last(spine: seq<Frame>): Frame
    requires spine != []
  {
    spine[|spine| - 1]
  }

  function Front<T>(s: seq<T>): seq<T>
    requires s != []
  {
    s[..|s| - 1]
  }

  predicate NamedIn(spine: seq<Frame>) {
    spine == [] || IsNotArray(Last(spine).tag.typ)
  }

  function SpineTags(spine: seq<Frame>): seq<Tag> {
    if spine == [] then []
    else SpineTags(Front(spine)) + [Last(spine).tag] + Flats(Last(spine).kids)
  }

  function SpineWire(spine: seq<Frame>): seq<byte> {
    if spine == [] then []
    else
      SpineWire(Front(spine)) + WireHead(Last(spine).tag, NamedIn(Front(spine))) + WireData(Last(spine).tag)
      + Wires(Last(spine).kids, Last(spine).tag.typ == COMPOUND)
  }

  function Declared(tag: Tag): int {
    if tag.data.ListHead? then tag.data.size else if tag.data.ArrayHead? then tag.data.arraySize else 0
  }

  /** An open tag: a list or an array declares at least one element, a compound stores no count yet. */
  predicate OpenTag(tag: Tag, named: bool) {
    && IsContainer(tag.typ) && DataFits(tag)
    && (if named then |tag.name| < 0x1_0000 else tag.name == [])
    && (if tag.typ == COMPOUND then tag.data == CompoundHead(0) else IsI32(Declared(tag)) && Declared(tag) > 0)
    && (IsPlainArray(tag.typ) ==> tag.data.listSize == 0)
  }

  /** A stack entry keeps the books of its frame: a compound counts its members, a list or an array
      what is left of its declared length; `pending` children are counted but not finished. */
  ghost predicate Books(m: Meta, f: Frame, depth: nat, idx: nat, named: bool, pending: nat) {
    && m.typ == f.tag.typ && m.idx == idx && OpenTag(f.tag, named)
    && (if m.typ == COMPOUND then m.left == |f.kids| + pending
        else m.left >= 0 && m.left + |f.kids| + pending == Declared(f.tag))
    && forall i :: 0 <= i < |f.kids| ==>
         Fits(f.tag, f.kids[i]) && Parsed(f.kids[i], m.typ == COMPOUND) && depth + OpenDepth(f.kids[i]) <= MAX_DEPTH
  }

  /** The parser's stack and the spine agree, and each open container may stand in the one below. */
  ghost predicate Matches(stack: seq<Meta>, spine: seq<Frame>, pending: nat) {
    && |stack| == |spine| <= MAX_DEPTH
    && (stack != [] ==>
          && Books(Top(stack), Last(spine), |stack|, |SpineTags(Front(spine))|, NamedIn(Front(spine)), pending)
          && (|spine| > 1 ==> MayStandIn(Last(Front(spine)).tag, Last(spine).tag))
          && Matches(Front(stack), Front(spine), 1))
  }

  predicate MayStandIn(parent: Tag, tag: Tag) {
    if parent.typ == LIST then parent.data.ListHead? && tag.typ == parent.data.elem
    else if IsPlainArray(parent.typ) then tag.typ == ElementOf(parent.typ)
    else parent.typ == COMPOUND
  }

  /** The loop invariant: the array is the partly built tree, the bytes read so far are its wire
      form. */
  ghost predicate Inv(s: State, spine: seq<Frame>, whole: seq<byte>) {
    && Sane(s) && Matches(s.stack, spine, 0)
    && s.tags == SpineTags(spine) && whole == SpineWire(spine) + s.input
  }

  function Attach(spine: seq<Frame>, t: Tree): seq<Frame>
    requires spine != []
  {
    Front(spine) + [Frame(Last(spine).tag, Last(spine).kids + [t])]
  }

  lemma {:induction false} WiresAppend(ts: seq<Tree>, t: Tree, named: bool)
    ensures Wires(ts + [t], named) == Wires(ts, named) + Wire(t, named)
  {
    if ts != [] {
      assert (ts + [t])[1..] == ts[1..] + [t];
      WiresAppend(ts[1..], t, named);
    } else {
      assert Wires([t], named) == Wire(t, named) + Wires([], named);
    }
  }

  /** A finished child of the top frame is added to it. */
  lemma {:induction false} AttachKeeps(stack: seq<Meta>, spine: seq<Frame>, t: Tree)
    requires stack != [] && Matches(stack, spine, 1)
    requires Parsed(t, NamedIn(spine)) && Fits(Last(spine).tag, t) && |stack| + OpenDepth(t) <= MAX_DEPTH
    ensures Matches(stack, Attach(spine, t), 0)
    ensures SpineTags(Attach(spine, t)) == SpineTags(spine) + Flat(t)
    ensures SpineWire(Attach(spine, t)) == SpineWire(spine) + Wire(t, NamedIn(spine))
  {
    hide Parsed, Fits, OpenDepth, Flat, Wire, WireHead, WireData, OpenTag, Flats, Wires, Books, SpineTags, SpineWire;
    hide MayStandIn;
    var f, f' := Last(spine), Frame(Last(spine).tag, Last(spine).kids + [t]);
    assert Front(Attach(spine, t)) == Front(spine);
    TopNamed(Top(stack), f, |stack|, |SpineTags(Front(spine))|, NamedIn(Front(spine)));
    BooksAttach(Top(stack), f, t, |stack|, |SpineTags(Front(spine))|, NamedIn(Front(spine)));
    AttachParts(spine, t);
  }

  lemma {:induction false} AttachParts(spine: seq<Frame>, t: Tree)
    requires spine != [] && NamedIn(spine) == (Last(spine).tag.typ == COMPOUND)
    ensures SpineTags(Attach(spine, t)) == SpineTags(spine) + Flat(t)
    ensures SpineWire(Attach(spine, t)) == SpineWire(spine) + Wire(t, NamedIn(spine))
  {
    hide Flat, Wire, Flats, Wires, WireHead, WireData;
    var f := Last(spine);
    assert Front(Attach(spine, t)) == Front(spine);
    FlatsAppend(f.kids, t);
    WiresAppend(f.kids, t, f.tag.typ == COMPOUND);
    Assoc(SpineTags(Front(spine)) + [f.tag], Flats(f.kids), Flat(t));
    Assoc(SpineWire(Front(spine)) + WireHead(f.tag, NamedIn(Front(spine))) + WireData(f.tag),
          Wires(f.kids, f.tag.typ == COMPOUND), Wire(t, NamedIn(spine)));
  }

  lemma {:induction false} TopNamed(m: Meta, f: Frame, depth: nat, idx: nat, named: bool)
    requires Books(m, f, depth, idx, named, 1)
    ensures m.typ == f.tag.typ && IsNotArray(m.typ) == (m.typ == COMPOUND)
  {
  }

  lemma {:induction false} BooksAttach(m: Meta, f: Frame, t: Tree, depth: nat, idx: nat, named: bool)
    requires Books(m, f, depth, idx, named, 1)
    requires Parsed(t, m.typ == COMPOUND) && Fits(f.tag, t) && depth + OpenDepth(t) <= MAX_DEPTH
    ensures Books(m, Frame(f.tag, f.kids + [t]), depth, idx, named, 0)
  {
    hide Parsed, Fits, OpenDepth, OpenTag;
  }

  /** The top frame of a finished list, array or compound as a tree. */
  function Built(f: Frame): Tree {
    Node(if f.tag.typ == COMPOUND then f.tag.(data := CompoundHead(|f.kids|)) else f.tag, f.kids)
  }

  lemma {:induction false} OpenDepthsBound(ts: seq<Tree>, d: nat)
    requires d <= MAX_DEPTH
    requires forall i :: 0 <= i < |ts| ==> d + OpenDepth(ts[i]) <= MAX_DEPTH
    ensures d + OpenDepths(ts) <= MAX_DEPTH
  {
    if ts != [] {
      OpenDepthsBound(ts[1..], d);
    }
  }

  /** A frame whose books are closed is a tree the parser builds. */
  lemma {:induction false} BuiltParsed(m: Meta, f: Frame, depth: nat, idx: nat, named: bool)
    requires Books(m, f, depth, idx, named, 0) && 0 < depth <= MAX_DEPTH
    requires m.typ != COMPOUND ==> m.left <= 0
    ensures Parsed(Built(f), named)
    ensures depth - 1 + OpenDepth(Built(f)) <= MAX_DEPTH
    ensures m.typ != COMPOUND ==>
              f.kids != [] && WireEnd(f.tag) == [] && Flat(Built(f)) == [f.tag] + Flats(f.kids)
    ensures Wire(Built(f), named)
              == WireHead(f.tag, named) + WireData(f.tag) + Wires(f.kids, f.tag.typ == COMPOUND) + WireEnd(f.tag)
  {
    hide OpenDepths, Wires;
    OpenDepthsBound(f.kids, depth);
    var t := Built(f);
    assert forall i :: 0 <= i < |t.kids| ==> Fits(f.tag, t.kids[i]) ==> Fits(t.tag, t.kids[i]);
  }

  /** Taking the top frame off the spine as a tree. */
  lemma {:induction false} TopAsTree(spine: seq<Frame>)
    requires spine != []
    ensures var f, named := Last(spine), NamedIn(Front(spine));
            var wire := WireHead(f.tag, named) + WireData(f.tag) + Wires(f.kids, f.tag.typ == COMPOUND);
            && SpineTags(spine) == SpineTags(Front(spine)) + ([f.tag] + Flats(f.kids))
            && SpineWire(spine) == SpineWire(Front(spine)) + wire
  {
    hide Flats, Wires, WireHead, WireData;
  }

  lemma {:induction false} EmptySpine()
    ensures SpineTags([]) == [] && SpineWire([]) == []
  {
  }

  lemma {:induction false} BuiltStands(parent: Tag, f: Frame)
    requires MayStandIn(parent, f.tag) && (f.tag.typ != COMPOUND ==> f.kids != [])
    ensures Fits(parent, Built(f))
  {
  }

  /** What a finished tree leads to: a partly built tree again, or the whole tree. */
  datatype Closed = Open(spine: seq<Frame>) | Whole(tree: Tree)

  ghost predicate Settles(c: Closed, s: State, whole: seq<byte>) {
    if s.stack == [] then
      && c.Whole? && Parsed(c.tree, true) && OpenDepth(c.tree) <= MAX_DEPTH
      && s.tags == Flat(c.tree) && whole == Wire(c.tree, true) + s.input
    else c.Open? && Inv(s, c.spine, whole)
  }

  /** Pruning after a finished tree: every list it completes becomes a finished tree in turn. */
  lemma {:induction false} PruneKeeps(stack: seq<Meta>, spine: seq<Frame>, t: Tree, s: State, whole: seq<byte>)
    returns (c: Closed)
    requires Matches(stack, spine, 1) && s.stack == Prune(stack) && Sane(s)
    requires Parsed(t, NamedIn(spine)) && (spine != [] ==> Fits(Last(spine).tag, t))
    requires |stack| + OpenDepth(t) <= MAX_DEPTH
    requires s.tags == SpineTags(spine) + Flat(t)
    requires whole == SpineWire(spine) + Wire(t, NamedIn(spine)) + s.input
    ensures Settles(c, s, whole)
  {
    hide Parsed, Fits, OpenDepth, Flats, Wire, Wires, WireHead, WireData, SpineTags, SpineWire;
    hide Sane, OpenTag, Books, MayStandIn;
    if stack == [] {
      EmptySpine();
      c := Whole(t);
    } else {
      AttachKeeps(stack, spine, t);
      var spine' := Attach(spine, t);
      if Top(stack).left > 0 || IsNotArray(Top(stack).typ) {
        c := Open(spine');
      } else {
        var f, below := Last(spine'), Front(spine');
        BuiltParsed(Top(stack), f, |stack|, |SpineTags(below)|, NamedIn(below));
        TopAsTree(spine');
        if below != [] {
          BuiltStands(Last(below).tag, f);
        }
        c := PruneKeeps(Front(stack), below, Built(f), s, whole);
      }
    }
  }

  lemma {:induction false} CreditKeeps(stack: seq<Meta>, spine: seq<Frame>)
    requires Matches(stack, spine, 0)
    requires stack != [] && !IsNotArray(Top(stack).typ) ==> Top(stack).left > 0
    ensures Matches(Credit(stack), spine, 1)
  {
    if stack != [] {
      assert Front(Credit(stack)) == Front(stack);
    }
  }

  lemma {:induction false} PushKeeps(stack: seq<Meta>, spine: seq<Frame>, m: Meta, tag: Tag)
    requires Matches(stack, spine, 1) && |stack| < MAX_DEPTH
    requires Books(m, Frame(tag, []), |stack| + 1, |SpineTags(spine)|, NamedIn(spine), 0)
    requires spine != [] ==> MayStandIn(Last(spine).tag, tag)
    ensures Matches(stack + [m], spine + [Frame(tag, [])], 0)
    ensures SpineTags(spine + [Frame(tag, [])]) == SpineTags(spine) + [tag]
    ensures SpineWire(spine + [Frame(tag, [])])
              == SpineWire(spine) + WireHead(tag, NamedIn(spine)) + WireData(tag)
  {
    hide Books, MayStandIn, WireHead, WireData;
    assert Flats([]) == [] && Wires([], tag.typ == COMPOUND) == [];
    assert Front(stack + [m]) == stack && Front(spine + [Frame(tag, [])]) == spine;
  }

  lemma {:induction false} StringSound(input: seq<byte>)
    requires ReadString(input).Some?
    ensures var (chars, rest) := ReadString(input).value;
            |chars| < 0x1_0000 && input == WireString(chars) + rest
  {
    Widths();
    WireOnto(input[..2]);
    var (chars, rest) := ReadString(input).value;
    assert input == input[..2] + (chars + rest);
  }

  /** The payload just read, and the container it opens if any. */
  ghost predicate DataRead(s: State, typ: byte, name: seq<byte>, s1: State, tag: Tag) {
    && tag.typ == typ && tag.name == name && DataFits(tag)
    && s.input == WireData(tag) + s1.input && s1.tags == s.tags + [tag]
    && (tag.typ == STRING ==> |tag.data.chars| < 0x1_0000)
    && (tag.typ == COMPOUND ==> tag.data == CompoundHead(0))
    && (!IsNotArray(tag.typ) ==> IsI32(Declared(tag)) && Declared(tag) != -1)
    && (IsPlainArray(tag.typ) ==> tag.data.listSize == 0)
    && (if tag.typ == COMPOUND || (!IsNotArray(tag.typ) && Declared(tag) > 0)
        then |s.stack| < MAX_DEPTH && s1.stack == s.stack + [Meta(typ, Declared(tag), |s.tags|)]
        else s1.stack == s.stack)
  }

  lemma {:induction false} NumberSound(s: State, typ: byte, name: seq<byte>)
    requires IsNumber(typ) && ParseNumber(s, typ, name).Next?
    ensures var s1 := ParseNumber(s, typ, name).state;
            s1.tags != [] && DataRead(s, typ, name, s1, s1.tags[|s1.tags| - 1])
  {
    hide DataFits, WireData, Number, FromBigEndian, Declared;
    var bytes, rest := s.input[..Width(typ)], s.input[Width(typ)..];
    assert s.input == bytes + rest;
    NumberWire(typ, name, bytes);
  }

  lemma {:induction false} NumberWire(typ: byte, name: seq<byte>, bytes: seq<byte>)
    requires IsNumber(typ) && |bytes| == Width(typ)
    ensures var tag := Tag(typ, name, Num(if IsFloating(typ) then Number(bytes) else FromBigEndian(bytes)));
            DataFits(tag) && WireData(tag) == bytes
  {
    if IsFloating(typ) {
      MemoryOfNumber(bytes);
    } else {
      WireOnto(bytes);
    }
  }

  lemma {:induction false} ArraySound(s: State, blank: Tag)
    requires ParseArray(s, blank).Next?
    ensures var s1, bytes := ParseArray(s, blank).state, s.input[..4];
            && |s.input| >= 4
            && var size := ToI32(FromBigEndian(bytes));
            && IsI32(size) && size != -1
            && s.input == BigEndian(FromI32(size), 4) + s1.input
            && s1.tags == s.tags + [WithSize(blank, size)]
            && (if size > 0
                then |s.stack| < MAX_DEPTH && s1.stack == s.stack + [Meta(WithSize(blank, size).typ, size, |s.tags|)]
                else s1.stack == s.stack)
  {
    Widths();
    WireOnto(s.input[..4]);
    assert s.input == s.input[..4] + s.input[4..];
  }

  lemma {:induction false} ListSound(s: State, name: seq<byte>)
    requires ParseList(s, name).Next?
    ensures var s1 := ParseList(s, name).state;
            s1.tags != [] && DataRead(s, LIST, name, s1, s1.tags[|s1.tags| - 1])
  {
    var elem, s0 := s.input[0], s.(input := s.input[1..]);
    assert s.input == [elem] + s0.input;
    ArraySound(s0, Tag(LIST, name, ListHead(elem, 0)));
  }

  lemma {:induction false} DataSound(s: State, typ: byte, name: seq<byte>)
    requires Sane(s) && typ != END && typ <= LONG_ARRAY && ParseData(s, typ, name).Next?
    ensures var s1 := ParseData(s, typ, name).state;
            s1.tags != [] && DataRead(s, typ, name, s1, s1.tags[|s1.tags| - 1])
  {
    if IsNumber(typ) {
      hide Take;
      NumberSound(s, typ, name);
    } else if typ == STRING {
      StringSound(s.input);
    } else if typ == LIST {
      hide DataRead;
      ListSound(s, name);
    } else if IsPlainArray(typ) {
      ArraySound(s, Tag(typ, name, ArrayHead(0, 0)));
    }
  }

  /** The innermost container's tag, and whether tags in it are named. */
  lemma {:induction false} TopTag(s: State, spine: seq<Frame>)
    requires Matches(s.stack, spine, 0) && s.tags == SpineTags(spine)
    ensures |s.stack| == |spine| && Named(s.stack) == NamedIn(spine)
    ensures s.stack != [] ==>
              && Top(s.stack).idx < |s.tags| && s.tags[Top(s.stack).idx] == Last(spine).tag
              && Top(s.stack).typ == Last(spine).tag.typ && OpenTag(Last(spine).tag, NamedIn(Front(spine)))
  {
    if s.stack != [] {
      TopAsTree(spine);
    }
  }

  /** The type and name just read. */
  lemma {:induction false} HeadSound(s: State, spine: seq<Frame>, tag: Tag, input: seq<byte>)
    requires Sane(s) && Matches(s.stack, spine, 0) && s.tags == SpineTags(spine)
    requires ReadType(s).Some? && ReadType(s).value.0 == tag.typ != END
    requires (if Named(s.stack) then ReadString(ReadType(s).value.1) else Some(([], ReadType(s).value.1)))
               == Some((tag.name, input))
    ensures s.input == WireHead(tag, NamedIn(spine)) + input
    ensures if NamedIn(spine) then |tag.name| < 0x1_0000 && tag.typ <= LONG_ARRAY else tag.name == []
    ensures spine != [] ==> MayStandIn(Last(spine).tag, tag)
  {
    TopTag(s, spine);
    if Named(s.stack) {
      StringSound(s.input[1..]);
      assert s.input == [tag.typ] + s.input[1..];
    }
  }

  /** A tag without children ahead of it is a finished tree. */
  lemma {:induction false} LeafKeeps(s: State, spine: seq<Frame>, tag: Tag, s0: State, s1: State, whole: seq<byte>)
    returns (c: Closed)
    requires Inv(s, spine, whole) && Sane(s1)
    requires s.input == WireHead(tag, NamedIn(spine)) + s0.input
    requires if NamedIn(spine) then |tag.name| < 0x1_0000 else tag.name == []
    requires spine != [] ==> MayStandIn(Last(spine).tag, tag)
    requires s0.stack == s.stack && s0.tags == s.tags
    requires s1.stack == Prune(UpdateParents(s.stack, tag.typ)) && tag.typ != END && tag.typ != COMPOUND
    requires DataRead(s0, tag.typ, tag.name, s1.(stack := s.stack), tag)
    requires !(spine != [] && Last(spine).tag.typ == LIST && tag.typ == LIST)
    ensures Settles(c, s1, whole)
  {
    hide Parsed, Matches, SpineTags, SpineWire, Sane, WireHead, WireData, MayStandIn, OpenDepth, Prune, OpenTag;
    hide Fits, Wire, Flat, DataRead;
    var t := Node(tag, []);
    SaneTop(s);
    LeafParsed(s0, s1.(stack := s.stack), spine, t);
    TopTag(s, spine);
    CreditsContainer(s.stack, Meta(tag.typ, 0, 0));
    CreditKeeps(s.stack, spine);
    c := PruneKeeps(Credit(s.stack), spine, t, s1, whole);
  }

  lemma {:induction false} LeafParsed(s0: State, s1: State, spine: seq<Frame>, t: Tree)
    requires t.kids == [] && t.tag.typ != COMPOUND && s1.stack == s0.stack
    requires if NamedIn(spine) then |t.tag.name| < 0x1_0000 else t.tag.name == []
    requires spine != [] ==> MayStandIn(Last(spine).tag, t.tag)
    requires DataRead(s0, t.tag.typ, t.tag.name, s1, t.tag)
    requires !(spine != [] && Last(spine).tag.typ == LIST && t.tag.typ == LIST)
    ensures Parsed(t, NamedIn(spine)) && OpenDepth(t) == 0 && Flat(t) == [t.tag]
    ensures Wire(t, NamedIn(spine)) == WireHead(t.tag, NamedIn(spine)) + WireData(t.tag)
    ensures s0.input == WireData(t.tag) + s1.input && s1.tags == s0.tags + [t.tag]
    ensures spine != [] ==> Fits(Last(spine).tag, t)
    ensures spine != [] && IsContainer(Last(spine).tag.typ) ==> Last(spine).tag.typ != t.tag.typ
  {
  }

  /** A container with children ahead of it is opened. */
  lemma {:induction false} OpenKeeps(s: State, spine: seq<Frame>, tag: Tag, s0: State, s1: State, whole: seq<byte>)
    requires Inv(s, spine, whole) && Sane(s1)
    requires s.input == WireHead(tag, NamedIn(spine)) + s0.input
    requires if NamedIn(spine) then |tag.name| < 0x1_0000 else tag.name == []
    requires spine != [] ==> MayStandIn(Last(spine).tag, tag)
    requires s0.stack == s.stack && s0.tags == s.tags
    requires var m := Meta(tag.typ, Declared(tag), |s.tags|);
             && s1.stack == Prune(UpdateParents(s.stack + [m], tag.typ))
             && DataRead(s0, tag.typ, tag.name, s1.(stack := s.stack + [m]), tag)
    ensures Inv(s1, spine + [Frame(tag, [])], whole)
  {
    hide Books, OpenTag, WireHead, WireData, Parsed, MayStandIn, Prune, Matches, SpineTags, SpineWire, Sane, DataRead;
    hide UpdateParents, Credit, Declared;
    var m := Meta(tag.typ, Declared(tag), |s.tags|);
    OpenBooks(s0, s1.(stack := s.stack + [m]), tag, |s.stack| + 1, NamedIn(spine));
    CreditsContainer(s.stack, m);
    SaneTop(s);
    CreditKeeps(s.stack, spine);
    PushKeeps(Credit(s.stack), spine, m, tag);
    OpenStays(Credit(s.stack), m);
    Assoc(SpineWire(spine), WireHead(tag, NamedIn(spine)), WireData(tag) + s1.input);
    Assoc(SpineWire(spine) + WireHead(tag, NamedIn(spine)), WireData(tag), s1.input);
  }

  lemma {:induction false} SaneTop(s: State)
    requires Sane(s)
    ensures s.stack != [] ==> IsContainer(Top(s.stack).typ)
    ensures s.stack != [] && !IsNotArray(Top(s.stack).typ) ==> Top(s.stack).left > 0
  {
  }

  lemma {:induction false} OpenStays(stack: seq<Meta>, m: Meta)
    requires m.typ == COMPOUND || m.left > 0
    ensures Prune(stack + [m]) == stack + [m]
  {
  }

  lemma {:induction false} OpenBooks(s0: State, s1: State, tag: Tag, depth: nat, named: bool)
    requires if named then |tag.name| < 0x1_0000 else tag.name == []
    requires DataRead(s0, tag.typ, tag.name, s1, tag) && |s1.stack| > |s0.stack|
    ensures Books(Meta(tag.typ, Declared(tag), |s0.tags|), Frame(tag, []), depth, |s0.tags|, named, 0)
    ensures tag.typ != COMPOUND ==> Declared(tag) > 0
    ensures IsContainer(tag.typ) && |s0.stack| < MAX_DEPTH
    ensures s0.input == WireData(tag) + s1.input && s1.tags == s0.tags + [tag]
  {
  }

  /** The end tag closes the innermost compound, which becomes a finished tree. */
  lemma {:induction false} EndKeeps(s: State, spine: seq<Frame>, s1: State, whole: seq<byte>)
    returns (c: Closed)
    requires Inv(s, spine, whole) && Sane(s1)
    requires s.stack != [] && Top(s.stack).typ == COMPOUND && s.input == [END] + s1.input
    requires s1.stack == Prune(Front(s.stack))
    requires s1.tags == s.tags[Top(s.stack).idx := s.tags[Top(s.stack).idx].(data := CompoundHead(Top(s.stack).left))]
    ensures Settles(c, s1, whole)
  {
    hide Parsed, Fits, SpineTags, SpineWire, Sane, WireHead, WireData, MayStandIn, OpenDepth, Prune;
    hide OpenTag, Wire, Wires, Flat, Flats, Built, Books;
    var f, below := Last(spine), Front(spine);
    TopTag(s, spine);
    BuiltParsed(Top(s.stack), f, |s.stack|, |SpineTags(below)|, NamedIn(below));
    TopAsTree(spine);
    EndTags(s, spine);
    if below != [] {
      BuiltStands(Last(below).tag, f);
    }
    c := PruneKeeps(Front(s.stack), below, Built(f), s1, whole);
  }

  lemma {:induction false} EndTags(s: State, spine: seq<Frame>)
    requires Matches(s.stack, spine, 0) && s.tags == SpineTags(spine)
    requires s.stack != [] && Top(s.stack).typ == COMPOUND
    ensures var m := Top(s.stack);
            && m.idx < |s.tags|
            && s.tags[m.idx := s.tags[m.idx].(data := CompoundHead(m.left))]
                 == SpineTags(Front(spine)) + Flat(Built(Last(spine)))
    ensures WireEnd(Last(spine).tag) == [END]
  {
    hide Flat, Flats, WireHead, Wires, Parsed, Fits, OpenDepth, OpenTag, SpineWire;
    var f, below := Last(spine), Front(spine);
    TopAsTree(spine);
    CompoundBooks(Top(s.stack), f, |s.stack|, |SpineTags(below)|, NamedIn(below));
  }

  lemma {:induction false} CompoundBooks(m: Meta, f: Frame, depth: nat, idx: nat, named: bool)
    requires Books(m, f, depth, idx, named, 0) && m.typ == COMPOUND
    ensures f.tag.typ == COMPOUND && m.idx == idx && m.left == |f.kids|
    ensures Flat(Built(f)) == [f.tag.(data := CompoundHead(|f.kids|))] + Flats(f.kids)
  {
  }

  /** Every round that meets no misfit keeps the invariant, or completes the tree. */
  lemma {:induction false} RoundSound(s: State, spine: seq<Frame>, whole: seq<byte>) returns (c: Closed)
    requires Inv(s, spine, whole) && Round(s, true).Next?
    ensures Settles(c, Round(s, true).state, whole)
  {
    hide Matches, SpineTags, SpineWire, WireHead, WireData, ParseNumber, ParseText, ParseList, ParseArray, ReadString;
    hide UpdateParents, Prune, Settles;
    RoundKeeps(s, true);
    var (typ, input0) := ReadType(s).value;
    var s0, s1 := s.(input := input0), Round(s, true).state;
    TopTag(s, spine);
    SaneTop(s);
    if typ == END {
      EndRound(s, spine, s1);
      c := EndKeeps(s, spine, s1, whole);
    } else {
      var (name, input) := (if Named(s.stack) then ReadString(input0) else Some(([], input0))).value;
      s0 := s.(input := input);
      TypeKnown(s, typ, spine != [] && NamedIn(Front(spine)));
      var read := ParseData(s0, typ, name).state;
      DataSound(s0, typ, name);
      var tag := read.tags[|read.tags| - 1];
      HeadSound(s, spine, tag, input);
      if |read.stack| > |s.stack| {
        OpenKeeps(s, spine, tag, s0, s1, whole);
        c := Open(spine + [Frame(tag, [])]);
        OpenSettles(s1, spine + [Frame(tag, [])], whole);
      } else {
        c := LeafKeeps(s, spine, tag, s0, s1, whole);
      }
    }
  }

  lemma {:induction false} OpenSettles(s: State, spine: seq<Frame>, whole: seq<byte>)
    requires Inv(s, spine, whole) && spine != []
    ensures Settles(Open(spine), s, whole)
  {
  }

  lemma {:induction false} EndRound(s: State, spine: seq<Frame>, s1: State)
    requires Sane(s) && Round(s, true) == Next(s1) && ReadType(s).value.0 == END
    ensures s.stack != [] && Top(s.stack).typ == COMPOUND && s.input == [END] + s1.input
    ensures s1.stack == Prune(Front(s.stack))
    ensures s1.tags == s.tags[Top(s.stack).idx := s.tags[Top(s.stack).idx].(data := CompoundHead(Top(s.stack).left))]
  {
  }

  lemma {:induction false} TypeKnown(s: State, typ: byte, named: bool)
    requires Sane(s) && Round(s, true).Next? && ReadType(s).value.0 == typ
    requires s.stack != [] ==> OpenTag(s.tags[Top(s.stack).idx], named)
    ensures typ <= LONG_ARRAY
  {
  }

  lemma {:induction false} OnlyGoIsDone(s: State, strict: bool)
    requires Sane(s)
    ensures Round(s, strict).Halt? ==> !Round(s, strict).outcome.Done?
  {
  }

  /** From a state that keeps the invariant, a strict run that ends well has read a tree. */
  lemma {:induction false} RunSound(s: State, spine: seq<Frame>, whole: seq<byte>) returns (t: Tree)
    requires Inv(s, spine, whole) && Go(s, true).Done?
    ensures Parsed(t, true) && OpenDepth(t) <= MAX_DEPTH
    ensures Go(s, true).tags == Flat(t) && whole == Wire(t, true) + Go(s, true).rest
    decreases |s.input|, Pending(s.stack)
  {
    hide Round, Parsed, OpenDepth, Flat, Wire, Matches, Sane;
    OnlyGoIsDone(s, true);
    RoundKeeps(s, true);
    var c := RoundSound(s, spine, whole);
    var s1 := Round(s, true).state;
    if s1.stack == [] {
      t := c.tree;
    } else {
      t := RunSound(s1, c.spine, whole);
    }
  }

  /** The parser accepts, without a misfit, exactly the wire forms of trees at most 512 containers
      deep, whatever follows them; it returns the flat form and leaves what follows unread. */
  lemma {:induction false} AcceptsExactlyTrees(input: seq<byte>, tags: seq<Tag>, rest: seq<byte>)
    ensures ParseStrictly(input) == Done(tags, rest) <==>
              exists t :: Parsed(t, true) && OpenDepth(t) <= MAX_DEPTH && tags == Flat(t) && input == Wire(t, true) + rest
  {
    if ParseStrictly(input) == Done(tags, rest) {
      var s := State([], [], input);
      EmptySpine();
      var t := RunSound(s, [], input);
    }
    forall t | Parsed(t, true) && OpenDepth(t) <= MAX_DEPTH && tags == Flat(t) && input == Wire(t, true) + rest
      ensures ParseStrictly(input) == Done(tags, rest)
    {
      ParsesWire(t, rest);
    }
  }

  /** A strict run that is not given up is the real run. */
  lemma {:induction false} StrictAgrees(s: State)
    requires Sane(s) && Go(s, true) != Stuck
    ensures Go(s, false) == Go(s, true)
    decreases |s.input|, Pending(s.stack)
  {
    hide ReadType, ParseTag, Prune, UpdateParents, Misfit;
    if Round(s, true).Next? {
      RoundKeeps(s, true);
      if Round(s, true).state.stack != [] {
        StrictAgrees(Round(s, true).state);
      }
    }
  }

  /** No wire form is a prefix of another: the bytes determine the tree and where it ends. */
  lemma {:induction false} WirePrefixFree(t: Tree, rest: seq<byte>, t': Tree, rest': seq<byte>)
    requires Parsed(t, true) && OpenDepth(t) <= MAX_DEPTH
    requires Parsed(t', true) && OpenDepth(t') <= MAX_DEPTH
    requires Wire(t, true) + rest == Wire(t', true) + rest'
    ensures Flat(t) == Flat(t') && rest == rest'
  {
    ParsesWire(t, rest);
    ParsesWire(t', rest');
  }
}
