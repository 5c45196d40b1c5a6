/** Lists that are not read as they are meant: for an empty list directly inside a list the parser credits the
    wrong container, and elements of an unknown type take no bytes. */
module NbtEmptyLists {
  import opened Bytes
  import opened NbtTree
  import opened NbtParse
  import opened NbtComplete

  /** The round that reads an empty list directly inside a list: the innermost count stays as it was,
      and the container below it, if there is one, is credited instead. */
  lemma {:induction false} EmptyListRound(s: State, t: Tree, more: seq<byte>)
    requires Sane(s) && s.stack != [] && Top(s.stack).typ == LIST && s.tags[Top(s.stack).idx].data.elem == LIST
    requires HeadParsed(t, false) && t.tag.typ == LIST && t.kids == []
    requires s.input == WireData(t.tag) + more
    ensures var n := |s.stack|;
            var stack := if n > 1 then s.stack[n - 2 := Credited(s.stack[n - 2])] else s.stack;
            && Top(stack) == Top(s.stack)
            && Round(s, false) == Next(State(stack, s.tags + [t.tag], more))
  {
    ReadsData(s, t, false, more);
    var stack := UpdateParents(s.stack, LIST);
    assert Prune(stack) == stack;
  }

  function ListOf(elem: byte, kids: seq<Tree>): Tree {
    Node(Tag(LIST, [], ListHead(elem, |kids|)), kids)
  }

  /** The wire form of a list that holds one empty list is refused: after the empty list the parser
      still waits for an element. */
  lemma {:induction false} EmptyListRefused(elem: byte)
    ensures Parse(Wire(ListOf(LIST, [ListOf(elem, [])]), true)) == Invalid
  {
    hide Wire, Parse;
    EmptyHead(elem);
    ListOfListsExactly([ListOf(elem, [])]);
  }

  lemma {:induction false} EmptyHead(elem: byte)
    ensures HeadParsed(ListOf(elem, []), false) && OpenDepths([ListOf(elem, [])]) == 0
  {
    Widths();
    var t := ListOf(elem, []);
    assert OpenDepth(t) == 0 && [t][1..] == [];
  }

  /** A list of lists that waits for an element at the end of the input. */
  lemma {:induction false} Starves(s: State)
    requires Sane(s) && s.stack != [] && s.input == []
    requires Top(s.stack).typ == LIST && s.tags[Top(s.stack).idx].data.elem == LIST
    ensures Go(s, false) == Invalid
  {
    assert Round(s, false) == Halt(Invalid);
  }

  function ByteTag(bits: nat): Tree {
    Node(Tag(BYTE, [], Num(bits)), [])
  }

  /** The misfit does not always show: here the list that follows is taken for the missing element,
      the outer count has been lowered once too often already, and the array is right again. */
  lemma {:induction false} EmptyListUnnoticed(elem: byte, bits: nat)
    requires bits < 0x100
    ensures var t := ListOf(LIST, [ListOf(LIST, [ListOf(elem, [])]), ListOf(BYTE, [ByteTag(bits)])]);
            !Parsed(t, true) && Parse(Wire(t, true)) == Done(Flat(t), [])
  {
    hide Go, WireData, WireHead, Parsed, Flat, Wire;
    var e, b := ListOf(elem, []), ByteTag(bits);
    var l, x := ListOf(LIST, [e]), ListOf(BYTE, [b]);
    var t := ListOf(LIST, [l, x]);
    var i4 := WireData(b.tag);
    var i3 := WireData(x.tag) + i4;
    var i2 := WireData(e.tag) + i3;
    var i1 := WireData(l.tag) + i2;
    NotParsed(t, l, e, x);
    FlatOfFive(t, l, e, x, b);
    WireOfFive(t, l, e, x, b);
    ByteHead(bits);
    UnnoticedRun(t, l, e, x, b, i1, i2, i3, i4);
  }

  lemma {:induction false} ByteHead(bits: nat)
    requires bits < 0x100
    ensures HeadParsed(ByteTag(bits), false)
  {
    Widths();
  }

  lemma {:induction false} NotParsed(t: Tree, l: Tree, e: Tree, x: Tree)
    requires t.kids == [l, x] && l == ListOf(LIST, [e]) && e.tag.typ == LIST && e.kids == []
    ensures !Parsed(t, true)
  {
    assert l.kids[0] == e && !Fits(l.tag, l.kids[0]);
    assert !Parsed(l, t.tag.typ == COMPOUND);
    assert t.kids[0] == l;
  }

  lemma {:induction false} FlatOfFive(t: Tree, l: Tree, e: Tree, x: Tree, b: Tree)
    requires t.kids == [l, x] && l.kids == [e] && e.kids == [] && x.kids == [b] && b.kids == []
    ensures Flat(t) == [t.tag, l.tag, e.tag, x.tag, b.tag]
  {
    assert [l, x][1..] == [x];
    assert Flats([e]) == Flat(e) + Flats([]) && Flats([b]) == Flat(b) + Flats([]) && Flats([x]) == Flat(x) + Flats([]);
    assert Flats([l, x]) == Flat(l) + Flats([x]);
  }

  lemma {:induction false} WireOfFive(t: Tree, l: Tree, e: Tree, x: Tree, b: Tree)
    requires t.kids == [l, x] && l.kids == [e] && e.kids == [] && x.kids == [b] && b.kids == []
    requires t.tag.typ == LIST && l.tag.typ == LIST && e.tag.typ == LIST && x.tag.typ == LIST && b.tag.typ == BYTE
    ensures Wire(t, true)
              == WireHead(t.tag, true)
                 + (WireData(t.tag)
                    + (WireData(l.tag) + (WireData(e.tag) + (WireData(x.tag) + WireData(b.tag)))))
  {
    hide WireData;
    WiresOne(e);
    WiresOne(b);
    WiresOne(x);
    assert [l, x][1..] == [x];
    assert Wire(e, false) == WireData(e.tag) && Wire(b, false) == WireData(b.tag);
    assert Wires(t.kids, false) == Wire(l, false) + Wire(x, false);
  }

  lemma {:induction false} WiresOne(t: Tree)
    ensures Wires([t], false) == Wire(t, false)
  {
    assert Wires([t], false) == Wire(t, false) + Wires([], false);
  }

  /** The five rounds of that run: what the loop reaches after each of them. */
  lemma {:induction false} FirstRound(t: Tree, kids: seq<Tree>, more: seq<byte>)
    requires t == ListOf(LIST, kids) && 0 < |kids| < 10
    ensures var s := State([], [], WireHead(t.tag, true) + (WireData(t.tag) + more));
            Sane(s) && Sane(State([Meta(LIST, |kids|, 0)], [t.tag], more))
            && Go(s, false) == Go(State([Meta(LIST, |kids|, 0)], [t.tag], more), false)
  {
    hide Go, Round, WireData, WireHead, Sane;
    var s := State([], [], WireHead(t.tag, true) + (WireData(t.tag) + more));
    SaneStart(s);
    ReadsRound(s, t, more, false);
    assert HeadRound(s, t, more) == State([Meta(LIST, |kids|, 0)], [t.tag], more);
  }

  /** A list inside a list is opened. */
  lemma {:induction false} OpensInside(below: seq<Meta>, left: int, idx: nat, tags: seq<Tag>, l: Tree, more: seq<byte>)
    requires l.tag.typ == LIST && l.kids != [] && HeadParsed(l, false) && |below| < 10
    requires var s := State(below + [Meta(LIST, left, idx)], tags, WireData(l.tag) + more);
             Sane(s) && tags[idx].data.elem == LIST
    ensures var s1 := State(below + [Meta(LIST, left - 1, idx), Meta(LIST, |l.kids|, |tags|)], tags + [l.tag], more);
            Sane(s1)
            && Go(State(below + [Meta(LIST, left, idx)], tags, WireData(l.tag) + more), false) == Go(s1, false)
  {
    hide Go, Round, WireData, WireHead, HeadParsed;
    var s := State(below + [Meta(LIST, left, idx)], tags, WireData(l.tag) + more);
    NoHead(l.tag, WireData(l.tag) + more);
    AwaitsList(s, l);
    hide Sane, Awaits;
    ReadsRound(s, l, more, false);
    assert HeadRound(s, l, more) == State(below + [Meta(LIST, left - 1, idx), Meta(LIST, |l.kids|, |tags|)], tags + [l.tag], more);
  }

  lemma {:induction false} AwaitsList(s: State, l: Tree)
    requires Sane(s) && s.stack != [] && Top(s.stack).typ == LIST && s.tags[Top(s.stack).idx].data.elem == LIST
    requires l.tag.typ == LIST && l.kids != []
    ensures Awaits(s, l) && !Named(s.stack)
  {
  }

  /** The byte closes all three lists at once. */
  lemma {:induction false} LastRound(tags: seq<Tag>, b: Tree)
    requires |tags| == 4 && tags[0].typ == tags[1].typ == tags[3].typ == LIST && b.kids == [] && b.tag.typ == BYTE
    requires tags[0].data.ListHead? && tags[1].data.ListHead? && tags[3].data.ListHead? && tags[3].data.elem == BYTE
    requires HeadParsed(b, false)
    ensures var s := State([Meta(LIST, 0, 0), Meta(LIST, 0, 1), Meta(LIST, 1, 3)], tags, WireData(b.tag));
            Sane(s) && Go(s, false) == Done(tags + [b.tag], [])
  {
    hide Go, Round, WireData, WireHead, HeadParsed;
    var s := State([Meta(LIST, 0, 0), Meta(LIST, 0, 1), Meta(LIST, 1, 3)], tags, WireData(b.tag));
    assert Sane(s) && Awaits(s, b);
    hide Sane, Awaits;
    assert WireData(b.tag) + [] == WireData(b.tag);
    NoHead(b.tag, WireData(b.tag));
    ReadsRound(s, b, [], false);
    PruneThree();
    assert HeadRound(s, b, []) == State([], tags + [b.tag], []);
  }

  lemma {:induction false} UnnoticedRun(t: Tree, l: Tree, e: Tree, x: Tree, b: Tree,
                                        i1: seq<byte>, i2: seq<byte>, i3: seq<byte>, i4: seq<byte>)
    requires t == ListOf(LIST, [l, x]) && l == ListOf(LIST, [e]) && e.tag.data.ListHead? && e == ListOf(e.tag.data.elem, [])
    requires x == ListOf(BYTE, [b]) && b.kids == [] && b.tag.typ == BYTE && HeadParsed(b, false)
    requires i1 == WireData(l.tag) + i2 && i2 == WireData(e.tag) + i3 && i3 == WireData(x.tag) + i4 && i4 == WireData(b.tag)
    ensures Parse(WireHead(t.tag, true) + (WireData(t.tag) + i1)) == Done([t.tag, l.tag, e.tag, x.tag, b.tag], [])
  {
    hide Go, Round, WireData, WireHead, Sane;
    FirstRound(t, [l, x], i1);
    assert [] + [Meta(LIST, 2, 0)] == [Meta(LIST, 2, 0)] && [t.tag] + [l.tag] == [t.tag, l.tag];
    OpensInside([], 2, 0, [t.tag], l, i2);
    var two := [Meta(LIST, 1, 0), Meta(LIST, 1, 1)];
    assert [] + two == two;
    var s2 := State(two, [t.tag, l.tag], i2);
    EmptyListRound(s2, e, i3);
    var s3 := State([Meta(LIST, 0, 0)] + [Meta(LIST, 1, 1)], [t.tag, l.tag, e.tag], i3);
    assert Round(s2, false) == Next(s3);
    GoesOn(s2, s3);
    OpensInside([Meta(LIST, 0, 0)], 1, 1, [t.tag, l.tag, e.tag], x, i4);
    assert [t.tag, l.tag, e.tag] + [x.tag] == [t.tag, l.tag, e.tag, x.tag];
    assert [Meta(LIST, 0, 0)] + [Meta(LIST, 0, 1), Meta(LIST, 1, 3)] == [Meta(LIST, 0, 0), Meta(LIST, 0, 1), Meta(LIST, 1, 3)];
    LastRound([t.tag, l.tag, e.tag, x.tag], b);
  }

  lemma {:induction false} SaneStart(s: State)
    requires s.stack == []
    ensures Sane(s)
  {
  }

  lemma {:induction false} NoHead(tag: Tag, more: seq<byte>)
    ensures WireHead(tag, false) + more == more
  {
  }

  lemma {:induction false} GoesOn(s: State, s1: State)
    requires Sane(s) && Round(s, false) == Next(s1) && s1.stack != []
    ensures Sane(s1) && Go(s, false) == Go(s1, false)
  {
    RoundKeeps(s, false);
  }

  lemma {:induction false} PruneThree()
    ensures Prune(Credit([Meta(LIST, 0, 0), Meta(LIST, 0, 1), Meta(LIST, 1, 3)])) == []
  {
    assert Credit([Meta(LIST, 0, 0), Meta(LIST, 0, 1), Meta(LIST, 1, 3)])
        == [Meta(LIST, 0, 0), Meta(LIST, 0, 1), Meta(LIST, 0, 3)];
    assert Prune([Meta(LIST, 0, 0)]) == Prune([]);
    assert Prune([Meta(LIST, 0, 0), Meta(LIST, 0, 1)]) == Prune([Meta(LIST, 0, 0)]);
  }

  function NonEmpty(ts: seq<Tree>): nat {
    if ts == [] then 0 else (if ts[0].kids == [] then 0 else 1) + NonEmpty(ts[1..])
  }

  /** Lists that are read as they are, and empty ones. */
  predicate ListsOnly(ts: seq<Tree>) {
    forall i :: 0 <= i < |ts| ==>
      ts[i].tag.typ == LIST && if ts[i].kids == [] then HeadParsed(ts[i], false) else Parsed(ts[i], false)
  }

  /** A list of lists at the root that waits for more elements than it finds ones that are not empty. */
  lemma {:induction false} WaitsInVain(s: State, ts: seq<Tree>)
    requires Sane(s) && |s.stack| == 1 && s.input == Wires(ts, false) && ListsOnly(ts)
    requires Top(s.stack).typ == LIST && s.tags[Top(s.stack).idx].data.elem == LIST
    requires Top(s.stack).left > NonEmpty(ts) && 1 + OpenDepths(ts) <= MAX_DEPTH
    ensures Go(s, false) == Invalid
    decreases |ts|
  {
    hide Go, Round, Wire, WireData, WireHead, HeadParsed, Parsed, Flat, OpenDepth;
    if ts == [] {
      Starves(s);
    } else {
      var t, ts' := ts[0], ts[1..];
      assert ListsOnly(ts') by {
        assert forall i :: 0 <= i < |ts'| ==> ts'[i] == ts[i + 1];
      }
      var more := Wires(ts', false);
      if t.kids == [] {
        EmptyWire(t);
        EmptyListRound(s, t, more);
        var s1 := State(s.stack, s.tags + [t.tag], more);
        GoesOn(s, s1);
        WaitsInVain(s1, ts');
      } else {
        AwaitsList(s, t);
        ReadsTree(s, t, more, false);
        var s1 := Settled(s.stack, s.tags + Flat(t), more);
        StaysOnTop(s);
        WaitsInVain(s1, ts');
      }
    }
  }

  lemma {:induction false} StaysOnTop(s: State)
    requires |s.stack| == 1 && Top(s.stack).typ == LIST && Top(s.stack).left > 1
    ensures Prune(Credit(s.stack)) == [Top(s.stack).(left := Top(s.stack).left - 1)]
  {
  }

  lemma {:induction false} EmptyWire(t: Tree)
    requires t.tag.typ == LIST && t.kids == []
    ensures Wire(t, false) == WireData(t.tag)
  {
    hide WireData;
  }

  lemma {:induction false} AllNonEmpty(ts: seq<Tree>)
    ensures NonEmpty(ts) <= |ts|
    ensures NonEmpty(ts) == |ts| <==> forall i :: 0 <= i < |ts| ==> ts[i].kids != []
  {
    if ts != [] {
      AllNonEmpty(ts[1..]);
      assert forall i :: 0 < i < |ts| ==> ts[i] == ts[1..][i - 1];
      assert forall i :: 0 <= i < |ts[1..]| ==> ts[1..][i] == ts[i + 1];
    }
  }

  /** The bytes of a list of lists are accepted exactly when none of the lists is empty. */
  lemma {:induction false} ListOfListsExactly(kids: seq<Tree>)
    requires ListsOnly(kids) && 0 < |kids| < 0x8000_0000 && 1 + OpenDepths(kids) <= MAX_DEPTH
    ensures var t := ListOf(LIST, kids);
            if forall i :: 0 <= i < |kids| ==> kids[i].kids != []
            then Parse(Wire(t, true)) == Done(Flat(t), []) else Parse(Wire(t, true)) == Invalid
  {
    hide Go, Round, Wire, WireData, WireHead, HeadParsed, Parsed, Flat, Sane;
    var t := ListOf(LIST, kids);
    AllNonEmpty(kids);
    RootParsed(kids);
    if forall i :: 0 <= i < |kids| ==> kids[i].kids != [] {
      assert Wire(t, true) + [] == Wire(t, true);
      ParsesWire(t, []);
    } else {
      var s := State([], [], Wire(t, true));
      SaneStart(s);
      RootWire(kids);
      ReadsRound(s, t, Wires(kids, false), false);
      var s1 := State([Meta(LIST, |kids|, 0)], [t.tag], Wires(kids, false));
      assert HeadRound(s, t, Wires(kids, false)) == s1;
      WaitsInVain(s1, kids);
    }
  }

  lemma {:induction false} RootParsed(kids: seq<Tree>)
    requires ListsOnly(kids) && 0 < |kids| < 0x8000_0000
    ensures HeadParsed(ListOf(LIST, kids), true)
    ensures (forall i :: 0 <= i < |kids| ==> kids[i].kids != []) ==> Parsed(ListOf(LIST, kids), true)
    ensures OpenDepth(ListOf(LIST, kids)) == 1 + OpenDepths(kids)
  {
    hide OpenDepths;
  }

  lemma {:induction false} RootWire(kids: seq<Tree>)
    ensures var t := ListOf(LIST, kids);
            Wire(t, true) == WireHead(t.tag, true) + (WireData(t.tag) + Wires(kids, false))
  {
    hide WireHead, WireData, Wires;
  }

  /** A round in a list whose element type is no tag type: nothing is read, and an element is counted. */
  lemma {:induction false} UnknownRound(tag: Tag, n: nat, more: seq<byte>)
    requires tag.typ == LIST && tag.data.ListHead? && tag.data.elem > LONG_ARRAY && n > 0
    ensures var s := State([Meta(LIST, n, 0)], [tag], more);
            Sane(s)
            && Round(s, false)
               == if tag.data.elem == TYPE_COUNT then Halt(Invalid)
                  else Next(State(if n > 1 then [Meta(LIST, n - 1, 0)] else [], [tag], more))
  {
    var s := State([Meta(LIST, n, 0)], [tag], more);
    assert Sane(s);
    if tag.data.elem != TYPE_COUNT {
      assert ParseTag(s, tag.data.elem) == Next(s);
      assert UpdateParents(s.stack, tag.data.elem) == [Meta(LIST, n - 1, 0)];
    }
  }

  lemma {:induction false} UnknownRun(tag: Tag, n: nat, more: seq<byte>)
    requires tag.typ == LIST && tag.data.ListHead? && tag.data.elem > LONG_ARRAY && n > 0
    ensures var s := State([Meta(LIST, n, 0)], [tag], more);
            Sane(s) && Go(s, false) == if tag.data.elem == TYPE_COUNT then Invalid else Done([tag], more)
    decreases n
  {
    hide Round, Sane;
    UnknownRound(tag, n, more);
    if n > 1 && tag.data.elem != TYPE_COUNT {
      UnknownRun(tag, n - 1, more);
    }
  }

  /** A list of elements of an unknown type: 13 is refused, any other is taken for a list whose elements take
      no bytes, and what comes back is a tag that declares elements that are not there. */
  lemma {:induction false} UnknownElements(elem: byte, n: nat, more: seq<byte>)
    requires elem > LONG_ARRAY && 0 < n < 0x8000_0000
    ensures var tag := Tag(LIST, [], ListHead(elem, n));
            Parse(WireHead(tag, true) + (WireData(tag) + more))
            == if elem == TYPE_COUNT then Invalid else Done([tag], more)
  {
    hide Go, Round, WireData, WireHead, Sane;
    var t := ListOf(elem, seq(n, _ => ByteTag(0)));
    var s := State([], [], WireHead(t.tag, true) + (WireData(t.tag) + more));
    SaneStart(s);
    ReadsRound(s, t, more, false);
    assert HeadRound(s, t, more) == State([Meta(LIST, n, 0)], [t.tag], more);
    UnknownRun(t.tag, n, more);
  }
}
