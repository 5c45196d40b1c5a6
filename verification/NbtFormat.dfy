/** The format byte by byte, with the numbers of the types and the lengths of the payloads written out: what is
    parsed, and what is written. */
module NbtFormat {
  import opened Bytes
  import opened Wrappers
  import opened NbtTree
  import NbtParse
  import opened NbtComplete
  import opened FlatWalk
  import opened NbtWrite
  import opened NbtRoundTrip

  /** `n` in `k` bytes, the highest first. */
  function High(n: nat, k: nat): (bs: seq<byte>)
    ensures |bs| == k
  {
    if k == 0 then [] else High(n / 256, k - 1) + [n % 256]
  }

  /** `n` in `k` bytes, the lowest first. */
  function Low(n: nat, k: nat): (bs: seq<byte>)
    ensures |bs| == k
  {
    if k == 0 then [] else [n % 256] + Low(n / 256, k - 1)
  }

  /** The number that bytes spell, the highest first. */
  function Spelled(bs: seq<byte>): nat {
    if bs == [] then 0 else 256 * Spelled(bs[..|bs| - 1]) + bs[|bs| - 1]
  }

  /** The number that bytes spell, the lowest first. */
  function SpelledBack(bs: seq<byte>): nat {
    if bs == [] then 0 else bs[0] + 256 * SpelledBack(bs[1..])
  }

  lemma {:induction false} HighIs(n: nat, k: nat)
    ensures High(n, k) == BigEndian(n, k) && Low(n, k) == Memory(n, k)
  {
    if k > 0 {
      HighIs(n / 256, k - 1);
      assert Memory(n, k)[1..] == Memory(n / 256, k - 1);
    }
  }

  lemma {:induction false} HighSpelled(bs: seq<byte>)
    ensures High(Spelled(bs), |bs|) == bs
  {
    if bs != [] {
      var n := |bs| - 1;
      HighSpelled(bs[..n]);
      assert Spelled(bs) / 256 == Spelled(bs[..n]) && Spelled(bs) % 256 == bs[n];
      assert bs == bs[..n] + [bs[n]];
    }
  }

  lemma {:induction false} LowSpelled(bs: seq<byte>)
    ensures Low(SpelledBack(bs), |bs|) == bs
  {
    if bs != [] {
      LowSpelled(bs[1..]);
      assert SpelledBack(bs) / 256 == SpelledBack(bs[1..]) && SpelledBack(bs) % 256 == bs[0];
      assert bs == [bs[0]] + bs[1..];
    }
  }

  lemma {:induction false} SpelledSize(bs: seq<byte>)
    ensures Spelled(bs) < Pow256(|bs|) && SpelledBack(bs) < Pow256(|bs|)
  {
    if bs != [] {
      SpelledSize(bs[..|bs| - 1]);
      SpelledSize(bs[1..]);
    }
  }

  /** A 32-bit number, two's complement. */
  function Word(i: int): seq<byte> {
    High((i + 4294967296) % 4294967296, 4)
  }

  /** The bytes of a tree. */
  function Format(t: Tree, named: bool): seq<byte>
    decreases t, 1
  {
    (if named then [t.tag.typ] + (High(|t.tag.name|, 2) + t.tag.name) else [])
    + match t.tag.data
      case Num(bits) =>
        if t.tag.typ == 1 then High(bits, 1)
        else if t.tag.typ == 2 then High(bits, 2)
        else if t.tag.typ == 3 then High(bits, 4)
        else if t.tag.typ == 4 then High(bits, 8)
        else if t.tag.typ == 5 then Low(bits, 4)
        else Low(bits, 8)
      case Text(chars) => High(|chars|, 2) + chars
      case ListHead(elem, size) => [elem] + Word(size) + Formats(t.kids, false)
      case ArrayHead(size, _) => Word(size) + Formats(t.kids, false)
      case CompoundHead(_) => Formats(t.kids, true) + [0]
  }

  function Formats(ts: seq<Tree>, named: bool): seq<byte>
    decreases ts, 0
  {
    if ts == [] then [] else Format(ts[0], named) + Formats(ts[1..], named)
  }

  predicate Counts(size: int, n: nat) {
    -2147483648 <= size < 2147483648 && size != -1 && n == if size > 0 then size else 0
  }

  /** The trees of the format; an empty list does not stand in a list. */
  predicate WellFormed(t: Tree, named: bool) {
    && (if named then |t.tag.name| < 65536 else t.tag.name == [])
    && match t.tag.data
       case Num(bits) =>
         t.kids == []
         && ((t.tag.typ == 1 && bits < 256) || (t.tag.typ == 2 && bits < 65536)
             || ((t.tag.typ == 3 || t.tag.typ == 5) && bits < 4294967296)
             || ((t.tag.typ == 4 || t.tag.typ == 6) && bits < 18446744073709551616))
       case Text(chars) => t.tag.typ == 8 && |chars| < 65536 && t.kids == []
       case ListHead(elem, size) =>
         t.tag.typ == 9 && Counts(size, |t.kids|)
         && forall i :: 0 <= i < |t.kids| ==>
              WellFormed(t.kids[i], false) && t.kids[i].tag.typ == elem && (elem == 9 ==> t.kids[i].kids != [])
       case ArrayHead(size, other) =>
         other == 0 && Counts(size, |t.kids|) && (t.tag.typ == 7 || t.tag.typ == 11 || t.tag.typ == 12)
         && forall i :: 0 <= i < |t.kids| ==>
              WellFormed(t.kids[i], false)
              && t.kids[i].tag.typ == if t.tag.typ == 7 then 1 else if t.tag.typ == 11 then 3 else 4
       case CompoundHead(count) =>
         t.tag.typ == 10 && count == |t.kids| && forall i :: 0 <= i < |t.kids| ==> WellFormed(t.kids[i], true)
  }

  /** They are the trees that the parser builds. */
  lemma {:induction false} WellFormedIsParsed(t: Tree, named: bool)
    ensures WellFormed(t, named) <==> Parsed(t, named)
    decreases t
  {
    Widths();
    forall i, n: bool | 0 <= i < |t.kids| ensures WellFormed(t.kids[i], n) <==> Parsed(t.kids[i], n) {
      WellFormedIsParsed(t.kids[i], n);
    }
  }

  /** Their bytes are those of the format. */
  lemma {:induction false} FormatIsWire(t: Tree, named: bool)
    requires WellFormed(t, named)
    ensures Format(t, named) == Wire(t, named)
    decreases t, 1
  {
    hide Formats, Wires, High, Low, BigEndian, Memory;
    HighIs(|t.tag.name|, 2);
    match t.tag.data
    case Num(_) => NumberIsWire(t, named);
    case Text(chars) =>
      HighIs(|chars|, 2);
      NoFormats();
    case ListHead(elem, size) =>
      HighIs((size + 4294967296) % 4294967296, 4);
      FormatsAreWires(t.kids, false);
    case ArrayHead(size, _) =>
      HighIs((size + 4294967296) % 4294967296, 4);
      FormatsAreWires(t.kids, false);
    case CompoundHead(_) =>
      FormatsAreWires(t.kids, true);
  }

  lemma {:induction false} NumberIsWire(t: Tree, named: bool)
    requires WellFormed(t, named) && t.tag.data.Num?
    ensures Format(t, named) == Wire(t, named)
  {
    hide Formats, Wires, High, Low, BigEndian, Memory;
    var bits := t.tag.data.bits;
    HighIs(|t.tag.name|, 2);
    NoFormats();
    var k := if t.tag.typ == 1 then 1 else if t.tag.typ == 2 then 2
             else if t.tag.typ == 3 || t.tag.typ == 5 then 4 else 8;
    HighIs(bits, k);
    assert WireData(t.tag) == if t.tag.typ <= 4 then BigEndian(bits, k) else Memory(bits, k);
  }

  lemma {:induction false} NoFormats()
    ensures Formats([], true) == Formats([], false) == Wires([], true) == Wires([], false) == []
  {
  }

  lemma {:induction false} FormatsAreWires(ts: seq<Tree>, named: bool)
    requires forall i :: 0 <= i < |ts| ==> WellFormed(ts[i], named)
    ensures Formats(ts, named) == Wires(ts, named)
    decreases ts, 0
  {
    hide Format, Wire, WellFormed;
    if ts != [] {
      FormatIsWire(ts[0], named);
      FormatsAreWires(ts[1..], named);
    }
  }

  /** The bytes of a tree are parsed to its preorder array, whatever follows, up to 512 containers deep. */
  lemma {:induction false} ReadsFormat(t: Tree, rest: seq<byte>)
    requires WellFormed(t, true) && OpenDepth(t) <= 512
    ensures NbtParse.Parse(Format(t, true) + rest) == NbtParse.Done(Flat(t), rest)
  {
    hide Format, WellFormed, Parsed, Wire, NbtParse.Parse;
    WellFormedIsParsed(t, true);
    FormatIsWire(t, true);
    ParsesWire(t, rest);
  }

  /** A number: type, name and payload, 1, 2, 4, 8, 4 or 8 bytes, give the number the payload spells, the highest
      byte first in an integer, in host order in a float; what follows is left. */
  lemma {:induction false} ReadsNumber(typ: byte, name: seq<byte>, payload: seq<byte>, rest: seq<byte>)
    requires |name| < 65536
    requires (typ == 1 && |payload| == 1) || (typ == 2 && |payload| == 2) || (typ == 3 && |payload| == 4)
             || (typ == 4 && |payload| == 8) || (typ == 5 && |payload| == 4) || (typ == 6 && |payload| == 8)
    ensures NbtParse.Parse([typ] + ([|name| / 256, |name| % 256] + name) + payload + rest)
            == NbtParse.Done([Tag(typ, name, Num(if typ <= 4 then Spelled(payload) else SpelledBack(payload)))], rest)
  {
    var bits := if typ <= 4 then Spelled(payload) else SpelledBack(payload);
    var t := Node(Tag(typ, name, Num(bits)), []);
    Widths();
    SpelledSize(payload);
    HighSpelled(payload);
    LowSpelled(payload);
    TwoBytes(|name|);
    hide NbtParse.Parse, Spelled, SpelledBack, High, Low, Pow256;
    ReadsFormat(t, rest);
  }

  lemma {:induction false} TwoBytes(n: nat)
    requires n < 65536
    ensures High(n, 2) == [n / 256, n % 256]
  {
    assert High(n / 256, 1) == [n / 256] by {
      assert High(n / 256 / 256, 0) == [];
    }
  }

  /** It is written in as many bytes, the highest first also in a float. */
  lemma {:induction false} WritesNumber(typ: byte, name: seq<byte>, payload: seq<byte>)
    requires |name| < 65536
    requires (typ == 1 && |payload| == 1) || (typ == 2 && |payload| == 2) || (typ == 3 && |payload| == 4)
             || (typ == 4 && |payload| == 8) || (typ == 5 && |payload| == 4) || (typ == 6 && |payload| == 8)
    ensures Walk(WRITER, [Tag(typ, name, Num(Spelled(payload)))], [])
            == [typ] + ([|name| / 256, |name| % 256] + name) + payload
  {
    var tag := Tag(typ, name, Num(Spelled(payload)));
    HighIs(Spelled(payload), |payload|);
    HighIs(|name|, 2);
    HighSpelled(payload);
    TwoBytes(|name|);
    hide Spelled, High, BigEndian, Walk;
    WalkStep(WRITER, [tag], []);
    WalkStep(WRITER, [], []);
  }

  /** A string of at most 65535 bytes is written whole, a longer one is cut there. */
  lemma {:induction false} WritesString(name: seq<byte>, chars: seq<byte>)
    requires |name| < 65536
    ensures var kept := if |chars| <= 65535 then chars else chars[..65535];
            Walk(WRITER, [Tag(8, name, Text(chars))], [])
            == [8] + ([|name| / 256, |name| % 256] + name) + ([|kept| / 256, |kept| % 256] + kept)
  {
    var tag, kept := Tag(8, name, Text(chars)), if |chars| <= 65535 then chars else chars[..65535];
    HighIs(|kept|, 2);
    HighIs(|name|, 2);
    TwoBytes(|name|);
    TwoBytes(|kept|);
    hide High, BigEndian, Walk;
    WalkStep(WRITER, [tag], []);
    WalkStep(WRITER, [], []);
  }

  /** What is written for a tree is the format of the tree that will come back. */
  lemma {:induction false} WritesFormat(t: Tree)
    requires Writable(t) && Height(t) <= 512
    ensures Walk(WRITER, Flat(t), []) == Format(Reread(t, true), true) && WellFormed(Reread(t, true), true)
  {
    hide Walk, Format, Reread, Parsed, WellFormed, Wire;
    WritableCounted(t);
    WalkRenders(WRITER, t);
    RenderIsWire(t, None, 0);
    RereadParsed(t, true);
    WellFormedIsParsed(Reread(t, true), true);
    FormatIsWire(Reread(t, true), true);
  }

  /** `n` compounds, each in the one before, without names. */
  function Nest(n: nat): Tree
    requires n > 0
  {
    Node(Tag(10, [], CompoundHead(if n == 1 then 0 else 1)), if n == 1 then [] else [Nest(n - 1)])
  }

  lemma {:induction false} NestParsed(n: nat)
    requires n > 0
    ensures Parsed(Nest(n), true) && OpenDepth(Nest(n)) == n
    decreases n
  {
    if n > 1 {
      NestParsed(n - 1);
      assert [Nest(n - 1)][1..] == [];
    }
  }

  lemma {:induction false} NestWire(n: nat)
    requires n > 0
    ensures Wire(Nest(n), true) == [10, 0, 0] + ((if n == 1 then [] else Wire(Nest(n - 1), true)) + [0])
  {
    var t := Nest(n);
    assert BigEndian(0, 2) == [0, 0] by {
      assert Memory(0, 1) == [0] && Memory(0, 2) == [0, 0];
    }
    if n > 1 {
      assert Wires([Nest(n - 1)], true) == Wire(Nest(n - 1), true) + Wires([], true);
    }
    hide Wire;
    assert WireHead(t.tag, true) == [10, 0, 0];
  }

  /** The compounds nested deeper than 512 end the parse, and those up to 512 do not. */
  lemma {:induction false} DepthExactly(n: nat, rest: seq<byte>)
    requires n > 0
    ensures NbtParse.Parse(Wire(Nest(n), true) + rest)
            == if n <= 512 then NbtParse.Done(Flat(Nest(n)), rest) else NbtParse.Crashed
  {
    hide Wire, NbtParse.Go, Parsed, Flat;
    NestParsed(n);
    if n <= 512 {
      ParsesWire(Nest(n), rest);
    } else {
      var s := NbtParse.State([], [], Wire(Nest(n), true) + rest);
      assert NbtParse.Sane(s);
      TooDeep(s, n, rest);
    }
  }

  lemma {:induction false} TooDeep(s: NbtParse.State, n: nat, rest: seq<byte>)
    requires NbtParse.Sane(s) && NbtParse.Named(s.stack) && n > 0 && |s.stack| <= 512 < |s.stack| + n
    requires s.input == Wire(Nest(n), true) + rest && Awaits(s, Nest(n))
    ensures NbtParse.Go(s, false) == NbtParse.Crashed
    decreases n
  {
    hide Wire, Parsed, NbtParse.Sane, NbtParse.Round, NbtParse.Prune, WireHead, WireData, HeadParsed;
    var t := Nest(n);
    var more := (if n == 1 then [] else Wire(Nest(n - 1), true)) + [0] + rest;
    NestParsed(n);
    NestWire(n);
    NestHead(n, more, rest);
    if |s.stack| == 512 {
      FullStack(s, t, more);
    } else {
      ReadsRound(s, t, more, false);
      var s1 := HeadRound(s, t, more);
      Deeper(s, t, more);
      Assoc(Wire(Nest(n - 1), true), [0], rest);
      TooDeep(s1, n - 1, [0] + rest);
    }
  }

  lemma {:induction false} NestHead(n: nat, more: seq<byte>, rest: seq<byte>)
    requires n > 0 && more == (if n == 1 then [] else Wire(Nest(n - 1), true)) + [0] + rest
    ensures Wire(Nest(n), true) + rest == WireHead(Nest(n).tag, true) + (WireData(Nest(n).tag) + more)
    ensures HeadParsed(Nest(n), true)
  {
    hide Wire;
    NestWire(n);
    assert BigEndian(0, 2) == [0, 0] by {
      assert Memory(0, 1) == [0] && Memory(0, 2) == [0, 0];
    }
  }

  lemma {:induction false} FullStack(s: NbtParse.State, t: Tree, more: seq<byte>)
    requires NbtParse.Sane(s) && NbtParse.Named(s.stack) && |s.stack| == 512 && Awaits(s, t) && HeadParsed(t, true)
    requires t.tag.typ == 10 && s.input == WireHead(t.tag, true) + (WireData(t.tag) + more)
    ensures NbtParse.Go(s, false) == NbtParse.Crashed
  {
    hide NbtParse.ReadType, NbtParse.ParseTag, WireHead, WireData, HeadParsed, NbtParse.Sane, Awaits;
    ReadsHead(s, t, WireData(t.tag) + more);
  }

  lemma {:induction false} Deeper(s: NbtParse.State, t: Tree, more: seq<byte>)
    requires NbtParse.Named(s.stack) && t.tag.typ == 10 && t.kids != []
    ensures var s1 := HeadRound(s, t, more);
            && |s1.stack| == |s.stack| + 1 && NbtParse.Named(s1.stack) && s1.input == more
            && forall u: Tree :: NbtParse.Sane(s1) ==> Awaits(s1, u)
  {
    var s1 := HeadRound(s, t, more);
    assert s1.tags[|s.tags|].typ == 10;
  }
}
