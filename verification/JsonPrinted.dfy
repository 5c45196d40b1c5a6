/** The tokens of printed text, and what the parser makes of them. The commas of an object follow its size
    counter, so they may be too many or too few. */
module JsonPrinted {
  import opened Bytes
  import opened Wrappers
  import opened JsonTree
  import opened JsonParse

  function PrintedToks(v: Node): (ts: seq<Token>)
    ensures ts != []
    decreases v, 1
  {
    match v
    case Arr(elems) => [LBracket] + PrintedElems(elems) + [RBracket]
    case Obj(members, size) => [LBrace] + PrintedMembers(members, 0, size) + [RBrace]
    case _ => Toks(v)
  }

  function PrintedElems(vs: seq<Node>): seq<Token>
    decreases vs, 0
  {
    if vs == [] then []
    else PrintedToks(vs[0]) + if |vs| == 1 then [] else [Comma] + PrintedElems(vs[1..])
  }

  function PrintedMembers(ms: seq<Member>, idx: nat, size: nat): seq<Token>
    decreases ms, 0
  {
    if ms == [] then []
    else
      [StrTok(ms[0].key), Colon] + PrintedToks(ms[0].value)
      + ((if idx < size - 1 then [Comma] else []) + PrintedMembers(ms[1..], idx + 1, size))
  }

  /** The counter of an object with `n` bindings puts commas between them only. */
  predicate Between(n: nat, size: int) {
    n == 0 || size == n || (n == 1 && size < 1)
  }

  predicate CommasRight(v: Node) {
    match v
    case Arr(elems) => forall i :: 0 <= i < |elems| ==> CommasRight(elems[i])
    case Obj(members, size) =>
      Between(|members|, size) && forall i :: 0 <= i < |members| ==> CommasRight(members[i].value)
    case _ => true
  }

  predicate ElemCommas(vs: seq<Node>) {
    forall i :: 0 <= i < |vs| ==> CommasRight(vs[i])
  }

  predicate MemberCommas(ms: seq<Member>) {
    forall i :: 0 <= i < |ms| ==> CommasRight(ms[i].value)
  }

  /** The value as it is spelled: the counters count the members. */
  function Spelled(v: Node): Node
    decreases v, 1
  {
    match v
    case Arr(elems) => Arr(SpelledElems(elems))
    case Obj(members, _) => Obj(SpelledMembers(members), |members|)
    case _ => v
  }

  function SpelledElems(vs: seq<Node>): (r: seq<Node>)
    ensures |r| == |vs| && forall i :: 0 <= i < |vs| ==> r[i] == Spelled(vs[i])
    decreases vs, 0
  {
    if vs == [] then [] else [Spelled(vs[0])] + SpelledElems(vs[1..])
  }

  function SpelledMembers(ms: seq<Member>): (r: seq<Member>)
    ensures |r| == |ms| && forall i :: 0 <= i < |ms| ==> r[i] == Member(ms[i].key, Spelled(ms[i].value))
    decreases ms, 0
  {
    if ms == [] then [] else [Member(ms[0].key, Spelled(ms[0].value))] + SpelledMembers(ms[1..])
  }

  /** The parser reads a printed value back as it is spelled if its commas are right and it is within the
      nesting bound, and refuses it otherwise. */
  lemma {:induction false} PrintedExact(v: Node, rest: seq<Token>, level: nat)
    ensures Analyze(PrintedToks(v) + rest, level)
            == if CommasRight(v) && level + Height(v) <= MAX_NESTING then Some((Spelled(v), rest)) else None
    decreases v, 1
  {
    hide Elements, Members, PrintedElems, PrintedMembers, ElemsHeight, MembersHeight, CommasRight, ElemCommas,
         MemberCommas, SpelledElems, SpelledMembers;
    NoTokens();
    NothingPrinted();
    CommasStep(v);
    var ts := PrintedToks(v) + rest;
    if level >= MAX_NESTING {
    } else {
      match v
      case Arr(elems) =>
        assert ts[1..] == PrintedElems(elems) + ([RBracket] + rest);
        if elems == [] {
          assert ts[2..] == rest;
        } else {
          FirstPrinted(elems);
          PrintedElemsExact(elems, rest, level, []);
          assert [] + SpelledElems(elems) == SpelledElems(elems);
        }
      case Obj(members, size) =>
        assert ts[1..] == PrintedMembers(members, 0, size) + ([RBrace] + rest);
        if members == [] {
          assert ts[2..] == rest;
        } else {
          FirstKey(members, 0, size);
          PrintedMembersExact(members, 0, size, rest, level, []);
          assert [] + SpelledMembers(members) == SpelledMembers(members);
        }
      case _ =>
        assert ts[1..] == rest;
    }
  }

  lemma {:induction false} CommasStep(v: Node)
    ensures match v
            case Arr(elems) => CommasRight(v) <==> ElemCommas(elems)
            case Obj(members, size) => CommasRight(v) <==> Between(|members|, size) && MemberCommas(members)
            case _ => CommasRight(v)
  {
  }

  lemma {:induction false} NothingPrinted()
    ensures PrintedElems([]) == [] && forall idx, size :: PrintedMembers([], idx, size) == []
    ensures SpelledElems([]) == [] && SpelledMembers([]) == [] && ElemCommas([]) && MemberCommas([])
  {
  }

  lemma {:induction false} FirstPrinted(vs: seq<Node>)
    requires vs != []
    ensures PrintedElems(vs) != [] && PrintedElems(vs)[0] != RBracket
  {
  }

  lemma {:induction false} FirstKey(ms: seq<Member>, idx: nat, size: nat)
    requires ms != []
    ensures PrintedMembers(ms, idx, size) != [] && PrintedMembers(ms, idx, size)[0] == StrTok(ms[0].key)
  {
  }

  lemma {:induction false} PrintedElemStep(v: Node, vs: seq<Node>)
    ensures PrintedElems([v] + vs) == if vs == [] then PrintedToks(v) else PrintedToks(v) + ([Comma] + PrintedElems(vs))
    ensures SpelledElems([v] + vs) == [Spelled(v)] + SpelledElems(vs)
    ensures ElemCommas([v] + vs) <==> CommasRight(v) && ElemCommas(vs)
    ensures ElemCommas([])
  {
    hide CommasRight, PrintedToks;
    assert ([v] + vs)[1..] == vs;
    if ElemCommas([v] + vs) {
      assert CommasRight(([v] + vs)[0]);
      forall i | 0 <= i < |vs| ensures CommasRight(vs[i]) {
        assert vs[i] == ([v] + vs)[i + 1];
      }
    }
  }

  lemma {:induction false} PrintedElemsExact(vs: seq<Node>, rest: seq<Token>, level: nat, acc: seq<Node>)
    requires vs != []
    ensures Elements(PrintedElems(vs) + ([RBracket] + rest), level, acc)
            == if ElemCommas(vs) && level + 1 + ElemsHeight(vs) <= MAX_NESTING
               then Some((Arr(acc + SpelledElems(vs)), rest)) else None
    decreases vs, 0
  {
    hide PrintedToks, Height, Analyze, CommasRight, ElemCommas, PrintedElems, ElemsHeight, Spelled, SpelledElems;
    NoTokens();
    NothingPrinted();
    var v, more := vs[0], vs[1..];
    assert vs == [v] + more;
    PrintedElemStep(v, more);
    ElemStep(v, more);
    if more == [] {
      PrintedExact(v, [RBracket] + rest, level + 1);
      assert [Spelled(v)] + [] == [Spelled(v)];
    } else {
      var tail := PrintedElems(more) + ([RBracket] + rest);
      Assoc(PrintedToks(v), [Comma] + PrintedElems(more), [RBracket] + rest);
      Assoc([Comma], PrintedElems(more), [RBracket] + rest);
      PrintedExact(v, [Comma] + tail, level + 1);
      assert ([Comma] + tail)[1..] == tail;
      PrintedElemsExact(more, rest, level, acc + [Spelled(v)]);
      Assoc(acc, [Spelled(v)], SpelledElems(more));
    }
  }

  lemma {:induction false} PrintedMemberStep(m: Member, ms: seq<Member>, idx: nat, size: nat)
    ensures PrintedMembers([m] + ms, idx, size)
            == [StrTok(m.key), Colon]
               + (PrintedToks(m.value) + ((if idx < size - 1 then [Comma] else []) + PrintedMembers(ms, idx + 1, size)))
    ensures SpelledMembers([m] + ms) == [Member(m.key, Spelled(m.value))] + SpelledMembers(ms)
    ensures MemberCommas([m] + ms) <==> CommasRight(m.value) && MemberCommas(ms)
    ensures MemberCommas([])
  {
    hide CommasRight, PrintedToks;
    assert ([m] + ms)[1..] == ms;
    if MemberCommas([m] + ms) {
      assert CommasRight(([m] + ms)[0].value);
      forall i | 0 <= i < |ms| ensures CommasRight(ms[i].value) {
        assert ms[i] == ([m] + ms)[i + 1];
      }
    }
  }

  lemma {:induction false} PrintedMembersExact(ms: seq<Member>, idx: nat, size: nat, rest: seq<Token>, level: nat, acc: seq<Member>)
    requires ms != [] && |acc| == idx
    ensures Members(PrintedMembers(ms, idx, size) + ([RBrace] + rest), level, acc)
            == if Between(|ms|, size - idx) && MemberCommas(ms) && level + 1 + MembersHeight(ms) <= MAX_NESTING
               then Some((Obj(acc + SpelledMembers(ms), idx + |ms|), rest)) else None
    decreases ms, 0
  {
    hide PrintedToks, Height, Analyze, Members, Spells, CommasRight, MemberCommas, PrintedMembers, MembersHeight, Spelled,
         SpelledMembers;
    NoTokens();
    NothingPrinted();
    var m, more := ms[0], ms[1..];
    var end, put := [RBrace] + rest, Member(m.key, Spelled(m.value));
    var comma, tail := if idx < size - 1 then [Comma] else [], PrintedMembers(more, idx + 1, size) + end;
    var ts := PrintedMembers(ms, idx, size) + end;
    assert ms == [m] + more;
    PrintedMemberStep(m, more, idx, size);
    MemberStep(m, more);
    SpellsPrinted(ms, idx, size, end, level);
    MembersStep(ts, level, acc);
    if idx < size - 1 {
      assert (comma + tail)[0] == Comma && (comma + tail)[1..] == tail;
      if more == [] {
        assert tail == end;
        MembersStep(end, level, acc + [put]);
        NoKey(end, level);
      } else {
        PrintedMembersExact(more, idx + 1, size, rest, level, acc + [put]);
        Assoc(acc, [put], SpelledMembers(more));
      }
    } else {
      assert comma + tail == tail;
      if more == [] {
        assert tail == end && end[1..] == rest && [put] + [] == [put];
      } else {
        FirstKey(more, idx + 1, size);
      }
    }
  }

  lemma {:induction false} NoKey(ts: seq<Token>, level: nat)
    requires ts != [] && !ts[0].StrTok?
    ensures Spells(ts, level) == None
  {
  }

  /** One member read back from its printed tokens. */
  lemma {:induction false} SpellsPrinted(ms: seq<Member>, idx: nat, size: nat, end: seq<Token>, level: nat)
    requires ms != []
    ensures var after := (if idx < size - 1 then [Comma] else []) + (PrintedMembers(ms[1..], idx + 1, size) + end);
            Spells(PrintedMembers(ms, idx, size) + end, level)
            == if CommasRight(ms[0].value) && level + 1 + Height(ms[0].value) <= MAX_NESTING
               then Some((Member(ms[0].key, Spelled(ms[0].value)), after)) else None
    decreases ms[0], 2
  {
    hide PrintedToks, Height, Analyze, CommasRight, PrintedMembers, Spelled;
    var m, more := ms[0], ms[1..];
    var head, printed := [StrTok(m.key), Colon], PrintedMembers(more, idx + 1, size);
    var comma := if idx < size - 1 then [Comma] else [];
    assert ms == [m] + more;
    PrintedMemberStep(m, more, idx, size);
    Assoc(head, PrintedToks(m.value) + (comma + printed), end);
    Assoc(PrintedToks(m.value), comma + printed, end);
    Assoc(comma, printed, end);
    assert (head + (PrintedToks(m.value) + (comma + (printed + end))))[2..] == PrintedToks(m.value) + (comma + (printed + end));
    PrintedExact(m.value, comma + (printed + end), level + 1);
  }
}
