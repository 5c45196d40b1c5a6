/** The recursive-descent parser on tokens: sound and complete for the JSON grammar up to the nesting
    bound, and never past the end of the token list. */
module JsonParse {
  import opened Bytes
  import opened Wrappers
  import opened JsonTree

  /** json_analyze: the value spelled at the head of the tokens and what follows it. */
  function Analyze(ts: seq<Token>, level: nat): (r: Option<(Node, seq<Token>)>)
    ensures r.Some? ==> |r.value.1| < |ts|
    decreases |ts|, 2
  {
    if level >= MAX_NESTING || ts == [] then None
    else match ts[0]
      case LBrace =>
        if |ts| > 1 && ts[1] == RBrace then Some((Obj([], 0), ts[2..])) else Members(ts[1..], level, [])
      case LBracket =>
        if |ts| > 1 && ts[1] == RBracket then Some((Arr([]), ts[2..])) else Elements(ts[1..], level, [])
      case IntTok(n) => Some((Int(n), ts[1..]))
      case FloatTok(l) => Some((Float(l), ts[1..]))
      case BoolTok(b) => Some((Bool(b), ts[1..]))
      case StrTok(s) => Some((Str(s), ts[1..]))
      case NullTok => Some((Null, ts[1..]))
      case _ => None
  }

  /** The loop of json_analyze_array, with the elements added so far. */
  function Elements(ts: seq<Token>, level: nat, acc: seq<Node>): (r: Option<(Node, seq<Token>)>)
    ensures r.Some? ==> |r.value.1| < |ts|
    decreases |ts|, 3
  {
    match Analyze(ts, level + 1)
    case None => None
    case Some((v, rest)) =>
      if rest == [] then None
      else if rest[0] == Comma then Elements(rest[1..], level, acc + [v])
      else if rest[0] == RBracket then Some((Arr(acc + [v]), rest[1..]))
      else None
  }

  /** The loop of json_analyze_obj, with the puts made so far. */
  function Members(ts: seq<Token>, level: nat, acc: seq<Member>): (r: Option<(Node, seq<Token>)>)
    ensures r.Some? ==> |r.value.1| < |ts|
    decreases |ts|, 3
  {
    if |ts| < 2 || !ts[0].StrTok? || ts[1] != Colon then None
    else match Analyze(ts[2..], level + 1)
      case None => None
      case Some((v, rest)) =>
        var puts := acc + [Member(ts[0].s, v)];
        if rest == [] then None
        else if rest[0] == Comma then Members(rest[1..], level, puts)
        else if rest[0] == RBrace then Some((Obj(puts, |puts|), rest[1..]))
        else None
  }

  /** The member spelled at the head of the tokens. */
  function Spells(ts: seq<Token>, level: nat): Option<(Member, seq<Token>)> {
    if |ts| < 2 || !ts[0].StrTok? || ts[1] != Colon then None
    else match Analyze(ts[2..], level + 1)
      case None => None
      case Some((v, rest)) => Some((Member(ts[0].s, v), rest))
  }

  /** One round of the loop that reads members. */
  lemma {:induction false} MembersStep(ts: seq<Token>, level: nat, acc: seq<Member>)
    ensures match Spells(ts, level)
            case None => Members(ts, level, acc) == None
            case Some((m, rest)) =>
              if rest == [] then Members(ts, level, acc) == None
              else if rest[0] == Comma then Members(ts, level, acc) == Members(rest[1..], level, acc + [m])
              else if rest[0] == RBrace then Members(ts, level, acc) == Some((Obj(acc + [m], |acc + [m]|), rest[1..]))
              else Members(ts, level, acc) == None
  {
    hide Analyze;
  }

  lemma {:induction false} NoTokens()
    ensures ElemToks([]) == [] && MemberToks([]) == [] && ElemsHeight([]) == 0 && MembersHeight([]) == 0
  {
  }

  lemma {:induction false} ElemStep(v: Node, vs: seq<Node>)
    ensures ElemToks([v] + vs) == if vs == [] then Toks(v) else Toks(v) + ([Comma] + ElemToks(vs))
    ensures ElemsHeight([v] + vs) == if Height(v) > ElemsHeight(vs) then Height(v) else ElemsHeight(vs)
  {
    assert ([v] + vs)[1..] == vs;
  }

  lemma {:induction false} MemberStep(m: Member, ms: seq<Member>)
    ensures MemberToks([m] + ms)
              == [StrTok(m.key), Colon] + (Toks(m.value) + if ms == [] then [] else [Comma] + MemberToks(ms))
    ensures MembersHeight([m] + ms) == if Height(m.value) > MembersHeight(ms) then Height(m.value) else MembersHeight(ms)
  {
    assert ([m] + ms)[1..] == ms;
  }

  /** Soundness: what is returned is the value whose tokens were consumed, within the bound. */
  lemma {:induction false} AnalyzeSound(ts: seq<Token>, level: nat)
    requires Analyze(ts, level).Some?
    ensures var (v, rest) := Analyze(ts, level).value;
            ts == Toks(v) + rest && level + Height(v) <= MAX_NESTING && NoOverwrites(v)
    decreases |ts|, 2
  {
    hide Elements, Members, ElemToks, MemberToks, ElemsHeight, MembersHeight;
    NoTokens();
    assert ts == [ts[0]] + ts[1..];
    match ts[0]
    case LBrace =>
      if ts[1] == RBrace {
        assert ts == [LBrace, RBrace] + ts[2..];
      } else {
        var ms := MembersSound(ts[1..], level, []);
        assert [] + ms == ms && ts == [LBrace] + ts[1..];
      }
    case LBracket =>
      if ts[1] == RBracket {
        assert ts == [LBracket, RBracket] + ts[2..];
      } else {
        var vs := ElementsSound(ts[1..], level, []);
        assert [] + vs == vs && ts == [LBracket] + ts[1..];
      }
    case _ =>
  }

  lemma {:induction false} ElementsSound(ts: seq<Token>, level: nat, acc: seq<Node>) returns (vs: seq<Node>)
    requires Elements(ts, level, acc).Some?
    ensures vs != [] && Elements(ts, level, acc).value.0 == Arr(acc + vs)
    ensures ts == ElemToks(vs) + ([RBracket] + Elements(ts, level, acc).value.1)
    ensures level + 1 + ElemsHeight(vs) <= MAX_NESTING && forall i :: 0 <= i < |vs| ==> NoOverwrites(vs[i])
    decreases |ts|, 3
  {
    hide Toks, Height, ElemToks, ElemsHeight, NoOverwrites, Analyze;
    NoTokens();
    AnalyzeSound(ts, level + 1);
    var (v, rest) := Analyze(ts, level + 1).value;
    assert rest == [rest[0]] + rest[1..];
    if rest[0] == Comma {
      var more := ElementsSound(rest[1..], level, acc + [v]);
      vs := [v] + more;
      ElemStep(v, more);
      Assoc(acc, [v], more);
      Assoc(Toks(v), [Comma] + ElemToks(more), [RBracket] + Elements(ts, level, acc).value.1);
    } else {
      vs := [v];
      ElemStep(v, []);
      assert [v] + [] == vs;
    }
  }

  lemma {:induction false} MembersSound(ts: seq<Token>, level: nat, acc: seq<Member>) returns (ms: seq<Member>)
    requires Members(ts, level, acc).Some?
    ensures ms != [] && Members(ts, level, acc).value.0 == Obj(acc + ms, |acc + ms|)
    ensures ts == MemberToks(ms) + ([RBrace] + Members(ts, level, acc).value.1)
    ensures level + 1 + MembersHeight(ms) <= MAX_NESTING && forall i :: 0 <= i < |ms| ==> NoOverwrites(ms[i].value)
    decreases |ts|, 3
  {
    hide Toks, Height, MemberToks, MembersHeight, NoOverwrites, Analyze;
    NoTokens();
    AnalyzeSound(ts[2..], level + 1);
    var (v, rest) := Analyze(ts[2..], level + 1).value;
    var m, end := Member(ts[0].s, v), [RBrace] + Members(ts, level, acc).value.1;
    assert ts == [StrTok(m.key), Colon] + ts[2..];
    assert rest == [rest[0]] + rest[1..];
    if rest[0] == Comma {
      var more := MembersSound(rest[1..], level, acc + [m]);
      ms := [m] + more;
      MemberStep(m, more);
      Assoc(acc, [m], more);
      Assoc([StrTok(m.key), Colon], Toks(v) + ([Comma] + MemberToks(more)), end);
      Assoc(Toks(v), [Comma] + MemberToks(more), end);
      Assoc([Comma], MemberToks(more), end);
    } else {
      ms := [m];
      MemberStep(m, []);
      assert [m] + [] == ms && Toks(v) + [] == Toks(v);
      Assoc([StrTok(m.key), Colon], Toks(v), end);
    }
  }

  /** Completeness: every value within the bound is found at the head of its tokens. */
  lemma {:induction false} AnalyzeComplete(v: Node, rest: seq<Token>, level: nat)
    requires level + Height(v) <= MAX_NESTING && NoOverwrites(v)
    ensures Analyze(Toks(v) + rest, level) == Some((v, rest))
    decreases v, 1
  {
    hide Elements, Members, ElemToks, MemberToks, ElemsHeight, MembersHeight;
    NoTokens();
    var ts := Toks(v) + rest;
    match v
    case Arr(elems) =>
      assert ts[1..] == ElemToks(elems) + ([RBracket] + rest);
      if elems == [] {
        assert ts[2..] == rest;
      } else {
        FirstElemTok(elems);
        ElementsComplete(elems, rest, level, []);
        assert [] + elems == elems;
      }
    case Obj(members, _) =>
      assert ts[1..] == MemberToks(members) + ([RBrace] + rest);
      if members == [] {
        assert ts[2..] == rest;
      } else {
        FirstMemberTok(members);
        MembersComplete(members, rest, level, []);
        assert [] + members == members;
      }
    case _ =>
      assert ts[1..] == rest;
  }

  lemma {:induction false} FirstElemTok(vs: seq<Node>)
    requires vs != []
    ensures ElemToks(vs) != [] && ElemToks(vs)[0] != RBracket
  {
  }

  lemma {:induction false} FirstMemberTok(ms: seq<Member>)
    requires ms != []
    ensures MemberToks(ms) != [] && MemberToks(ms)[0] != RBrace
  {
  }

  lemma {:induction false} ElementsComplete(vs: seq<Node>, rest: seq<Token>, level: nat, acc: seq<Node>)
    requires vs != [] && level + 1 + ElemsHeight(vs) <= MAX_NESTING
    requires forall i :: 0 <= i < |vs| ==> NoOverwrites(vs[i])
    ensures Elements(ElemToks(vs) + ([RBracket] + rest), level, acc) == Some((Arr(acc + vs), rest))
    decreases vs, 0
  {
    hide Toks, Height, Analyze, NoOverwrites, ElemToks, ElemsHeight;
    NoTokens();
    var v, more := vs[0], vs[1..];
    assert vs == [v] + more;
    ElemStep(v, more);
    if more == [] {
      AnalyzeComplete(v, [RBracket] + rest, level + 1);
      assert acc + vs == acc + [v];
    } else {
      var tail := ElemToks(more) + ([RBracket] + rest);
      Assoc(Toks(v), [Comma] + ElemToks(more), [RBracket] + rest);
      Assoc([Comma], ElemToks(more), [RBracket] + rest);
      AnalyzeComplete(v, [Comma] + tail, level + 1);
      assert ([Comma] + tail)[1..] == tail;
      ElementsComplete(more, rest, level, acc + [v]);
      Assoc(acc, [v], more);
    }
  }

  lemma {:induction false} MembersComplete(ms: seq<Member>, rest: seq<Token>, level: nat, acc: seq<Member>)
    requires ms != [] && level + 1 + MembersHeight(ms) <= MAX_NESTING
    requires forall i :: 0 <= i < |ms| ==> NoOverwrites(ms[i].value)
    ensures Members(MemberToks(ms) + ([RBrace] + rest), level, acc) == Some((Obj(acc + ms, |acc + ms|), rest))
    decreases ms, 0
  {
    hide Toks, Height, Analyze, NoOverwrites, MemberToks, MembersHeight;
    NoTokens();
    var m, more := ms[0], ms[1..];
    var head, end := [StrTok(m.key), Colon], [RBrace] + rest;
    assert ms == [m] + more;
    MemberStep(m, more);
    if more == [] {
      assert Toks(m.value) + [] == Toks(m.value);
      Assoc(head, Toks(m.value), end);
      assert (head + (Toks(m.value) + end))[2..] == Toks(m.value) + end;
      AnalyzeComplete(m.value, end, level + 1);
      assert acc + ms == acc + [m] && end[1..] == rest;
    } else {
      var tail := MemberToks(more) + end;
      Assoc(head, Toks(m.value) + ([Comma] + MemberToks(more)), end);
      Assoc(Toks(m.value), [Comma] + MemberToks(more), end);
      Assoc([Comma], MemberToks(more), end);
      assert (head + (Toks(m.value) + ([Comma] + tail)))[2..] == Toks(m.value) + ([Comma] + tail);
      AnalyzeComplete(m.value, [Comma] + tail, level + 1);
      assert ([Comma] + tail)[1..] == tail;
      MembersComplete(more, rest, level, acc + [m]);
      Assoc(acc, [m], more);
    }
  }

  /** The parser succeeds with a value and a rest exactly when the tokens are those of the value,
      nested at most 32 deep, followed by the rest. */
  lemma {:induction false} AnalyzesExactlyValues(ts: seq<Token>, v: Node, rest: seq<Token>)
    ensures Analyze(ts, 0) == Some((v, rest)) <==>
              ts == Toks(v) + rest && Height(v) <= MAX_NESTING && NoOverwrites(v)
  {
    if Analyze(ts, 0).Some? {
      AnalyzeSound(ts, 0);
    }
    if ts == Toks(v) + rest && Height(v) <= MAX_NESTING && NoOverwrites(v) {
      AnalyzeComplete(v, rest, 0);
    }
  }

  lemma {:induction false} NoEofInside(v: Node)
    ensures Eof !in Toks(v)
    decreases v, 1
  {
    match v
    case Arr(elems) => NoEofInElems(elems);
    case Obj(members, _) => NoEofInMembers(members);
    case _ =>
  }

  lemma {:induction false} NoEofInElems(vs: seq<Node>)
    ensures Eof !in ElemToks(vs)
    decreases vs, 0
  {
    if vs != [] {
      NoEofInside(vs[0]);
      NoEofInElems(vs[1..]);
    }
  }

  lemma {:induction false} NoEofInMembers(ms: seq<Member>)
    ensures Eof !in MemberToks(ms)
    decreases ms, 0
  {
    if ms != [] {
      NoEofInside(ms[0].value);
      NoEofInMembers(ms[1..]);
    }
  }

  /** On a list that ends in EOF a value always leaves the EOF unread. */
  lemma {:induction false} LeavesEof(ts: seq<Token>, level: nat)
    requires ts != [] && ts[|ts| - 1] == Eof && Analyze(ts, level).Some?
    ensures Analyze(ts, level).value.1 != []
  {
    AnalyzeSound(ts, level);
    NoEofInside(Analyze(ts, level).value.0);
  }
}
