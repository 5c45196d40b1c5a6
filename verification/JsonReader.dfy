/** json_parse as the program runs it: a lexer that fills a token list and a value list, and a parser
    that walks both with two cursors. */
module JsonReader {
  import opened Bytes
  import opened Wrappers
  import opened JsonTree
  import opened JsonBuild
  import opened JsonParse
  import opened JsonLex
  import opened JsonText
  import opened Visits
  import Dict

  datatype Kind =
    | TokLBrace | TokRBrace | TokLBracket | TokRBracket | TokComma | TokColon | TokNull | TokError | TokEof
    | TokString | TokInt | TokFloat | TokBool

  datatype TokenValue = BoolValue(b: bool) | IntValue(n: int) | FloatValue(literal: string) | StrValue(s: string)

  predicate HasValue(k: Kind) {
    k.TokString? || k.TokInt? || k.TokFloat? || k.TokBool?
  }

  function KindOf(t: Token): Kind {
    match t
    case LBrace => TokLBrace
    case RBrace => TokRBrace
    case LBracket => TokLBracket
    case RBracket => TokRBracket
    case Comma => TokComma
    case Colon => TokColon
    case NullTok => TokNull
    case ErrorTok => TokError
    case Eof => TokEof
    case StrTok(_) => TokString
    case IntTok(_) => TokInt
    case FloatTok(_) => TokFloat
    case BoolTok(_) => TokBool
  }

  function ValuesOf(t: Token): seq<TokenValue> {
    match t
    case StrTok(s) => [StrValue(s)]
    case IntTok(n) => [IntValue(n)]
    case FloatTok(l) => [FloatValue(l)]
    case BoolTok(b) => [BoolValue(b)]
    case _ => []
  }

  /** The two lists the lexer keeps for a sequence of tokens. */
  function Kinds(ts: seq<Token>): (ks: seq<Kind>)
    ensures |ks| == |ts| && forall i :: 0 <= i < |ts| ==> ks[i] == KindOf(ts[i])
  {
    seq(|ts|, i requires 0 <= i < |ts| => KindOf(ts[i]))
  }

  function Values(ts: seq<Token>): seq<TokenValue> {
    if ts == [] then [] else ValuesOf(ts[0]) + Values(ts[1..])
  }

  lemma {:induction false} ValuesAppend(a: seq<Token>, b: seq<Token>)
    ensures Values(a + b) == Values(a) + Values(b)
  {
    if a == [] {
      assert a + b == b;
    } else {
      assert (a + b)[1..] == a[1..] + b;
      ValuesAppend(a[1..], b);
    }
  }

  /** Everything about one token, as the two lists hold it. */
  function TokenOf(k: Kind, v: Option<TokenValue>): Token {
    match (k, v)
    case (TokString, Some(StrValue(s))) => StrTok(s)
    case (TokInt, Some(IntValue(n))) => IntTok(n)
    case (TokFloat, Some(FloatValue(l))) => FloatTok(l)
    case (TokBool, Some(BoolValue(b))) => BoolTok(b)
    case (TokLBrace, _) => LBrace
    case (TokRBrace, _) => RBrace
    case (TokLBracket, _) => LBracket
    case (TokRBracket, _) => RBracket
    case (TokComma, _) => Comma
    case (TokColon, _) => Colon
    case (TokNull, _) => NullTok
    case (TokEof, _) => Eof
    case _ => ErrorTok
  }

  datatype LexEnd = Finished | Failed | GoesRound

  class Lexer {
    var input: string
    var tokList: seq<Kind>
    var tokValues: seq<TokenValue>

    constructor (text: string)
      ensures input == text && tokList == [] && tokValues == []
    {
      input, tokList, tokValues := text, [], [];
    }

    /** bytebuf_read of at most `n` characters. */
    method Read(n: nat) returns (cs: string)
      modifies this`input
      ensures cs == if n <= |old(input)| then old(input)[..n] else old(input)
      ensures input == old(input)[|cs|..]
    {
      var k := if n <= |input| then n else |input|;
      cs := input[..k];
      input := input[k..];
    }

    method ReadString() returns (r: Option<string>)
      requires input != []
      modifies this`input
      ensures match LexString(old(input)[1..])
              case None => r == None
              case Some((value, rest)) => r == Some(value) && input == rest
    {
      hide LexString;
      var builder := "";
      var quote := Read(1);
      ghost var all := LexString(input);
      JoinedNone(all);
      while true
        invariant Joined(builder, LexString(input)) == all
        decreases |input|
      {
        LexStringStep(input);
        ghost var was := builder;
        var c := Read(1);
        if c == [] {
          return None;
        }
        if c[0] == '"' {
          assert builder + [] == builder;
          return Some(builder);
        }
        builder := builder + c;
        assert c == [c[0]];
        if c[0] == '\\' {
          var skipped := Read(1);
          builder := builder + c;
          assert builder == was + ['\\', '\\'];
          JoinedTwice(was, ['\\', '\\'], LexString(input));
        } else {
          JoinedTwice(was, c, LexString(input));
        }
      }
    }

    method ReadNumber() returns (t: Token)
      modifies this`input
      ensures (t, input) == LexNumber(old(input))
    {
      hide NumberRun, Strtol, LexNumber, IsNumberChar;
      var builder := "";
      ghost var start := input;
      while input != [] && IsNumberChar(input[0])
        invariant builder + input == start && NumberRun(start) == builder + NumberRun(input)
        decreases |input|
      {
        NumberRunStep(input);
        ghost var before, was := input, builder;
        var c := Read(1);
        assert c == [before[0]] && before == c + input;
        builder := builder + c;
        Assoc(was, c, input);
        Assoc(was, c, NumberRun(input));
      }
      NumberRunStep(input);
      NumberIs(start, builder, input);
      if builder != [] && input == [] && builder[|builder| - 1] == '.' {
        t := FloatTok(builder);
      } else {
        t := IntTok(Strtol(builder));
      }
    }

    method ReadToken() returns (t: Token)
      modifies this`input
      ensures t == LexToken(old(input)).0
      ensures t != Eof && t != ErrorTok ==> input == LexToken(old(input)).1
    {
      while input != [] && IsSpace(input[0])
        invariant SkipSpaces(input) == SkipSpaces(old(input))
        decreases |input|
      {
        var c := Read(1);
      }
      if input == [] || input[0] == '\0' {
        return Eof;
      }
      var c := input[0];
      if c == '"' {
        var value := ReadString();
        return if value.Some? then StrTok(value.value) else ErrorTok;
      } else if c == 't' || c == 'f' || c == 'n' {
        t := ReadWord();
      } else if IsDigit(c) || c == '-' {
        t := ReadNumber();
      } else if c in "{}[],:" {
        var mark := Read(1);
        t := if c == '{' then LBrace else if c == '}' then RBrace else if c == '[' then LBracket
             else if c == ']' then RBracket else if c == ',' then Comma else Colon;
      } else {
        t := ErrorTok;
      }
    }

    /** lex_boolean and lex_null. */
    method ReadWord() returns (t: Token)
      requires input != [] && input[0] in "tfn"
      modifies this`input
      ensures t == if old(input)[0] == 't' then if "true" <= old(input) then BoolTok(true) else ErrorTok
                   else if old(input)[0] == 'f' then if "false" <= old(input) then BoolTok(false) else ErrorTok
                   else if "null" <= old(input) then NullTok else ErrorTok
      ensures t != ErrorTok ==> input == old(input)[if t == BoolTok(false) then 5 else 4..]
    {
      if input[0] == 't' {
        var word := Read(4);
        t := if word == "true" then BoolTok(true) else ErrorTok;
      } else if input[0] == 'f' {
        var word := Read(5);
        t := if word == "false" then BoolTok(false) else ErrorTok;
      } else {
        var word := Read(4);
        t := if word == "null" then NullTok else ErrorTok;
      }
    }

    /** json_lex. The source has no test for a round without progress: there it goes round for ever. */
    method Run() returns (end: LexEnd)
      modifies this
      ensures match Lex(old(input))
              case Endless => end == GoesRound
              case Lexed(ts) =>
                && tokList == old(tokList) + Kinds(ts) && tokValues == old(tokValues) + Values(ts)
                && end == if ts[|ts| - 1] == Eof then Finished else Failed
    {
      hide LexToken, Lex, Kinds, Values, ValuesOf, KindOf, HasValue, Lexing;
      ghost var whole, done := Lex(input), [];
      LexingStarts(tokList, tokValues, input);
      while true
        invariant Lexing(old(tokList), old(tokValues), tokList, tokValues, done, whole, input)
        decreases |input|
      {
        LexRound(old(tokList), old(tokValues), tokList, tokValues, done, whole, input);
        var size := |input|;
        var t := ReadToken();
        tokList := tokList + [KindOf(t)];
        ValueKinds(t);
        if HasValue(KindOf(t)) {
          tokValues := tokValues + ValuesOf(t);
        } else {
          assert tokValues + [] == tokValues;
        }
        done := done + [t];
        if t == Eof || t == ErrorTok {
          return if t == Eof then Finished else Failed;
        }
        if |input| == size {
          return GoesRound;
        }
      }
    }
  }

  /** The tokens in `done` have been read: the lists hold them, and what is left of the outcome of the whole
      text is that of the input. */
  ghost predicate Lexing(kinds0: seq<Kind>, values0: seq<TokenValue>, kinds: seq<Kind>, values: seq<TokenValue>,
                         done: seq<Token>, whole: Outcome, input: string)
  {
    whole == Prepend(done, Lex(input)) && kinds == kinds0 + Kinds(done) && values == values0 + Values(done)
  }

  lemma {:induction false} LexingStarts(kinds: seq<Kind>, values: seq<TokenValue>, input: string)
    ensures Lexing(kinds, values, kinds, values, [], Lex(input), input)
  {
    hide Lex;
    assert Kinds([]) == [] && Values([]) == [];
    if Lex(input).Lexed? {
      assert [] + Lex(input).tokens == Lex(input).tokens;
    }
  }

  /** One round of the lexer. */
  lemma {:induction false} LexRound(kinds0: seq<Kind>, values0: seq<TokenValue>, kinds: seq<Kind>, values: seq<TokenValue>,
                                    done: seq<Token>, whole: Outcome, input: string)
    requires Lexing(kinds0, values0, kinds, values, done, whole, input)
    ensures var (t, rest) := LexToken(input);
            var done' := done + [t];
            && kinds + [KindOf(t)] == kinds0 + Kinds(done') && values + ValuesOf(t) == values0 + Values(done')
            && if t == Eof || t == ErrorTok then whole == Lexed(done')
               else if |rest| == |input| then whole == Endless
               else Lexing(kinds0, values0, kinds + [KindOf(t)], values + ValuesOf(t), done', whole, rest)
  {
    hide LexToken, Lex, Kinds, Values, ValuesOf, KindOf;
    var (t, rest) := LexToken(input);
    LexStep(input);
    Appended(done, t);
    Assoc(kinds0, Kinds(done), [KindOf(t)]);
    Assoc(values0, Values(done), ValuesOf(t));
    PrependTwice(done, [t], Lex(rest));
  }

  lemma {:induction false} NumberIs(s: string, run: string, rest: string)
    requires s == run + rest && NumberRun(s) == run + []
    ensures LexNumber(s)
            == if run != [] && rest == [] && run[|run| - 1] == '.' then (FloatTok(run), rest) else (IntTok(Strtol(run)), rest)
  {
    hide NumberRun, Strtol;
    assert run + [] == run && s[|run|..] == rest;
  }

  lemma {:induction false} ValueKinds(t: Token)
    ensures if HasValue(KindOf(t)) then |ValuesOf(t)| == 1 && TokenOf(KindOf(t), Some(ValuesOf(t)[0])) == t
            else ValuesOf(t) == [] && TokenOf(KindOf(t), None) == t
  {
  }

  /** Where the values of the tokens around position `i` are. */
  lemma {:induction false} ValuesAround(ts: seq<Token>, i: nat)
    requires i < |ts|
    ensures Values(ts[..i + 1]) == Values(ts[..i]) + ValuesOf(ts[i])
    ensures Values(ts) == Values(ts[..i]) + (ValuesOf(ts[i]) + Values(ts[i + 1..]))
  {
    hide Values, ValuesOf;
    assert ts[..i + 1] == ts[..i] + [ts[i]] && ts[..i + 1] + ts[i + 1..] == ts;
    Appended(ts[..i], ts[i]);
    ValuesAppend(ts[..i + 1], ts[i + 1..]);
  }

  lemma {:induction false} Appended(ts: seq<Token>, t: Token)
    ensures Kinds(ts + [t]) == Kinds(ts) + [KindOf(t)]
    ensures Values(ts + [t]) == Values(ts) + ValuesOf(t)
  {
    ValuesAppend(ts, [t]);
    assert Values([t]) == ValuesOf(t) + Values([]);
  }

  /** json_set_value on a new node. */
  function NodeOf(v: TokenValue): Node {
    match v
    case BoolValue(b) => Bool(b)
    case IntValue(n) => Int(n)
    case FloatValue(l) => Float(l)
    case StrValue(s) => Str(s)
  }

  lemma {:induction false} BuiltNothing(hash: string -> nat)
    ensures Built(hash, Arr([])) == Arr([]) && Built(hash, Obj([], 0)) == Obj([], 0)
    ensures BuiltElems(hash, []) == []
  {
  }

  lemma {:induction false} BuiltNode(hash: string -> nat, vs: seq<Node>, ms: seq<Member>)
    ensures Built(hash, Arr(vs)) == Arr(BuiltElems(hash, vs))
    ensures Built(hash, Obj(ms, |ms|)) == Obj(Kept(hash, BuiltMembers(hash, ms)), |ms|)
  {
  }

  lemma {:induction false} BuiltElemsMore(hash: string -> nat, vs: seq<Node>, v: Node)
    ensures BuiltElems(hash, vs + [v]) == BuiltElems(hash, vs) + [Built(hash, v)]
  {
  }

  lemma {:induction false} FilledMore(hash: string -> nat, ms: seq<Member>, m: Member)
    ensures var (tab, size) := Filled(hash, Keys(ms));
            Filled(hash, Keys(ms + [m])) == Dict.PutIn(tab, size, hash(m.key), m.key, |ms|)
  {
    hide Dict.PutIn;
    assert Keys(ms + [m])[..|ms|] == Keys(ms);
  }

  lemma {:induction false} BuiltKeys(hash: string -> nat, ms: seq<Member>)
    ensures Keys(BuiltMembers(hash, ms)) == Keys(ms)
  {
  }

  /** The object under construction: its dictionary holds node pointers, here the numbers of the nodes. */
  ghost predicate Holds(d: Dict.Dict<string, nat>, nodes: seq<Node>, puts: seq<Member>)
    reads d, d.table
  {
    && d.Shape() && (d.table[..], d.size) == Filled(d.hash, Keys(puts))
    && |nodes| == |puts| && forall i :: 0 <= i < |puts| ==> nodes[i] == Built(d.hash, puts[i].value)
  }

  /** json_node_create for an object. */
  method CreateObj(hash: string -> nat) returns (d: Dict.Dict<string, nat>)
    ensures fresh(d) && fresh(d.table) && d.hash == hash && Holds(d, [], [])
  {
    d := new Dict.Dict<string, nat>(hash);
    assert Keys([]) == [];
  }

  /** json_node_putn. */
  method PutNode(d: Dict.Dict<string, nat>, nodes: seq<Node>, key: string, subnode: Node,
                 ghost puts: seq<Member>, ghost m: Member)
    returns (all: seq<Node>)
    requires Holds(d, nodes, puts) && key == m.key && subnode == Built(d.hash, m.value)
    modifies d, d.table
    ensures all == nodes + [subnode] && Holds(d, all, puts + [m])
    ensures d.table == old(d.table) || fresh(d.table)
  {
    hide Filled, Built, Dict.PutIn;
    FilledMore(d.hash, puts, m);
    var _ := d.Put(key, |nodes|);
    all := nodes + [subnode];
  }

  /** The members of an object, as dict_foreach hands them to its action. */
  method VisitMembers(d: Dict.Dict<string, nat>, nodes: seq<Node>, ghost puts: seq<Member>) returns (r: seq<Member>)
    requires Holds(d, nodes, puts)
    ensures r == Kept(d.hash, BuiltMembers(d.hash, puts)) && d.size == |puts|
  {
    hide Filled, Pick, Fresh, Built, Visit, Dict.Bindings;
    ghost var ms, ix := BuiltMembers(d.hash, puts), Visit(d.hash, Keys(puts));
    BuiltKeys(d.hash, puts);
    VisitsOnce(d.hash, Keys(puts));
    VisitedPuts(d.hash, Keys(puts));
    var visited := d.Foreach();
    r := [];
    var i := 0;
    while i < |visited|
      invariant 0 <= i <= |visited| && |r| == i
      invariant forall p :: 0 <= p < i ==> r[p] == ms[ix[p]]
    {
      r := r + [Member(visited[i].0, nodes[visited[i].1])];
      i := i + 1;
    }
    assert r == Kept(d.hash, ms);
  }

  /** The parser: two lists, two cursors. */
  class Parser {
    const hash: string -> nat
    const tokList: seq<Kind>
    const tokValues: seq<TokenValue>
    ghost const toks: seq<Token>
    var idx: nat
    var valIdx: nat

    constructor (hash: string -> nat, kinds: seq<Kind>, values: seq<TokenValue>, ghost ts: seq<Token>)
      requires kinds == Kinds(ts) && values == Values(ts)
      requires ts != [] && ts[|ts| - 1] == Eof
      ensures InStep() && toks == ts && idx == 0 && this.hash == hash
    {
      this.hash, tokList, tokValues, toks := hash, kinds, values, ts;
      idx, valIdx := 0, 0;
    }

    /** The value cursor has passed one value for each value token the token cursor has passed. */
    ghost predicate InStep()
      reads this
    {
      && tokList == Kinds(toks) && tokValues == Values(toks)
      && toks != [] && toks[|toks| - 1] == Eof
      && idx <= |toks| && valIdx == |Values(toks[..idx])|
    }

    /** peek_token. */
    method PeekToken() returns (k: Kind)
      requires InStep() && idx < |toks|
      ensures k == KindOf(toks[idx])
    {
      k := tokList[idx];
    }

    /** pop_token. A token without a value leaves the cursors in step, any other waits for pop_value. */
    method PopToken() returns (k: Kind)
      requires InStep() && idx < |toks|
      modifies this`idx
      ensures k == KindOf(old(toks[idx])) && idx == old(idx) + 1
      ensures k != TokEof ==> idx < |toks|
      ensures if HasValue(k)
              then valIdx < |tokValues| && [tokValues[valIdx]] == ValuesOf(old(toks[idx]))
                   && valIdx + 1 == |Values(toks[..idx])|
              else InStep() && TokenOf(k, None) == old(toks[idx])
    {
      hide Values, ValuesOf, TokenOf, HasValue;
      ValuesAround(toks, idx);
      ValueKinds(toks[idx]);
      k := tokList[idx];
      idx := idx + 1;
    }

    /** pop_value. */
    method PopValue() returns (v: TokenValue)
      requires valIdx < |tokValues|
      modifies this`valIdx
      ensures v == old(tokValues[valIdx]) && valIdx == old(valIdx) + 1
    {
      v := tokValues[valIdx];
      valIdx := valIdx + 1;
    }

    /** After a failure nothing is said about the cursors: a token that is refused was popped without its
        value. */
    ghost predicate Returned(r: Option<Node>, spec: Option<(Node, seq<Token>)>)
      reads this
    {
      match spec
      case None => r == None
      case Some((v, rest)) => InStep() && r == Some(Built(hash, v)) && rest == toks[idx..] && idx < |toks|
    }

    /** json_analyze: it reads within the lists only, and leaves the cursors in step. */
    method AnalyzeNode(level: nat) returns (r: Option<Node>)
      requires InStep() && idx < |toks|
      modifies this
      ensures Returned(r, Analyze(old(toks[idx..]), level))
      decreases |toks| - idx, 2
    {
      hide Elements, Members, Values, Kinds;
      ghost var ts := toks[idx..];
      assert ts[|ts| - 1] == Eof;
      if level >= MAX_NESTING {
        return None;
      }
      var token := PopToken();
      assert ts[1..] == toks[idx..];
      if token == TokLBrace {
        r := AnalyzeObj(level);
      } else if token == TokLBracket {
        r := AnalyzeArray(level);
      } else if HasValue(token) {
        var value := PopValue();
        r := Some(NodeOf(value));
      } else {
        r := if token == TokNull then Some(Null) else None;
      }
    }

    method AnalyzeArray(level: nat) returns (r: Option<Node>)
      requires InStep() && idx < |toks| && level < MAX_NESTING
      modifies this
      ensures Returned(r, if old(toks[idx]) == RBracket then Some((Arr([]), old(toks[idx + 1..])))
                          else Elements(old(toks[idx..]), level, []))
      decreases |toks| - idx, 4
    {
      hide Analyze, Values, ValuesOf, Built, BuiltElems, InStep;
      BuiltNothing(hash);
      var first := PeekToken();
      if first == TokRBracket {
        var _ := PopToken();
        return Some(Arr([]));
      }
      ghost var all := Elements(toks[idx..], level, []);
      var elems: seq<Node> := [];
      ghost var parsed: seq<Node> := [];
      while true
        invariant InStep() && old(idx) <= idx < |toks|
        invariant elems == BuiltElems(hash, parsed) && Elements(toks[idx..], level, parsed) == all
        decreases |toks| - idx
      {
        ghost var ts := toks[idx..];
        var sub := AnalyzeNode(level + 1);
        if sub.None? {
          return None;
        }
        ghost var v := Analyze(ts, level + 1).value.0;
        BuiltElemsMore(hash, parsed, v);
        elems, parsed := elems + [sub.value], parsed + [v];
        ghost var rest := toks[idx..];
        var token := PopToken();
        assert KindOf(rest[0]) == token && rest[1..] == toks[idx..];
        if token != TokComma {
          BuiltNode(hash, parsed, []);
          return if token == TokRBracket then Some(Arr(elems)) else None;
        }
      }
    }

    /** The head of json_analyze_obj's loop: a string and a colon. */
    method ReadKey() returns (key: Option<string>)
      requires InStep() && idx < |toks|
      modifies this
      ensures key.Some? <==> old(toks[idx]).StrTok? && old(toks[idx + 1]) == Colon
      ensures key.Some? ==> InStep() && idx == old(idx) + 2 && old(toks[idx]) == StrTok(key.value) && idx < |toks|
    {
      hide Values;
      var token := PopToken();
      if token != TokString {
        return None;
      }
      var name := PopValue();
      var colon := PopToken();
      key := if colon == TokColon then Some(name.s) else None;
    }

    /** What the loop of json_analyze_obj does before it looks at the token behind a member. */
    method ReadMember(level: nat, d: Dict.Dict<string, nat>, nodes: seq<Node>, ghost puts: seq<Member>)
      returns (more: Option<seq<Node>>, ghost m: Member)
      requires InStep() && idx < |toks| && level < MAX_NESTING && Holds(d, nodes, puts) && d.hash == hash
      modifies this, d, d.table
      ensures more == None <==> Spells(old(toks[idx..]), level) == None
      ensures more.Some? ==>
                && InStep() && old(idx) < idx < |toks| && Spells(old(toks[idx..]), level) == Some((m, toks[idx..]))
                && Holds(d, more.value, puts + [m]) && (d.table == old(d.table) || fresh(d.table))
      decreases |toks| - idx, 3
    {
      hide Analyze, Values, Built, Holds, InStep;
      ghost var ts := toks[idx..];
      m := Member("", Null);
      var key := ReadKey();
      if key.None? {
        return None, m;
      }
      assert ts[2..] == toks[idx..];
      var sub := AnalyzeNode(level + 1);
      if sub.None? {
        return None, m;
      }
      m := Member(key.value, Analyze(ts[2..], level + 1).value.0);
      var all := PutNode(d, nodes, key.value, sub.value, puts, m);
      more := Some(all);
    }

    method AnalyzeObj(level: nat) returns (r: Option<Node>)
      requires InStep() && idx < |toks| && level < MAX_NESTING
      modifies this
      ensures Returned(r, if old(toks[idx]) == RBrace then Some((Obj([], 0), old(toks[idx + 1..])))
                          else Members(old(toks[idx..]), level, []))
      decreases |toks| - idx, 4
    {
      hide Analyze, Spells, Members, Values, ValuesOf, Built, BuiltMembers, Kept, Holds, InStep;
      BuiltNothing(hash);
      var first := PeekToken();
      if first == TokRBrace {
        var _ := PopToken();
        return Some(Obj([], 0));
      }
      ghost var all := Members(toks[idx..], level, []);
      ghost var puts: seq<Member> := [];
      var d := CreateObj(hash);
      var nodes: seq<Node> := [];
      while true
        invariant InStep() && old(idx) <= idx < |toks|
        invariant fresh(d) && fresh(d.table) && d.hash == hash && Holds(d, nodes, puts)
        invariant Members(toks[idx..], level, puts) == all
        decreases |toks| - idx
      {
        MembersStep(toks[idx..], level, puts);
        var more, m := ReadMember(level, d, nodes, puts);
        if more.None? {
          return None;
        }
        nodes, puts := more.value, puts + [m];
        ghost var rest := toks[idx..];
        var token := PopToken();
        assert KindOf(rest[0]) == token && rest[1..] == toks[idx..];
        if token != TokComma {
          if token != TokRBrace {
            return None;
          }
          BuiltNode(hash, [], puts);
          var members := VisitMembers(d, nodes, puts);
          return Some(Obj(members, d.size));
        }
      }
    }
  }

  /** json_parse. */
  method ReadJson(hash: string -> nat, text: string) returns (r: Parsed)
    ensures r == Parse(hash, text)
  {
    hide Lex, Analyze, Kinds, Values, Built;
    var lexer := new Lexer(text);
    var end := lexer.Run();
    if end == Failed {
      return Refused;
    }
    if end == GoesRound {
      return NeverEnds;
    }
    ghost var ts := Lex(text).tokens;
    assert [] + Kinds(ts) == Kinds(ts) && [] + Values(ts) == Values(ts);
    var parser := new Parser(hash, lexer.tokList, lexer.tokValues, ts);
    assert ts[0..] == ts;
    var root := parser.AnalyzeNode(0);
    r := if root.Some? then Tree(root.value) else Refused;
  }
}
