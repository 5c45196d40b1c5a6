/** JSON trees, their tokens and their printed text. */
module JsonTree {
  const MAX_NESTING: nat := 32
  const LONG_MAX: int := 0x7fff_ffff_ffff_ffff

  /** An object is the bindings its dictionary visits, in that order, together with the size counter of the
      dictionary, which counts all puts, also those that replaced a value or were lost. For an object as it
      is spelled, the bindings are the puts. A float is known by its literal only. */
  datatype Node =
    | Null
    | Bool(b: bool)
    | Int(n: int)
    | Float(literal: string)
    | Str(s: string)
    | Arr(elems: seq<Node>)
    | Obj(members: seq<Member>, size: nat)

  datatype Member = Member(key: string, value: Node)

  datatype Token =
    | LBrace | RBrace | LBracket | RBracket | Comma | Colon | NullTok | ErrorTok | Eof
    | StrTok(s: string) | IntTok(n: int) | FloatTok(literal: string) | BoolTok(b: bool)

  /** The tokens of a value, RFC 8259 section 2. */
  function Toks(v: Node): (ts: seq<Token>)
    ensures ts != []
    decreases v, 1
  {
    match v
    case Null => [NullTok]
    case Bool(b) => [BoolTok(b)]
    case Int(n) => [IntTok(n)]
    case Float(literal) => [FloatTok(literal)]
    case Str(s) => [StrTok(s)]
    case Arr(elems) => [LBracket] + ElemToks(elems) + [RBracket]
    case Obj(members, _) => [LBrace] + MemberToks(members) + [RBrace]
  }

  function ElemToks(vs: seq<Node>): seq<Token>
    decreases vs, 0
  {
    if vs == [] then []
    else Toks(vs[0]) + if |vs| == 1 then [] else [Comma] + ElemToks(vs[1..])
  }

  function MemberToks(ms: seq<Member>): seq<Token>
    decreases ms, 0
  {
    if ms == [] then []
    else
      [StrTok(ms[0].key), Colon] + Toks(ms[0].value)
      + if |ms| == 1 then [] else [Comma] + MemberToks(ms[1..])
  }

  /** Nodes on the longest path from the root. */
  function Height(v: Node): nat
    decreases v, 1
  {
    match v
    case Arr(elems) => 1 + ElemsHeight(elems)
    case Obj(members, _) => 1 + MembersHeight(members)
    case _ => 1
  }

  function ElemsHeight(vs: seq<Node>): nat
    decreases vs, 0
  {
    if vs == [] then 0
    else var h, r := Height(vs[0]), ElemsHeight(vs[1..]); if h > r then h else r
  }

  function MembersHeight(ms: seq<Member>): nat
    decreases ms, 0
  {
    if ms == [] then 0
    else var h, r := Height(ms[0].value), MembersHeight(ms[1..]); if h > r then h else r
  }

  /** The size counters count the bindings: no put has replaced a value. */
  predicate NoOverwrites(v: Node) {
    match v
    case Arr(elems) => forall i :: 0 <= i < |elems| ==> NoOverwrites(elems[i])
    case Obj(members, size) => size == |members| && forall i :: 0 <= i < |members| ==> NoOverwrites(members[i].value)
    case _ => true
  }

  /** Strings in which backslashes come in pairs and quotes do not occur: the strings the lexer
      reads as they stand. */
  predicate Paired(s: string) {
    s == [] ||
    if s[0] == '\\' then |s| > 1 && s[1] == '\\' && Paired(s[2..]) else s[0] != '"' && Paired(s[1..])
  }

  /** Values made of what the lexer can produce before the end of the text. */
  predicate Lexable(v: Node) {
    match v
    case Int(n) => 0 <= n <= LONG_MAX
    case Float(_) => false
    case Str(s) => Paired(s)
    case Arr(elems) => forall i :: 0 <= i < |elems| ==> Lexable(elems[i])
    case Obj(members, _) => forall i :: 0 <= i < |members| ==> Paired(members[i].key) && Lexable(members[i].value)
    case _ => true
  }

  predicate LexableTok(t: Token) {
    match t
    case StrTok(s) => Paired(s)
    case IntTok(n) => 0 <= n <= LONG_MAX
    case FloatTok(_) => false
    case _ => true
  }

  lemma {:induction false} LexableByToks(v: Node)
    requires forall t :: t in Toks(v) ==> LexableTok(t)
    ensures Lexable(v)
    decreases v, 1
  {
    assert Toks(v)[0] in Toks(v);
    match v
    case Arr(elems) => ElemsLexable(elems);
    case Obj(members, _) => MembersLexable(members);
    case _ =>
  }

  lemma {:induction false} ElemsLexable(vs: seq<Node>)
    requires forall t :: t in ElemToks(vs) ==> LexableTok(t)
    ensures forall i :: 0 <= i < |vs| ==> Lexable(vs[i])
    decreases vs, 0
  {
    if vs != [] {
      LexableByToks(vs[0]);
      ElemsLexable(vs[1..]);
    }
  }

  lemma {:induction false} MembersLexable(ms: seq<Member>)
    requires forall t :: t in MemberToks(ms) ==> LexableTok(t)
    ensures forall i :: 0 <= i < |ms| ==> Paired(ms[i].key) && Lexable(ms[i].value)
    decreases ms, 0
  {
    if ms != [] {
      assert StrTok(ms[0].key) in MemberToks(ms);
      LexableByToks(ms[0].value);
      MembersLexable(ms[1..]);
    }
  }
}
