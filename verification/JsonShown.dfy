/** What a reader sees in printed text: signed decimals, words, strings and signs, read without the lexer. */
module JsonShown {
  import opened Wrappers
  import opened Layout
  import opened JsonTree
  import opened JsonText

  /** The value of a digit. */
  function Digit(c: char): Option<nat> {
    match c
    case '0' => Some(0)
    case '1' => Some(1)
    case '2' => Some(2)
    case '3' => Some(3)
    case '4' => Some(4)
    case '5' => Some(5)
    case '6' => Some(6)
    case '7' => Some(7)
    case '8' => Some(8)
    case '9' => Some(9)
    case _ => None
  }

  /** The number that digits spell, without a zero in front of others. */
  function Digits(s: string): (n: Option<nat>)
    ensures n.Some? ==> s != []
  {
    if s == [] then None
    else if |s| == 1 then Digit(s[0])
    else
      match (Digits(s[..|s| - 1]), Digit(s[|s| - 1]))
      case (Some(n), Some(d)) => if n == 0 then None else Some(10 * n + d)
      case _ => None
  }

  /** A signed decimal: digits, or a minus sign and digits other than 0. */
  function Signed(s: string): Option<int> {
    if s != [] && s[0] == '-' then Negative(Digits(s[1..])) else Plain(Digits(s))
  }

  function Negative(o: Option<nat>): Option<int> {
    if o.None? || o.value == 0 then None else Some(0 - o.value)
  }

  function Plain(o: Option<nat>): Option<int> {
    if o.None? then None else Some(o.value)
  }

  lemma {:induction false} LastDigit(s: string, c: char)
    requires s != []
    ensures Digits(s + [c])
            == if Digits(s).Some? && Digits(s).value != 0 && Digit(c).Some? then Some(10 * Digits(s).value + Digit(c).value)
               else None
  {
    assert (s + [c])[..|s|] == s;
  }

  lemma {:induction false} DecimalStep(n: nat)
    ensures Decimal(n) == (if n < 10 then [] else Decimal(n / 10)) + [('0' as int + n % 10) as char]
    ensures n < 10 ==> Digits(Decimal(n)) == Some(n)
  {
    assert n < 10 ==> [] + [('0' as int + n) as char] == [('0' as int + n) as char];
  }

  lemma {:induction false} DecimalSpells(n: nat)
    ensures Digits(Decimal(n)) == Some(n) && Decimal(n)[0] != '-'
    decreases n
  {
    hide Digits, Decimal, Digit;
    DecimalStep(n);
    SameDigit(n % 10, ('0' as int + n % 10) as char);
    if n >= 10 {
      DecimalSpells(n / 10);
      LastDigit(Decimal(n / 10), ('0' as int + n % 10) as char);
    }
  }

  lemma {:induction false} SpellsOne(s: string)
    ensures Digits(s).Some? ==> s == Decimal(Digits(s).value)
    decreases |s|
  {
    hide Digits, Decimal, Digit;
    if |s| > 1 {
      var front, c := s[..|s| - 1], s[|s| - 1];
      assert s == front + [c];
      SpellsOne(front);
      LastDigit(front, c);
      if Digits(s).Some? {
        SameDigit(Digit(c).value, c);
        DecimalStep(Digits(s).value);
      }
    } else {
      ShortNumeral(s);
    }
  }

  lemma {:induction false} ShortNumeral(s: string)
    requires |s| <= 1
    ensures Digits(s).Some? ==> s == Decimal(Digits(s).value)
  {
  }

  lemma {:induction false} SameDigit(d: nat, c: char)
    ensures Digit(c) == Some(d) ==> d < 10
    ensures d < 10 ==> (Digit(c) == Some(d) <==> c == ('0' as int + d) as char)
  {
  }

  /** An integer is printed as the one signed decimal that spells it. */
  lemma {:induction false} IntSpells(n: int, s: string)
    ensures Signed(s) == Some(n) <==> s == IntText(n)
  {
    hide Digits, Decimal;
    var digits := if s != [] && s[0] == '-' then s[1..] else s;
    DecimalSpells(if n < 0 then -n else n);
    SpellsOne(digits);
    assert s == (if s != [] && s[0] == '-' then "-" + digits else digits);
    assert n < 0 ==> IntText(n)[1..] == Decimal(-n);
  }

  /** What stands in a text: numbers, other words, strings, and brackets, commas, colons and the spaces inside lines. */
  datatype Piece = Number(n: int) | Word(w: string) | Quote(s: string) | Sign(c: char)

  predicate IsSign(c: char) { c == '{' || c == '}' || c == '[' || c == ']' || c == ',' || c == ':' }

  predicate IsBreak(c: char) { IsSign(c) || c == ' ' || c == '\n' || c == '"' }

  /** What a text begins with, up to the first character that ends a word. */
  function WordOf(s: string): (w: string)
    ensures w <= s
  {
    if s == [] || IsBreak(s[0]) then [] else [s[0]] + WordOf(s[1..])
  }

  /** What stands before the next quote. */
  function Unquoted(s: string): (w: string)
    ensures w <= s
  {
    if s == [] || s[0] == '"' then [] else [s[0]] + Unquoted(s[1..])
  }

  function Shown(w: string): Piece {
    if Signed(w).Some? then Number(Signed(w).value) else Word(w)
  }

  /** A text read from the left; what stands between quotes is one piece, and a line break takes
      the spaces behind it along. */
  function Seen(s: string): seq<Piece>
    decreases |s|
  {
    if s == [] then []
    else if s[0] == '\n' then Seen(s[1 + Blanks(s[1..])..])
    else if IsSign(s[0]) || s[0] == ' ' then [Sign(s[0])] + Seen(s[1..])
    else if s[0] == '"' then
      var w := Unquoted(s[1..]);
      [Quote(w)] + if |w| + 2 <= |s| then Seen(s[|w| + 2..]) else []
    else [Shown(WordOf(s))] + Seen(s[|WordOf(s)|..])
  }

  /** What stands in the text of a tree. */
  function Pieces(fmt: string -> string, v: Node): seq<Piece>
    decreases v, 1
  {
    match v
    case Null => [Word("null")]
    case Bool(b) => [Word(if b then "true" else "false")]
    case Int(n) => [Number(n)]
    case Float(literal) => [Shown(fmt(literal))]
    case Str(s) => [Quote(s)]
    case Arr(elems) => [Sign('[')] + ElemPieces(fmt, elems) + [Sign(']')]
    case Obj(members, size) => [Sign('{')] + MemberPieces(fmt, members, size - 1) + [Sign('}')]
  }

  function ElemPieces(fmt: string -> string, vs: seq<Node>): seq<Piece>
    decreases vs, 0
  {
    if vs == [] then [] else Pieces(fmt, vs[0]) + ((if |vs| == 1 then [] else [Sign(',')]) + ElemPieces(fmt, vs[1..]))
  }

  /** Members, with commas behind the next `commas` of them. */
  function MemberPieces(fmt: string -> string, ms: seq<Member>, commas: int): seq<Piece>
    decreases ms, 0
  {
    if ms == [] then []
    else
      [Quote(ms[0].key), Sign(':'), Sign(' ')] + Pieces(fmt, ms[0].value)
      + ((if commas > 0 then [Sign(',')] else []) + MemberPieces(fmt, ms[1..], commas - 1))
  }

  predicate NoQuotes(s: string) {
    forall i :: 0 <= i < |s| ==> s[i] != '"'
  }

  predicate OneWord(s: string) {
    s != [] && forall i :: 0 <= i < |s| ==> !IsBreak(s[i])
  }

  /** Trees whose strings hold no quotes, with floats printed as words. */
  predicate Showable(fmt: string -> string, v: Node) {
    match v
    case Float(literal) => OneWord(fmt(literal))
    case Str(s) => NoQuotes(s)
    case Arr(elems) => forall i :: 0 <= i < |elems| ==> Showable(fmt, elems[i])
    case Obj(members, _) => forall i :: 0 <= i < |members| ==> NoQuotes(members[i].key) && Showable(fmt, members[i].value)
    case _ => true
  }

  /** Something ends a word here. */
  predicate Breaks(s: string) {
    s != [] && IsBreak(s[0])
  }

  lemma {:induction false} WordRun(w: string, rest: string)
    requires (forall i :: 0 <= i < |w| ==> !IsBreak(w[i])) && Breaks(rest)
    ensures WordOf(w + rest) == w
  {
    if w != [] {
      assert (w + rest)[1..] == w[1..] + rest;
      WordRun(w[1..], rest);
    } else {
      assert w + rest == rest;
    }
  }

  lemma {:induction false} QuoteRun(s: string, rest: string)
    requires NoQuotes(s)
    ensures Unquoted(s + ("\"" + rest)) == s
  {
    var t := s + ("\"" + rest);
    if s != [] {
      assert t[1..] == s[1..] + ("\"" + rest);
      QuoteRun(s[1..], rest);
    }
  }

  lemma {:induction false} SeenWord(w: string, rest: string)
    requires OneWord(w) && Breaks(rest)
    ensures Seen(w + rest) == [Shown(w)] + Seen(rest)
    ensures Starts(w + rest)
  {
    WordRun(w, rest);
    assert (w + rest)[|w|..] == rest;
  }

  lemma {:induction false} SeenQuote(s: string, rest: string)
    requires NoQuotes(s)
    ensures Seen(Quoted(s) + rest) == [Quote(s)] + Seen(rest)
  {
    var t := Quoted(s) + rest;
    QuoteRun(s, rest);
    assert t[1..] == s + ("\"" + rest);
    assert t[|s| + 2..] == rest;
  }

  lemma {:induction false} SeenSign(c: char, rest: string)
    requires IsSign(c) || c == ' '
    ensures Seen([c] + rest) == [Sign(c)] + Seen(rest)
  {
    assert ([c] + rest)[1..] == rest;
  }

  /** Something that is no space stands here. */
  predicate Starts(s: string) {
    s != [] && s[0] != ' '
  }

  lemma {:induction false} LineIs(level: nat)
    ensures Line(level) == "\n" + Pad(level)
  {
    if level > 0 {
      LineIs(level - 1);
    }
  }

  lemma {:induction false} SeenLine(level: nat, rest: string)
    requires Starts(rest)
    ensures Seen(['\n'] + (Pad(level) + rest)) == Seen(rest)
  {
    hide Line;
    LineIs(level);
    BlanksIn(level, rest);
    assert Line(level) + rest == ['\n'] + (Pad(level) + rest);
  }

  lemma {:induction false} IntIsWord(n: int)
    ensures OneWord(IntText(n))
  {
    DecimalValue(if n < 0 then -n else n);
  }

  lemma {:induction false} Words()
    ensures OneWord("null") && OneWord("true") && OneWord("false")
    ensures Shown("null") == Word("null") && Shown("true") == Word("true") && Shown("false") == Word("false")
  {
    assert Digit("null"[3]).None? && Digit("true"[3]).None? && Digit("false"[4]).None?;
  }

  /** The printed text of a tree shows its pieces, whatever its level; the integers with their signs. */
  lemma {:induction false} TextSeen(fmt: string -> string, v: Node, level: nat, rest: string)
    requires Showable(fmt, v) && Breaks(rest)
    ensures Seen(Text(fmt, v, level) + rest) == Pieces(fmt, v) + Seen(rest)
    ensures Starts(Text(fmt, v, level) + rest)
    decreases v, 1
  {
    hide Seen, IntText, Pad, ElemsText, MembersText, ElemPieces, MemberPieces, Shown, OneWord, NoQuotes;
    match v
    case Null =>
      Words();
      SeenWord("null", rest);
    case Bool(b) =>
      Words();
      SeenWord(if b then "true" else "false", rest);
    case Int(n) =>
      IntIsWord(n);
      SeenWord(IntText(n), rest);
      assert Shown(IntText(n)) == Number(n) by { ShownInt(n); }
    case Float(literal) => SeenWord(fmt(literal), rest);
    case Str(s) => SeenQuote(s, rest);
    case Arr(elems) => ArrSeen(fmt, elems, level, rest);
    case Obj(members, size) => ObjSeen(fmt, members, size, level, rest);
  }

  lemma {:induction false} ArrSeen(fmt: string -> string, elems: seq<Node>, level: nat, rest: string)
    requires forall i :: 0 <= i < |elems| ==> Showable(fmt, elems[i])
    ensures Seen(Text(fmt, Arr(elems), level) + rest) == Pieces(fmt, Arr(elems)) + Seen(rest)
    decreases elems, 1
  {
    hide Seen, Pad, ElemsText, ElemPieces, Showable;
    var end := ['\n'] + (Pad(level) + ([']'] + rest));
    assert Text(fmt, Arr(elems), level) + rest == ['['] + (ElemsText(fmt, elems, level) + end);
    SeenSign('[', ElemsText(fmt, elems, level) + end);
    ElemsSeen(fmt, elems, level, end);
    SeenLine(level, [']'] + rest);
    SeenSign(']', rest);
    Around(Sign('['), ElemPieces(fmt, elems), Sign(']'), Seen(rest));
  }

  lemma {:induction false} ObjSeen(fmt: string -> string, members: seq<Member>, size: nat, level: nat, rest: string)
    requires forall i :: 0 <= i < |members| ==> NoQuotes(members[i].key) && Showable(fmt, members[i].value)
    ensures Seen(Text(fmt, Obj(members, size), level) + rest) == Pieces(fmt, Obj(members, size)) + Seen(rest)
    decreases members, 1
  {
    hide Seen, Pad, MembersText, MemberPieces, Showable, NoQuotes;
    var inner := ['\n'] + (MembersText(fmt, members, 0, size, level + 1) + (Pad(level) + (['}'] + rest)));
    assert Text(fmt, Obj(members, size), level) + rest == ['{'] + inner;
    SeenSign('{', inner);
    MembersSeen(fmt, members, 0, size, level, rest);
    Around(Sign('{'), MemberPieces(fmt, members, size - 1), Sign('}'), Seen(rest));
  }

  lemma {:induction false} ShownInt(n: int)
    ensures Shown(IntText(n)) == Number(n)
  {
    IntSpells(n, IntText(n));
  }

  lemma {:induction false} Around(a: Piece, b: seq<Piece>, c: Piece, d: seq<Piece>)
    ensures [a] + (b + ([c] + d)) == [a] + b + [c] + d
  {
  }

  lemma {:induction false} ElemsSeen(fmt: string -> string, vs: seq<Node>, level: nat, rest: string)
    requires (forall i :: 0 <= i < |vs| ==> Showable(fmt, vs[i])) && Breaks(rest)
    ensures Seen(ElemsText(fmt, vs, level) + rest) == ElemPieces(fmt, vs) + Seen(rest)
    ensures Breaks(ElemsText(fmt, vs, level) + rest)
    decreases vs, 0
  {
    hide Seen, Pad, Pieces, Showable, ElemText, ElemsText, ElemPieces;
    FirstElem(fmt, vs, level, rest);
    NoElems(fmt);
    if vs != [] {
      var tail := ElemsText(fmt, vs[1..], level) + rest;
      var after := (if |vs| > 1 then "," else "") + tail;
      ElemsSeen(fmt, vs[1..], level, rest);
      SeenComma(|vs| > 1, tail);
      ElemSeen(fmt, vs[0], level, after);
      MoreElems(fmt, vs, Seen(rest));
    }
  }

  lemma {:induction false} FirstElem(fmt: string -> string, vs: seq<Node>, level: nat, rest: string)
    ensures ElemsText(fmt, vs, level) + rest ==
            if vs == [] then rest
            else ElemText(fmt, vs[0], level) + ((if |vs| > 1 then "," else "") + (ElemsText(fmt, vs[1..], level) + rest))
  {
    hide ElemText;
  }

  lemma {:induction false} NoElems(fmt: string -> string)
    ensures ElemPieces(fmt, []) == []
  {
  }

  lemma {:induction false} MoreElems(fmt: string -> string, vs: seq<Node>, rest: seq<Piece>)
    requires vs != []
    ensures ElemPieces(fmt, vs) + rest ==
            Pieces(fmt, vs[0]) + ((if |vs| == 1 then [] else [Sign(',')]) + (ElemPieces(fmt, vs[1..]) + rest))
  {
    hide Pieces;
  }

  lemma {:induction false} ElemSeen(fmt: string -> string, v: Node, level: nat, rest: string)
    requires Showable(fmt, v) && Breaks(rest)
    ensures Seen(ElemText(fmt, v, level) + rest) == Pieces(fmt, v) + Seen(rest)
    ensures Breaks(ElemText(fmt, v, level) + rest)
    decreases v, 2
  {
    hide Seen, Pad, Text, Pieces, Showable;
    var value := Text(fmt, v, level + 1) + rest;
    assert ElemText(fmt, v, level) + rest == ['\n'] + (Pad(level + 1) + value);
    TextSeen(fmt, v, level + 1, rest);
    SeenLine(level + 1, value);
  }

  lemma {:induction false} MembersSeen(fmt: string -> string, ms: seq<Member>, idx: nat, size: nat, level: nat, rest: string)
    requires forall i :: 0 <= i < |ms| ==> NoQuotes(ms[i].key) && Showable(fmt, ms[i].value)
    ensures var s := ['\n'] + (MembersText(fmt, ms, idx, size, level + 1) + (Pad(level) + (['}'] + rest)));
            Seen(s) == MemberPieces(fmt, ms, size - idx - 1) + ([Sign('}')] + Seen(rest))
    decreases ms, 0
  {
    hide Seen, Pad, Pieces, Showable, NoQuotes, MemberText, MembersText, MemberPieces;
    var end := Pad(level) + (['}'] + rest);
    NextMember(fmt, ms, idx, size, level + 1, end);
    NoMembers(fmt, size - idx - 1);
    if ms == [] {
      SeenLine(level, ['}'] + rest);
      SeenSign('}', rest);
    } else {
      var tail := ['\n'] + (MembersText(fmt, ms[1..], idx + 1, size, level + 1) + end);
      var after := (if idx < size - 1 then "," else "") + tail;
      MembersSeen(fmt, ms[1..], idx + 1, size, level, rest);
      SeenComma(idx < size - 1, tail);
      MemberSeen(fmt, ms[0], level + 1, after);
      MorePieces(fmt, ms, size - idx - 1, [Sign('}')] + Seen(rest));
    }
  }

  lemma {:induction false} NoMembers(fmt: string -> string, commas: int)
    ensures MemberPieces(fmt, [], commas) == []
  {
  }

  lemma {:induction false} MorePieces(fmt: string -> string, ms: seq<Member>, commas: int, rest: seq<Piece>)
    requires ms != []
    ensures MemberPieces(fmt, ms, commas) + rest ==
            [Quote(ms[0].key), Sign(':'), Sign(' ')] + Pieces(fmt, ms[0].value)
            + ((if commas > 0 then [Sign(',')] else []) + (MemberPieces(fmt, ms[1..], commas - 1) + rest))
  {
    hide Pieces;
  }

  lemma {:induction false} SeenComma(comma: bool, rest: string)
    requires Breaks(rest)
    ensures var s := (if comma then "," else "") + rest;
            Seen(s) == (if comma then [Sign(',')] else []) + Seen(rest) && Breaks(s)
  {
    hide Seen;
    SeenSign(',', rest);
    assert "" + rest == rest;
  }

  lemma {:induction false} MemberSeen(fmt: string -> string, m: Member, level: nat, rest: string)
    requires NoQuotes(m.key) && Showable(fmt, m.value) && Breaks(rest)
    ensures Seen(['\n'] + (MemberText(fmt, m, level) + rest))
            == [Quote(m.key), Sign(':'), Sign(' ')] + Pieces(fmt, m.value) + Seen(rest)
    decreases m, 1
  {
    hide Seen, Pad, Text, Pieces, Showable, NoQuotes;
    var value := Text(fmt, m.value, level) + rest;
    var line := Quoted(m.key) + ([':'] + ([' '] + value));
    assert MemberText(fmt, m, level) + rest == Pad(level) + line;
    SeenLine(level, line);
    SeenQuote(m.key, [':'] + ([' '] + value));
    SeenSign(':', [' '] + value);
    SeenSign(' ', value);
    TextSeen(fmt, m.value, level, rest);
  }

  /** All of a printed tree. */
  lemma {:induction false} StringifySeen(fmt: string -> string, v: Node)
    requires Showable(fmt, v)
    ensures Seen(Stringify(fmt, v)) == Pieces(fmt, v)
  {
    hide Seen, Text, Pieces;
    TextSeen(fmt, v, 0, "\n");
    assert Seen("\n") == [] by { NothingSeen(); }
  }

  lemma {:induction false} NothingSeen()
    ensures Seen("\n") == []
  {
    assert "\n"[1..] == "";
  }
}
