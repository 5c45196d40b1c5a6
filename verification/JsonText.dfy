/** The JSON printer, and what the lexer makes of its text. */
module JsonText {
  import opened Bytes
  import opened Wrappers
  import opened JsonTree
  import opened JsonBuild
  import opened JsonParse
  import opened JsonPrinted
  import opened JsonLex

  const PADDING := "    "

  function Pad(level: nat): string {
    if level == 0 then "" else Pad(level - 1) + PADDING
  }

  function Decimal(n: nat): string {
    if n < 10 then [('0' as int + n) as char] else Decimal(n / 10) + [('0' as int + n % 10) as char]
  }

  /** printf "%li". */
  function IntText(n: int): string {
    if n < 0 then "-" + Decimal(-n) else Decimal(n)
  }

  function Quoted(s: string): string {
    "\"" + s + "\""
  }

  /** json_node_stringify; `fmt` stands for printf "%g" on the float a literal denotes. */
  function Text(fmt: string -> string, v: Node, level: nat): string
    decreases v, 1
  {
    match v
    case Null => "null"
    case Bool(b) => if b then "true" else "false"
    case Int(n) => IntText(n)
    case Float(literal) => fmt(literal)
    case Str(s) => Quoted(s)
    case Arr(elems) => "[" + ElemsText(fmt, elems, level) + ("\n" + Pad(level) + "]")
    case Obj(members, size) => "{\n" + MembersText(fmt, members, 0, size, level + 1) + (Pad(level) + "}")
  }

  function ElemsText(fmt: string -> string, vs: seq<Node>, level: nat): string
    decreases vs, 0
  {
    if vs == [] then ""
    else
      ElemText(fmt, vs[0], level) + ((if |vs| > 1 then "," else "") + ElemsText(fmt, vs[1..], level))
  }

  function ElemText(fmt: string -> string, v: Node, level: nat): string
    decreases v, 2
  {
    "\n" + Pad(level + 1) + Text(fmt, v, level + 1)
  }

  /** The callback on each binding; `idx` is its number in the visit. The comma depends on the size
      counter of the dictionary. */
  function MembersText(fmt: string -> string, ms: seq<Member>, idx: nat, size: nat, level: nat): string
    decreases ms, 0
  {
    if ms == [] then ""
    else
      MemberText(fmt, ms[0], level)
      + ((if idx < size - 1 then "," else "") + ("\n" + MembersText(fmt, ms[1..], idx + 1, size, level)))
  }

  function MemberText(fmt: string -> string, m: Member, level: nat): string
    decreases m, 1
  {
    Pad(level) + Quoted(m.key) + ": " + Text(fmt, m.value, level)
  }

  /** json_stringify. */
  function Stringify(fmt: string -> string, v: Node): string {
    Text(fmt, v, 0) + "\n"
  }

  datatype Parsed = Tree(root: Node) | Refused | NeverEnds

  /** json_parse: lexing, then one value, built as it is parsed; tokens after it are ignored. `hash` is the
      hash of the strings. */
  function Parse(hash: string -> nat, text: string): Parsed {
    match Lex(text)
    case Endless => NeverEnds
    case Lexed(ts) =>
      if ts == [] || ts[|ts| - 1] != Eof then Refused
      else match Analyze(ts, 0)
        case None => Refused
        case Some((v, _)) => Tree(Built(hash, v))
  }

  lemma {:induction false} NextElem(fmt: string -> string, vs: seq<Node>, level: nat, rest: string)
    ensures ElemsText(fmt, vs, level) + rest ==
            if vs == [] then rest
            else
              "\n" + Pad(level + 1)
              + (Text(fmt, vs[0], level + 1)
                 + ((if |vs| > 1 then "," else "") + (ElemsText(fmt, vs[1..], level) + rest)))
  {
    hide Text, Pad;
  }

  lemma {:induction false} NextMember(fmt: string -> string, ms: seq<Member>, idx: nat, size: nat, level: nat, rest: string)
    ensures MembersText(fmt, ms, idx, size, level) + rest ==
            if ms == [] then rest
            else
              MemberText(fmt, ms[0], level)
              + ((if idx < size - 1 then "," else "")
                 + (['\n'] + (MembersText(fmt, ms[1..], idx + 1, size, level) + rest)))
  {
    hide MemberText;
  }

  lemma {:induction false} PadSpaces(level: nat)
    ensures forall i :: 0 <= i < |Pad(level)| ==> IsSpace(Pad(level)[i])
  {
    if level > 0 {
      PadSpaces(level - 1);
    }
  }

  lemma {:induction false} DecimalValue(n: nat)
    ensures Decimal(n) != [] && (forall i :: 0 <= i < |Decimal(n)| ==> IsDigit(Decimal(n)[i]))
    ensures Value(Decimal(n)) == n
  {
    if n >= 10 {
      DecimalValue(n / 10);
      assert Decimal(n)[..|Decimal(n)| - 1] == Decimal(n / 10);
    } else {
      assert Value([]) == 0;
      assert Decimal(n)[..0] == [];
    }
  }

  lemma {:induction false} DigitsRun(d: string, rest: string)
    requires forall i :: 0 <= i < |d| ==> IsDigit(d[i])
    requires rest != [] && !IsNumberChar(rest[0])
    ensures NumberRun(d + rest) == d && DigitPrefix(d) == d
  {
    if d != [] {
      assert (d + rest)[1..] == d[1..] + rest;
      DigitsRun(d[1..], rest);
      assert d == [d[0]] + d[1..];
    } else {
      assert d + rest == rest;
    }
  }

  lemma {:induction false} NotSpaced(s: string)
    requires s != [] && !IsSpace(s[0])
    ensures SkipSpaces(s) == s
  {
  }

  lemma {:induction false} LexesInt(n: nat, rest: string)
    requires n <= LONG_MAX && rest != [] && !IsNumberChar(rest[0])
    ensures Lex(Decimal(n) + rest) == Prepend([IntTok(n)], Lex(rest))
  {
    hide Lex, Decimal;
    var s := Decimal(n) + rest;
    DecimalValue(n);
    DigitsRun(Decimal(n), rest);
    NotSpaced(s);
    assert s[|Decimal(n)|..] == rest;
    assert LexNumber(s) == (IntTok(n), rest);
    LexOne(s, IntTok(n), rest);
  }

  lemma {:induction false} LexesPaired(s: string, rest: string)
    requires Paired(s)
    ensures LexString(s + ("\"" + rest)) == Some((s, rest))
  {
    var t := s + ("\"" + rest);
    if s == [] {
      assert t == "\"" + rest && t[1..] == rest;
    } else if s[0] == '\\' {
      assert t[2..] == s[2..] + ("\"" + rest);
      LexesPaired(s[2..], rest);
      assert s == ['\\', '\\'] + s[2..];
    } else {
      assert t[1..] == s[1..] + ("\"" + rest);
      LexesPaired(s[1..], rest);
      assert s == [s[0]] + s[1..];
    }
  }

  lemma {:induction false} LexesString(s: string, rest: string)
    requires Paired(s)
    ensures Lex(Quoted(s) + rest) == Prepend([StrTok(s)], Lex(rest))
  {
    hide Lex;
    var t := Quoted(s) + rest;
    assert t[1..] == s + ("\"" + rest);
    LexesPaired(s, rest);
    NotSpaced(t);
    LexOne(t, StrTok(s), rest);
  }

  lemma {:induction false} LexesMark(c: char, rest: string)
    requires c in {'{', '}', '[', ']', ',', ':'}
    ensures Lex([c] + rest) == Prepend([Mark(c)], Lex(rest))
  {
    hide Lex;
    var t := [c] + rest;
    assert t[1..] == rest;
    NotSpaced(t);
    LexOne(t, Mark(c), rest);
  }

  function Mark(c: char): Token {
    match c
    case '{' => LBrace
    case '}' => RBrace
    case '[' => LBracket
    case ']' => RBracket
    case ',' => Comma
    case _ => Colon
  }

  lemma {:induction false} LexesWord(v: Node, rest: string)
    requires v.Null? || v.Bool?
    ensures Lex((if v.Null? then "null" else if v.b then "true" else "false") + rest) == Prepend(Toks(v), Lex(rest))
  {
    hide Lex;
    var word := if v.Null? then "null" else if v.b then "true" else "false";
    var t := word + rest;
    assert t[|word|..] == rest && word <= t;
    NotSpaced(t);
    LexOne(t, Toks(v)[0], rest);
  }

  /** White space, then more text. */
  lemma {:induction false} LexesAfter(level: nat, s: string)
    ensures Lex(Pad(level) + s) == Lex(s) && Lex("\n" + Pad(level) + s) == Lex(s)
  {
    PadSpaces(level);
    LexSpaces(Pad(level), s);
    LexSpaces("\n" + Pad(level), s);
  }

  /** Lexing printed text gives the tokens of the value, then whatever follows gives; what follows
      must not look like more of a number. */
  lemma {:induction false} LexesText(fmt: string -> string, v: Node, level: nat, rest: string)
    requires Lexable(v)
    requires rest != [] && !IsNumberChar(rest[0])
    ensures Lex(Text(fmt, v, level) + rest) == Prepend(PrintedToks(v), Lex(rest))
    decreases v, 1
  {
    hide Lex, IntText, Quoted, Pad, ElemsText, MembersText, PrintedElems, PrintedMembers, Prepend;
    match v
    case Int(n) =>
      assert IntText(n) == Decimal(n) by { PlainInt(n); }
      LexesInt(n, rest);
    case Str(s) => LexesString(s, rest);
    case Arr(elems) => LexesArr(fmt, elems, level, rest);
    case Obj(members, size) => LexesObj(fmt, members, size, level, rest);
    case _ => LexesWord(v, rest);
  }

  lemma {:induction false} PlainInt(n: int)
    requires n >= 0
    ensures IntText(n) == Decimal(n)
  {
  }

  lemma {:induction false} LexesArr(fmt: string -> string, elems: seq<Node>, level: nat, rest: string)
    requires forall i :: 0 <= i < |elems| ==> Lexable(elems[i])
    ensures Lex(Text(fmt, Arr(elems), level) + rest) == Prepend(PrintedToks(Arr(elems)), Lex(rest))
    decreases elems, 2
  {
    hide Lex, Pad, ElemsText, PrintedElems, Prepend;
    var end := "]" + rest;
    var tail := "\n" + Pad(level) + end;
    assert Text(fmt, Arr(elems), level) + rest == "[" + (ElemsText(fmt, elems, level) + tail);
    LexesMark('[', ElemsText(fmt, elems, level) + tail);
    LexesElems(fmt, elems, level, tail);
    LexesAfter(level, end);
    LexesMark(']', rest);
    PrependTwice(PrintedElems(elems), [RBracket], Lex(rest));
    PrependTwice([LBracket], PrintedElems(elems) + [RBracket], Lex(rest));
    Assoc([LBracket], PrintedElems(elems), [RBracket]);
  }

  lemma {:induction false} LexesElems(fmt: string -> string, vs: seq<Node>, level: nat, rest: string)
    requires forall i :: 0 <= i < |vs| ==> Lexable(vs[i])
    requires rest != [] && !IsNumberChar(rest[0])
    ensures Lex(ElemsText(fmt, vs, level) + rest) == Prepend(PrintedElems(vs), Lex(rest))
    decreases vs, 0
  {
    hide Lex, Pad, Text, PrintedToks, Lexable;
    if vs == [] {
      assert ElemsText(fmt, vs, level) + rest == rest;
      NoPrepend(Lex(rest));
    } else {
      var v, more := vs[0], vs[1..];
      var after := (if |vs| > 1 then "," else "") + ElemsText(fmt, more, level) + rest;
      assert ElemsText(fmt, vs, level) + rest == ElemText(fmt, v, level) + after;
      assert ElemText(fmt, v, level) + after == "\n" + Pad(level + 1) + (Text(fmt, v, level + 1) + after);
      LexesAfter(level + 1, Text(fmt, v, level + 1) + after);
      if |vs| == 1 {
        assert more == [] && after == rest;
        assert PrintedElems(vs) == PrintedToks(v);
      } else {
        assert after == "," + (ElemsText(fmt, more, level) + rest);
        LexesMark(',', ElemsText(fmt, more, level) + rest);
        LexesElems(fmt, more, level, rest);
        PrependTwice([Comma], PrintedElems(more), Lex(rest));
        PrependTwice(PrintedToks(v), [Comma] + PrintedElems(more), Lex(rest));
      }
      LexesText(fmt, v, level + 1, after);
    }
  }

  lemma {:induction false} NoPrepend(o: Outcome)
    ensures Prepend([], o) == o
  {
  }

  lemma {:induction false} LexesObj(fmt: string -> string, members: seq<Member>, size: nat, level: nat, rest: string)
    requires forall i :: 0 <= i < |members| ==> Paired(members[i].key) && Lexable(members[i].value)
    ensures Lex(Text(fmt, Obj(members, size), level) + rest) == Prepend(PrintedToks(Obj(members, size)), Lex(rest))
    decreases members, 2
  {
    hide Lex, Pad, MembersText, PrintedMembers, Prepend, Paired;
    var text, end := MembersText(fmt, members, 0, size, level + 1), "}" + rest;
    var tail := Pad(level) + end;
    assert Text(fmt, Obj(members, size), level) + rest == "{" + ("\n" + (text + tail));
    LexesMark('{', "\n" + (text + tail));
    LexSpace('\n', text + tail);
    LexesMembers(fmt, members, 0, size, level + 1, tail);
    LexesAfter(level, end);
    LexesMark('}', rest);
    PrependTwice(PrintedMembers(members, 0, size), [RBrace], Lex(rest));
    PrependTwice([LBrace], PrintedMembers(members, 0, size) + [RBrace], Lex(rest));
    Assoc([LBrace], PrintedMembers(members, 0, size), [RBrace]);
  }

  lemma {:induction false} LexesMember(fmt: string -> string, m: Member, level: nat, rest: string)
    requires Paired(m.key) && Lexable(m.value)
    requires rest != [] && !IsNumberChar(rest[0])
    ensures Lex(MemberText(fmt, m, level) + rest) == Prepend([StrTok(m.key), Colon] + PrintedToks(m.value), Lex(rest))
    decreases m, 1
  {
    hide Lex, Pad, Text, PrintedToks, Lexable, Paired, Quoted, Prepend;
    var value := Text(fmt, m.value, level) + rest;
    assert MemberText(fmt, m, level) + rest == Pad(level) + (Quoted(m.key) + (":" + (" " + value)));
    LexesAfter(level, Quoted(m.key) + (":" + (" " + value)));
    LexesString(m.key, ":" + (" " + value));
    LexesMark(':', " " + value);
    LexSpace(' ', value);
    LexesText(fmt, m.value, level, rest);
    PrependTwice([Colon], PrintedToks(m.value), Lex(rest));
    PrependTwice([StrTok(m.key)], [Colon] + PrintedToks(m.value), Lex(rest));
    assert [StrTok(m.key)] + ([Colon] + PrintedToks(m.value)) == [StrTok(m.key), Colon] + PrintedToks(m.value);
  }

  lemma {:induction false} LexesMembers(fmt: string -> string, ms: seq<Member>, idx: nat, size: nat, level: nat, rest: string)
    requires forall i :: 0 <= i < |ms| ==> Paired(ms[i].key) && Lexable(ms[i].value)
    ensures Lex(MembersText(fmt, ms, idx, size, level) + rest) == Prepend(PrintedMembers(ms, idx, size), Lex(rest))
    decreases ms, 0
  {
    hide Lex, PrintedToks, Lexable, Paired, MemberText, Prepend;
    if ms == [] {
      assert MembersText(fmt, ms, idx, size, level) + rest == rest;
      NoPrepend(Lex(rest));
    } else {
      var m, more, last := ms[0], ms[1..], !(idx < size - 1);
      var tail := MembersText(fmt, more, idx + 1, size, level) + rest;
      var after := (if last then "" else ",") + ("\n" + tail);
      assert MembersText(fmt, ms, idx, size, level) + rest == MemberText(fmt, m, level) + after;
      LexesMember(fmt, m, level, after);
      LexSpace('\n', tail);
      LexesMembers(fmt, more, idx + 1, size, level, rest);
      var head, toks := [StrTok(m.key), Colon] + PrintedToks(m.value), PrintedMembers(more, idx + 1, size);
      if last {
        assert after == "\n" + tail && [] + toks == toks;
        PrependTwice(head, toks, Lex(rest));
      } else {
        LexesMark(',', "\n" + tail);
        PrependTwice([Comma], toks, Lex(rest));
        PrependTwice(head, [Comma] + toks, Lex(rest));
      }
    }
  }

  predicate EndsInDot(text: string) {
    text != [] && text[|text| - 1] == '.'
  }

  /** What the lexer produces: nothing but lexable tokens, and a float at the very end of a text that ends
      in a dot. */
  lemma {:induction false} LexImage(text: string)
    ensures Lex(text).Lexed? ==>
              var ts := Lex(text).tokens;
              forall i :: 0 <= i < |ts| ==> LexableTok(ts[i]) || (ts[i].FloatTok? && i == |ts| - 2 && EndsInDot(text))
    decreases |text|
  {
    hide LexToken, LexableTok;
    LexStep(text);
    var (tok, rest) := LexToken(text);
    TokenLexable(text);
    EndToks();
    if tok != Eof && tok != ErrorTok && |rest| < |text| {
      TokenSuffix(text);
      LexImage(rest);
      if !LexableTok(tok) {
        LexNothing();
      }
    }
  }

  lemma {:induction false} EndToks()
    ensures LexableTok(Eof) && LexableTok(ErrorTok)
  {
  }

  lemma {:induction false} LexNothing()
    ensures Lex("") == Lexed([Eof])
  {
  }

  lemma {:induction false} TokenLexable(text: string)
    ensures LexableTok(LexToken(text).0)
            || (LexToken(text).0.FloatTok? && LexToken(text).1 == "" && EndsInDot(text))
  {
    hide SkipSpaces, LexString, LexNumber, Paired;
    var s := SkipSpaces(text);
    SkipSpacesSuffix(text);
    NumberLexable(s);
    if s != [] && s[0] == '"' {
      LexStringSuffix(s[1..]);
      StringImage(s[1..]);
    }
  }

  lemma {:induction false} NumberLexable(s: string)
    ensures LexableTok(LexNumber(s).0) || (LexNumber(s).0.FloatTok? && LexNumber(s).1 == "" && EndsInDot(s))
  {
    hide NumberRun, Strtol;
  }

  lemma {:induction false} TokenSuffix(text: string)
    ensures LexToken(text).0 != Eof && LexToken(text).0 != ErrorTok ==>
              LexToken(text).1 == text[|text| - |LexToken(text).1|..]
  {
    hide SkipSpaces, LexToken;
    SkipSpacesSuffix(text);
    if LexToken(text).0 != Eof && LexToken(text).0 != ErrorTok {
      var k := TokenRest(text);
      assert SkipSpaces(text)[k..] == text[|text| - |SkipSpaces(text)| + k..];
    }
  }

  lemma {:induction false} TokenRest(text: string) returns (k: nat)
    requires LexToken(text).0 != Eof && LexToken(text).0 != ErrorTok
    ensures k <= |SkipSpaces(text)| && LexToken(text).1 == SkipSpaces(text)[k..]
  {
    hide LexToken;
    var s := SkipSpaces(text);
    TokenStarts(text);
    if s[0] == '"' {
      k := StringRest(text);
    } else if IsDigit(s[0]) || s[0] == '-' {
      k := NumberRest(text);
    } else {
      k := ShortRest(text);
    }
  }

  lemma {:induction false} TokenStarts(text: string)
    ensures LexToken(text).0 != Eof ==> SkipSpaces(text) != []
  {
    hide SkipSpaces, LexString, LexNumber;
  }

  lemma {:induction false} StringRest(text: string) returns (k: nat)
    requires SkipSpaces(text) != [] && SkipSpaces(text)[0] == '"' && LexToken(text).0 != ErrorTok
    ensures k <= |SkipSpaces(text)| && LexToken(text).1 == SkipSpaces(text)[k..]
  {
    hide SkipSpaces, LexString, LexNumber;
    var s := SkipSpaces(text);
    LexStringSuffix(s[1..]);
    var rest := LexString(s[1..]).value.1;
    k := |s| - |rest|;
    assert s[1..][|s| - 1 - |rest|..] == s[k..];
  }

  lemma {:induction false} NumberRest(text: string) returns (k: nat)
    requires SkipSpaces(text) != [] && (IsDigit(SkipSpaces(text)[0]) || SkipSpaces(text)[0] == '-')
    ensures k <= |SkipSpaces(text)| && LexToken(text).1 == SkipSpaces(text)[k..]
  {
    hide SkipSpaces, LexString, NumberRun, Strtol;
    k := |NumberRun(SkipSpaces(text))|;
  }

  lemma {:induction false} ShortRest(text: string) returns (k: nat)
    requires var s := SkipSpaces(text); s != [] && s[0] != '"' && !IsDigit(s[0]) && s[0] != '-'
    requires LexToken(text).0 != Eof && LexToken(text).0 != ErrorTok
    ensures k <= |SkipSpaces(text)| && LexToken(text).1 == SkipSpaces(text)[k..]
  {
    hide SkipSpaces, LexString, LexNumber;
    var s := SkipSpaces(text);
    k := if s[0] == 't' || s[0] == 'n' then 4 else if s[0] == 'f' then 5 else 1;
  }

  lemma {:induction false} StringImage(s: string)
    ensures LexString(s).Some? ==> Paired(LexString(s).value.0)
  {
    if s != [] && s[0] != '"' {
      var skipped := if s[0] == '\\' && |s| > 1 then s[2..] else s[1..];
      StringImage(skipped);
      if LexString(skipped).Some? {
        var value := LexString(skipped).value.0;
        if s[0] == '\\' {
          assert (['\\', '\\'] + value)[2..] == value;
        } else {
          assert ([s[0]] + value)[1..] == value;
        }
      }
    }
  }

  lemma {:induction false} LexesWhole(fmt: string -> string, v: Node)
    requires Lexable(v)
    ensures Lex(Stringify(fmt, v)) == Lexed(PrintedToks(v) + [Eof])
  {
    hide PrintedToks, Text, Lexable;
    LexesText(fmt, v, 0, "\n");
    LexSpace('\n', "");
    assert Lex("") == Lexed([Eof]);
    assert Lex("\n") == Lexed([Eof]) by {
      assert "\n" + "" == "\n";
    }
  }
}
