/** How texts are spelled, and what the lexer makes of each spelling. The spellings cover all texts. */
module JsonSpelling {
  import opened Bytes
  import opened Wrappers
  import opened JsonTree
  import opened JsonBuild
  import opened JsonParse
  import opened JsonPrinted
  import opened JsonLex
  import opened JsonText
  import opened JsonRoundTrip
  import opened JsonShown

  /** What stands between quotes: characters as they are, and characters behind a backslash. */
  datatype Part = AsIs(c: char) | Escaped(c: char)

  datatype Lexeme = Punct(c: char) | Keyword(w: string) | Numeral(run: string) | Quotation(parts: seq<Part>)

  predicate Spaced(c: char) { c in {' ', '\t', '\n', '\U{0B}', '\U{0C}', '\r'} }

  predicate InNumeral(c: char) { Digit(c).Some? || c == '.' || c == 'e' || c == 'E' }

  predicate Blank(ws: string) {
    forall i :: 0 <= i < |ws| ==> Spaced(ws[i])
  }

  predicate IsNumeral(run: string) {
    run != "" && Digit(run[0]).Some? && forall i :: 0 <= i < |run| ==> InNumeral(run[i])
  }

  predicate Spellable(parts: seq<Part>) {
    forall i :: 0 <= i < |parts| ==> parts[i].AsIs? ==> parts[i].c != '"' && parts[i].c != '\\'
  }

  predicate Legal(l: Lexeme) {
    match l
    case Punct(c) => IsSign(c)
    case Keyword(w) => w == "true" || w == "false" || w == "null"
    case Numeral(run) => IsNumeral(run)
    case Quotation(parts) => Spellable(parts)
  }

  function Body(parts: seq<Part>): string {
    if parts == [] then ""
    else (if parts[0].AsIs? then [parts[0].c] else ['\\', parts[0].c]) + Body(parts[1..])
  }

  /** What is kept of it: a backslash stays, twice, and the character behind it is lost. */
  function Stored(parts: seq<Part>): string {
    if parts == [] then ""
    else (if parts[0].AsIs? then [parts[0].c] else "\\\\") + Stored(parts[1..])
  }

  function Spelling(l: Lexeme): string {
    match l
    case Punct(c) => [c]
    case Keyword(w) => w
    case Numeral(run) => run
    case Quotation(parts) => "\"" + (Body(parts) + "\"")
  }

  /** `n` and the digits that follow it, up to the first other character. */
  function Leading(n: nat, s: string): nat
    decreases |s|
  {
    if s != "" && Digit(s[0]).Some? then Leading(10 * n + Digit(s[0]).value, s[1..]) else n
  }

  function Clamped(n: nat): int {
    if n < 9223372036854775807 then n else 9223372036854775807
  }

  function Meant(l: Lexeme): Token {
    match l
    case Punct(c) =>
      if c == '{' then LBrace else if c == '}' then RBrace else if c == '[' then LBracket
      else if c == ']' then RBracket else if c == ',' then Comma else Colon
    case Keyword(w) => if w == "null" then NullTok else BoolTok(w == "true")
    case Numeral(run) => IntTok(Clamped(Leading(0, run)))
    case Quotation(parts) => StrTok(Stored(parts))
  }

  /** What a text may begin with after white space, with all that follows. */
  datatype Head =
    | More(l: Lexeme, rest: string)
    | LastNumeral(run: string)
    | Nothing
    | Nul(rest: string)
    | Minus(rest: string)
    | Unclosed(parts: seq<Part>, slash: bool)
    | Stray(s: string)

  /** No lexeme begins with this. */
  predicate IsStray(s: string) {
    && s != ""
    && !Spaced(s[0]) && !IsSign(s[0]) && Digit(s[0]).None? && s[0] != '"' && s[0] != '-' && s[0] != '\0'
    && !("true" <= s) && !("false" <= s) && !("null" <= s)
  }

  predicate Possible(h: Head) {
    match h
    case More(l, rest) => Legal(l) && (l.Numeral? ==> rest != "" && !InNumeral(rest[0]))
    case LastNumeral(run) => IsNumeral(run)
    case Unclosed(parts, _) => Spellable(parts)
    case Stray(s) => IsStray(s)
    case _ => true
  }

  function Written(h: Head): string {
    match h
    case More(l, rest) => Spelling(l) + rest
    case LastNumeral(run) => run
    case Nothing => ""
    case Nul(rest) => ['\0'] + rest
    case Minus(rest) => "-" + rest
    case Unclosed(parts, slash) => "\"" + (Body(parts) + if slash then "\\" else "")
    case Stray(s) => s
  }

  /** What the lexer makes of it. A number is a float only if its last character is a dot, and the last of the text. */
  function Reading(h: Head): Outcome {
    match h
    case More(l, rest) => Prepend([Meant(l)], Lex(rest))
    case LastNumeral(run) =>
      Lexed([if run != "" && run[|run| - 1] == '.' then FloatTok(run) else IntTok(Clamped(Leading(0, run))), Eof])
    case Nothing => Lexed([Eof])
    case Nul(_) => Lexed([Eof])
    case Minus(_) => Endless
    case Unclosed(_, _) => Lexed([ErrorTok])
    case Stray(_) => Lexed([ErrorTok])
  }

  lemma {:induction false} SameChars(c: char)
    ensures Spaced(c) <==> IsSpace(c)
    ensures Digit(c).Some? <==> IsDigit(c)
    ensures Digit(c).Some? ==> Digit(c).value == c as int - '0' as int
    ensures InNumeral(c) <==> IsNumberChar(c)
  {
  }

  lemma {:induction false} LeadingValue(p: string, s: string)
    requires forall i :: 0 <= i < |p| ==> IsDigit(p[i])
    ensures forall i :: 0 <= i < |p + DigitPrefix(s)| ==> IsDigit((p + DigitPrefix(s))[i])
    ensures Leading(Value(p), s) == Value(p + DigitPrefix(s))
    decreases |s|
  {
    hide Digit;
    DigitPrefixDigits(s);
    if s != "" {
      SameChars(s[0]);
      if IsDigit(s[0]) {
        var q := p + [s[0]];
        assert q[..|p|] == p;
        LeadingValue(q, s[1..]);
        assert q + DigitPrefix(s[1..]) == p + DigitPrefix(s);
      }
    }
    if s == "" || !IsDigit(s[0]) {
      assert p + DigitPrefix(s) == p;
    }
  }

  lemma {:induction false} ClampedIs(run: string)
    ensures Strtol(run) == Clamped(Leading(0, run))
  {
    assert Value("") == 0;
    DigitPrefixDigits(run);
    LeadingValue("", run);
    assert "" + DigitPrefix(run) == DigitPrefix(run);
  }

  lemma {:induction false} RunIs(run: string, rest: string)
    requires forall i :: 0 <= i < |run| ==> InNumeral(run[i])
    requires rest != "" ==> !InNumeral(rest[0])
    ensures NumberRun(run + rest) == run
  {
    hide Digit, InNumeral;
    if run != "" {
      assert (run + rest)[1..] == run[1..] + rest;
      SameChars(run[0]);
      RunIs(run[1..], rest);
    } else {
      assert run + rest == rest;
      if rest != "" {
        SameChars(rest[0]);
      }
    }
  }

  lemma {:induction false} StringIs(parts: seq<Part>, rest: string)
    requires Spellable(parts)
    ensures LexString(Body(parts) + ("\"" + rest)) == Some((Stored(parts), rest))
  {
    var t := Body(parts) + ("\"" + rest);
    LexStringStep(t);
    if parts == [] {
      assert t == "\"" + rest && t[1..] == rest;
    } else {
      StringIs(parts[1..], rest);
      if parts[0].AsIs? {
        assert t[1..] == Body(parts[1..]) + ("\"" + rest);
      } else {
        assert t[2..] == Body(parts[1..]) + ("\"" + rest);
      }
    }
  }

  lemma {:induction false} StringOpen(parts: seq<Part>, slash: bool)
    requires Spellable(parts)
    ensures LexString(Body(parts) + if slash then "\\" else "") == None
  {
    var t := Body(parts) + if slash then "\\" else "";
    LexStringStep(t);
    if parts == [] {
      assert t == if slash then "\\" else "";
      assert t != "" ==> t[1..] == "";
      LexStringStep("");
    } else {
      StringOpen(parts[1..], slash);
      if parts[0].AsIs? {
        assert t[1..] == Body(parts[1..]) + if slash then "\\" else "";
      } else {
        assert t[2..] == Body(parts[1..]) + if slash then "\\" else "";
      }
    }
  }

  /** A lexeme is one token; a number is one with all its dots and exponents, and only its first digits count. */
  lemma {:induction false} LexesLexeme(l: Lexeme, rest: string)
    requires Possible(More(l, rest))
    ensures Lex(Spelling(l) + rest) == Prepend([Meant(l)], Lex(rest))
  {
    hide Lex, LexToken, Spelling, Meant;
    TokenIs(l, rest);
    LexOne(Spelling(l) + rest, Meant(l), rest);
  }

  lemma {:induction false} TokenIs(l: Lexeme, rest: string)
    requires Possible(More(l, rest))
    ensures LexToken(Spelling(l) + rest) == (Meant(l), rest) && Spelling(l) != ""
    ensures Meant(l) != Eof && Meant(l) != ErrorTok
  {
    hide LexToken, Digit, Spellable, Body, Stored, InNumeral, Leading, Clamped;
    match l
    case Punct(c) => PunctToken(c, rest);
    case Keyword(w) => WordToken(w, rest);
    case Numeral(run) => NumberToken(run, rest);
    case Quotation(parts) => QuoteToken(parts, rest);
  }

  lemma {:induction false} PunctToken(c: char, rest: string)
    requires IsSign(c)
    ensures LexToken([c] + rest) == (Meant(Punct(c)), rest)
  {
    hide Digit, LexString, LexNumber;
    var s := [c] + rest;
    assert s[1..] == rest;
    NotBlank(s);
  }

  lemma {:induction false} WordToken(w: string, rest: string)
    requires w == "true" || w == "false" || w == "null"
    ensures LexToken(w + rest) == (Meant(Keyword(w)), rest)
  {
    hide Digit, LexString, LexNumber, SkipSpaces;
    var s := w + rest;
    assert s[|w|..] == rest && w <= s;
    NotBlank(s);
  }

  lemma {:induction false} QuoteToken(parts: seq<Part>, rest: string)
    requires Spellable(parts)
    ensures LexToken("\"" + (Body(parts) + "\"") + rest) == (StrTok(Stored(parts)), rest)
  {
    hide Digit, LexString, LexNumber, SkipSpaces, Body, Stored, Spellable;
    var s := "\"" + (Body(parts) + "\"") + rest;
    assert s[1..] == Body(parts) + ("\"" + rest);
    StringIs(parts, rest);
    NotBlank(s);
  }

  lemma {:induction false} NotBlank(s: string)
    requires s != "" && !Spaced(s[0])
    ensures SkipSpaces(s) == s
  {
    SameChars(s[0]);
  }

  lemma {:induction false} NumberToken(run: string, rest: string)
    requires IsNumeral(run) && (rest != "" ==> !InNumeral(rest[0]))
    ensures LexToken(run + rest)
            == (if rest == "" && run[|run| - 1] == '.' then FloatTok(run) else IntTok(Clamped(Leading(0, run))), rest)
  {
    hide Digit, InNumeral, Strtol, Leading, LexToken, NumberRun;
    var s := run + rest;
    SameChars(run[0]);
    RunIs(run, rest);
    ClampedIs(run);
    assert s[|run|..] == rest;
    NotSigned(s);
  }

  lemma {:induction false} NotSigned(s: string)
    requires s != "" && IsDigit(s[0])
    ensures LexToken(s) == LexNumber(s)
  {
  }

  /** What the lexer makes of every beginning, after any white space. */
  lemma {:induction false} LexesHead(ws: string, h: Head)
    requires Blank(ws) && Possible(h)
    ensures Lex(ws + Written(h)) == Reading(h)
  {
    hide Lex, Written, Reading, Possible, Spaced;
    forall i | 0 <= i < |ws| ensures IsSpace(ws[i]) {
      SameChars(ws[i]);
    }
    LexSpaces(ws, Written(h));
    LexesBare(h);
  }

  lemma {:induction false} LexesBare(h: Head)
    requires Possible(h)
    ensures Lex(Written(h)) == Reading(h)
  {
    hide Lex, LexNumber, LexString, Digit, InNumeral, Legal, IsStray, Spellable, Leading, Clamped;
    match h
    case More(l, rest) => LexesLexeme(l, rest);
    case LastNumeral(run) =>
      assert run + "" == run;
      NumberToken(run, "");
      Ends("");
      LexStep(run);
    case Nothing => Ends("");
    case Nul(rest) => Ends(['\0'] + rest);
    case Minus(rest) => EndlessAtMinus(rest);
    case Unclosed(parts, slash) =>
      var s := Written(h);
      StringOpen(parts, slash);
      assert s[1..] == Body(parts) + if slash then "\\" else "";
      LexStep(s);
    case Stray(s) =>
      StrayToken(s);
      LexStep(s);
  }

  lemma {:induction false} Ends(s: string)
    requires s == "" || s[0] == '\0'
    ensures Lex(s) == Lexed([Eof])
  {
  }

  lemma {:induction false} StrayToken(s: string)
    requires IsStray(s)
    ensures LexToken(s).0 == ErrorTok
  {
    SameChars(s[0]);
  }

  /** Every text begins in one of these ways. */
  lemma {:induction false} Covers(text: string) returns (ws: string, h: Head)
    ensures Blank(ws) && Possible(h) && text == ws + Written(h)
    decreases |text|
  {
    hide Digit, Spaced, Written, Possible;
    if text != "" && Spaced(text[0]) {
      ws, h := Covers(text[1..]);
      ws := [text[0]] + ws;
    } else {
      ws := "";
      h := CoversBare(text);
    }
  }

  lemma {:induction false} CoversBare(text: string) returns (h: Head)
    requires text == "" || !Spaced(text[0])
    ensures Possible(h) && text == Written(h)
  {
    hide Digit, Spaced, Body, IsNumeral;
    if text == "" {
      h := Nothing;
    } else if IsSign(text[0]) {
      h := More(Punct(text[0]), text[1..]);
    } else if "true" <= text || "false" <= text || "null" <= text {
      h := CoversWord(text);
    } else if Digit(text[0]).Some? {
      h := CoversNumeral(text);
    } else if text[0] == '"' {
      h := CoversQuote(text);
    } else if text[0] == '-' {
      h := Minus(text[1..]);
    } else if text[0] == '\0' {
      h := Nul(text[1..]);
    } else {
      h := Stray(text);
    }
  }

  lemma {:induction false} CoversWord(text: string) returns (h: Head)
    requires "true" <= text || "false" <= text || "null" <= text
    ensures Possible(h) && text == Written(h)
  {
    var n := if "false" <= text then 5 else 4;
    h := More(Keyword(text[..n]), text[n..]);
  }

  lemma {:induction false} CoversNumeral(text: string) returns (h: Head)
    requires text != "" && Digit(text[0]).Some?
    ensures Possible(h) && text == Written(h)
  {
    hide Digit, IsNumeral, InNumeral;
    var run, rest := Run(text);
    assert run + "" == run;
    h := if rest == "" then LastNumeral(run) else More(Numeral(run), rest);
  }

  lemma {:induction false} CoversQuote(text: string) returns (h: Head)
    requires text != "" && text[0] == '"'
    ensures Possible(h) && text == Written(h)
  {
    hide Body, Spellable;
    var parts, end := Quotes(text[1..]);
    assert text == "\"" + text[1..];
    if end == "" || end == "\\" {
      h := Unclosed(parts, end != "");
    } else {
      assert end == "\"" + end[1..];
      h := More(Quotation(parts), end[1..]);
      assert text == "\"" + (Body(parts) + "\"") + end[1..];
    }
  }

  lemma {:induction false} Run(s: string) returns (run: string, rest: string)
    ensures s == run + rest && (rest != "" ==> !InNumeral(rest[0]))
    ensures forall i :: 0 <= i < |run| ==> InNumeral(run[i])
    ensures s != "" && Digit(s[0]).Some? ==> IsNumeral(run)
  {
    hide Digit;
    if s != "" && InNumeral(s[0]) {
      run, rest := Run(s[1..]);
      run := [s[0]] + run;
    } else {
      run, rest := "", s;
    }
  }

  lemma {:induction false} Quotes(s: string) returns (parts: seq<Part>, end: string)
    ensures Spellable(parts) && s == Body(parts) + end
    ensures end == "" || end == "\\" || end[0] == '"'
    decreases |s|
  {
    hide Body;
    BodyStep([]);
    if s == "" || s == "\\" || s[0] == '"' {
      parts, end := [], s;
      assert "" + s == s;
    } else {
      var part := if s[0] == '\\' then Escaped(s[1]) else AsIs(s[0]);
      var head, tail := if part.AsIs? then [s[0]] else ['\\', s[1]], if part.AsIs? then s[1..] else s[2..];
      parts, end := Quotes(tail);
      Assoc(head, Body(parts), end);
      assert s == head + tail;
      BodyStep([part] + parts);
      assert ([part] + parts)[1..] == parts;
      parts := [part] + parts;
    }
  }

  lemma {:induction false} BodyStep(parts: seq<Part>)
    ensures Body(parts) == if parts == [] then ""
                           else (if parts[0].AsIs? then [parts[0].c] else ['\\', parts[0].c]) + Body(parts[1..])
  {
  }

  /** Behind a value the text must still be spelled right to its end, but what it says is ignored. */
  lemma {:induction false} WhatFollows(hash: string -> nat, fmt: string -> string, v: Node, h: Head)
    requires Lexable(v) && CommasRight(v) && Height(v) <= 32 && Possible(h)
    ensures Parse(hash, Stringify(fmt, v) + Written(h))
            == match Reading(h)
               case Endless => NeverEnds
               case Lexed(ts) => if ts[|ts| - 1] == Eof then Tree(Built(hash, v)) else Refused
  {
    hide Lex, Text, Written, Reading, Possible, Analyze, Lexable, CommasRight, Height, Built, PrintedToks, Spelled;
    LexesText(fmt, v, 0, "\n" + Written(h));
    assert Text(fmt, v, 0) + ("\n" + Written(h)) == Stringify(fmt, v) + Written(h);
    LexesHead("\n", h);
    if Reading(h).Lexed? {
      PrintedExact(v, Reading(h).tokens, 0);
      SpelledBuilt(hash, v);
    }
  }
}
