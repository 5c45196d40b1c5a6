/** The JSON lexer. */
module JsonLex {
  import opened Bytes
  import opened Wrappers
  import opened JsonTree

  predicate IsSpace(c: char) { c == ' ' || '\t' <= c <= '\r' }

  predicate IsDigit(c: char) { '0' <= c <= '9' }

  /** is_valid_number_char as lex_number calls it: neither flag is ever set inside its loop. */
  predicate IsNumberChar(c: char) { IsDigit(c) || c == '.' || c == 'e' || c == 'E' }

  function SkipSpaces(s: string): string {
    if s != [] && IsSpace(s[0]) then SkipSpaces(s[1..]) else s
  }

  /** lex_string after the opening quote: a backslash swallows the next character and comes out
      twice. */
  function LexString(s: string): Option<(string, string)> {
    if s == [] then None
    else if s[0] == '"' then Some(([], s[1..]))
    else
      var skipped := if s[0] == '\\' && |s| > 1 then s[2..] else s[1..];
      var read := if s[0] == '\\' then ['\\', '\\'] else [s[0]];
      Joined(read, LexString(skipped))
  }

  function Joined(read: string, o: Option<(string, string)>): Option<(string, string)> {
    match o
    case None => None
    case Some((value, rest)) => Some((read + value, rest))
  }

  lemma {:induction false} JoinedNone(o: Option<(string, string)>)
    ensures Joined("", o) == o
  {
    assert o.Some? ==> "" + o.value.0 == o.value.0;
  }

  lemma {:induction false} JoinedTwice(a: string, b: string, o: Option<(string, string)>)
    ensures Joined(a, Joined(b, o)) == Joined(a + b, o)
  {
    if o.Some? {
      Assoc(a, b, o.value.0);
    }
  }

  lemma {:induction false} LexStringStep(s: string)
    ensures LexString(s) ==
            if s == [] then None
            else if s[0] == '"' then Some(([], s[1..]))
            else Joined(if s[0] == '\\' then ['\\', '\\'] else [s[0]],
                        LexString(if s[0] == '\\' && |s| > 1 then s[2..] else s[1..]))
  {
  }

  /** The longest prefix lex_number takes. */
  function NumberRun(s: string): (run: string)
    ensures run <= s
  {
    if s != [] && IsNumberChar(s[0]) then [s[0]] + NumberRun(s[1..]) else []
  }

  lemma {:induction false} NumberRunStep(s: string)
    ensures NumberRun(s) == if s != [] && IsNumberChar(s[0]) then [s[0]] + NumberRun(s[1..]) else []
  {
  }

  function DigitPrefix(s: string): string {
    if s != [] && IsDigit(s[0]) then [s[0]] + DigitPrefix(s[1..]) else []
  }

  function Value(digits: string): (n: int)
    requires forall i :: 0 <= i < |digits| ==> IsDigit(digits[i])
    ensures n >= 0
  {
    if digits == [] then 0
    else
      assert IsDigit(digits[|digits| - 1]);
      10 * Value(digits[..|digits| - 1]) + (digits[|digits| - 1] as int - '0' as int)
  }

  lemma {:induction false} DigitPrefixDigits(s: string)
    ensures forall i :: 0 <= i < |DigitPrefix(s)| ==> IsDigit(DigitPrefix(s)[i])
  {
    if s != [] && IsDigit(s[0]) {
      DigitPrefixDigits(s[1..]);
    }
  }

  /** strtol, base 10, on what lex_number collects: digits up to the first other character, clamped
      to the range of long. */
  function Strtol(run: string): (n: int)
    ensures 0 <= n <= LONG_MAX
  {
    DigitPrefixDigits(run);
    var n := Value(DigitPrefix(run));
    if n > LONG_MAX then LONG_MAX else n
  }

  /** lex_number. The character tested for a fraction is the one after the number, unless the buffer
      ends there: only a dot at the very end of the text makes a float. A minus sign is not consumed. */
  function LexNumber(s: string): (Token, string) {
    var run := NumberRun(s);
    var rest := s[|run|..];
    if run != [] && rest == [] && run[|run| - 1] == '.' then (FloatTok(run), rest) else (IntTok(Strtol(run)), rest)
  }

  /** lex_token. */
  function LexToken(text: string): (r: (Token, string))
    ensures |r.1| <= |text|
  {
    SkipSpacesSuffix(text);
    var s := SkipSpaces(text);
    if s == [] || s[0] == '\0' then (Eof, s)
    else if s[0] == '{' then (LBrace, s[1..])
    else if s[0] == '}' then (RBrace, s[1..])
    else if s[0] == '[' then (LBracket, s[1..])
    else if s[0] == ']' then (RBracket, s[1..])
    else if s[0] == ',' then (Comma, s[1..])
    else if s[0] == ':' then (Colon, s[1..])
    else if s[0] == '"' then
      LexStringSuffix(s[1..]);
      match LexString(s[1..])
      case None => (ErrorTok, [])
      case Some((value, rest)) => (StrTok(value), rest)
    else if s[0] == 't' then if "true" <= s then (BoolTok(true), s[4..]) else (ErrorTok, [])
    else if s[0] == 'f' then if "false" <= s then (BoolTok(false), s[5..]) else (ErrorTok, [])
    else if s[0] == 'n' then if "null" <= s then (NullTok, s[4..]) else (ErrorTok, [])
    else if IsDigit(s[0]) || s[0] == '-' then LexNumber(s)
    else (ErrorTok, s)
  }

  lemma {:induction false} SkipSpacesSuffix(s: string)
    ensures |SkipSpaces(s)| <= |s| && SkipSpaces(s) == s[|s| - |SkipSpaces(s)|..]
  {
    if s != [] && IsSpace(s[0]) {
      SkipSpacesSuffix(s[1..]);
    }
  }

  lemma {:induction false} LexStringSuffix(s: string)
    ensures LexString(s).Some? ==>
              |LexString(s).value.1| < |s| && LexString(s).value.1 == s[|s| - |LexString(s).value.1|..]
  {
    if s != [] && s[0] != '"' {
      var skipped := if s[0] == '\\' && |s| > 1 then s[2..] else s[1..];
      LexStringSuffix(skipped);
    }
  }

  /** A list of tokens that ends in EOF or an error, or a lexer that stopped making progress: the
      loop of json_lex then adds the same token for ever. */
  datatype Outcome = Lexed(tokens: seq<Token>) | Endless

  function Prepend(ts: seq<Token>, o: Outcome): Outcome {
    if o.Lexed? then Lexed(ts + o.tokens) else Endless
  }

  /** json_lex. */
  function Lex(text: string): (o: Outcome)
    ensures o.Lexed? ==> o.tokens != []
    decreases |text|
  {
    var (tok, rest) := LexToken(text);
    if tok == Eof || tok == ErrorTok then Lexed([tok])
    else if |rest| == |text| then Endless
    else Prepend([tok], Lex(rest))
  }

  lemma {:induction false} PrependTwice(a: seq<Token>, b: seq<Token>, o: Outcome)
    ensures Prepend(a, Prepend(b, o)) == Prepend(a + b, o)
  {
    if o.Lexed? {
      Assoc(a, b, o.tokens);
    }
  }

  /** White space before a token does not matter. */
  lemma {:induction false} LexSpace(c: char, s: string)
    requires IsSpace(c)
    ensures Lex([c] + s) == Lex(s)
  {
    assert ([c] + s)[1..] == s;
    assert LexToken([c] + s) == LexToken(s);
    var (tok, rest) := LexToken(s);
    if tok != Eof && tok != ErrorTok && |rest| == |s| {
      SkipSpacesSuffix(s);
      NoProgress(s);
    }
  }

  lemma {:induction false} LexSpaces(ws: string, s: string)
    requires forall i :: 0 <= i < |ws| ==> IsSpace(ws[i])
    ensures Lex(ws + s) == Lex(s)
  {
    hide Lex;
    if ws != [] {
      assert ws + s == [ws[0]] + (ws[1..] + s);
      LexSpace(ws[0], ws[1..] + s);
      LexSpaces(ws[1..], s);
    } else {
      assert ws + s == s;
    }
  }

  /** The only token that consumes nothing is the number a minus sign starts. */
  lemma {:induction false} NoProgress(s: string)
    requires var (tok, rest) := LexToken(s); tok != Eof && tok != ErrorTok && |rest| == |s|
    ensures s != [] && s[0] == '-' && LexToken(s) == (IntTok(0), s)
  {
    SkipSpacesSuffix(s);
    var t := SkipSpaces(s);
    if t != [] && t[0] == '"' {
      LexStringSuffix(t[1..]);
    }
  }

  lemma {:induction false} LexStep(s: string)
    ensures var (tok, rest) := LexToken(s);
            Lex(s) == if tok == Eof || tok == ErrorTok then Lexed([tok])
                      else if |rest| == |s| then Endless
                      else Prepend([tok], Lex(rest))
  {
  }

  /** One token at the head of the text. */
  lemma {:induction false} LexOne(s: string, tok: Token, rest: string)
    requires LexToken(s) == (tok, rest) && tok != Eof && tok != ErrorTok && |rest| < |s|
    ensures Lex(s) == Prepend([tok], Lex(rest))
  {
  }

  /** A minus sign where a token is due keeps the lexer there for ever. */
  lemma {:induction false} EndlessAtMinus(s: string)
    ensures Lex("-" + s) == Endless
  {
    var t := "-" + s;
    assert NumberRun(t) == [] && DigitPrefix([]) == [] && t[0..] == t;
    assert LexToken(t).1 == t;
  }
}
