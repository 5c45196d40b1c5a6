/** An independent reading of indented text: which bracket closes which, where lines begin, and where commas
    stand. */
module Layout {
  /** An open bracket, and whether nothing stands in it yet. */
  datatype Open = Open(bracket: char, empty: bool)

  /** The spaces that a text begins with. */
  function Blanks(s: string): (n: nat)
    ensures n <= |s|
  {
    if s != "" && s[0] == ' ' then 1 + Blanks(s[1..]) else 0
  }

  /** Text with each bracket closed by its partner, at the start of a line; with what stands in brackets on lines of
      its own, four spaces further in than the lines of the brackets; with a comma at the end of a line exactly when
      the line that follows does not close. */
  predicate Laid(s: string, open: seq<Open>, comma: bool)
    decreases |s|
  {
    if s == "" then open == [] && !comma
    else if s[0] == '\n' then
      var n := Blanks(s[1..]);
      var rest := s[1 + n..];
      if rest == "" then n == 0 && open == [] && !comma
      else if open == [] then false
      else
        var below, top := open[..|open| - 1], open[|open| - 1];
        if rest[0] == '}' then n == 4 * |below| && !comma && top.bracket == '{' && Laid(rest[1..], below, false)
        else if rest[0] == ']' then n == 4 * |below| && !comma && top.bracket == '[' && Laid(rest[1..], below, false)
        else n == 4 * |open| && comma == !top.empty && Laid(rest, below + [Open(top.bracket, false)], false)
    else
      && !comma
      && if s[0] == '{' || s[0] == '[' then Laid(s[1..], open + [Open(s[0], true)], false)
         else s[0] != '}' && s[0] != ']' && Laid(s[1..], open, s[0] == ',')
  }

  /** A line break and the indentation. */
  function Line(depth: nat): (s: string)
    ensures s != "" && s[0] == '\n'
  {
    if depth == 0 then "\n" else Line(depth - 1) + "    "
  }

  /** Without brackets, commas and line breaks. */
  predicate Clean(s: string) {
    forall i :: 0 <= i < |s| ==> s[i] !in {'{', '}', '[', ']', ',', '\n'}
  }

  /** What may stand behind a value that is inside brackets. */
  predicate Follows(rest: string) {
    rest != "" && (rest[0] == ',' || rest[0] == '\n')
  }

  /** What may stand at the beginning of a line, after the indentation. */
  predicate Begins(s: string) {
    s != "" && s[0] !in {' ', '}', ']'}
  }

  lemma {:induction false} LaidClean(s: string, rest: string, open: seq<Open>)
    requires Clean(s)
    ensures Laid(s + rest, open, false) == Laid(rest, open, false)
  {
    if s == "" {
      assert s + rest == rest;
    } else {
      assert (s + rest)[1..] == s[1..] + rest;
      LaidClean(s[1..], rest, open);
    }
  }

  lemma {:induction false} EmptyLaid()
    ensures Laid("", [], false)
  {
  }

  lemma {:induction false} LaidOpen(c: char, rest: string, open: seq<Open>)
    requires c == '{' || c == '['
    ensures Laid([c] + rest, open, false) == Laid(rest, open + [Open(c, true)], false)
  {
    assert ([c] + rest)[1..] == rest;
  }

  lemma {:induction false} LaidComma(rest: string, open: seq<Open>)
    ensures Laid("," + rest, open, false) == Laid(rest, open, true)
  {
    assert ("," + rest)[1..] == rest;
  }

  lemma {:induction false} BlanksIn(depth: nat, rest: string)
    requires rest != "" && rest[0] != ' '
    ensures |Line(depth)| == 1 + 4 * depth && Blanks((Line(depth) + rest)[1..]) == 4 * depth
    ensures (Line(depth) + rest)[1 + 4 * depth..] == rest
  {
    if depth == 0 {
      assert (Line(0) + rest)[1..] == rest;
    } else {
      assert Line(depth) + rest == Line(depth - 1) + ("    " + rest);
      FourMore(depth - 1, rest);
    }
  }

  lemma {:induction false} FourMore(depth: nat, rest: string)
    requires rest != "" && rest[0] != ' '
    ensures |Line(depth)| == 1 + 4 * depth
    ensures Blanks((Line(depth) + ("    " + rest))[1..]) == 4 * (depth + 1)
  {
    LineSpaces(depth);
    var s := (Line(depth) + ("    " + rest))[1..];
    assert forall i :: 0 <= i < 4 * (depth + 1) ==> s[i] == ' ';
    assert s[4 * (depth + 1)] == rest[0];
    BlanksAre(s, 4 * (depth + 1));
  }

  lemma {:induction false} LineSpaces(depth: nat)
    ensures |Line(depth)| == 1 + 4 * depth && forall i :: 1 <= i < |Line(depth)| ==> Line(depth)[i] == ' '
  {
    if depth > 0 {
      LineSpaces(depth - 1);
    }
  }

  lemma {:induction false} BlanksAre(s: string, n: nat)
    requires n < |s| && s[n] != ' ' && forall i :: 0 <= i < n ==> s[i] == ' '
    ensures Blanks(s) == n
  {
    if n > 0 {
      BlanksAre(s[1..], n - 1);
    }
  }

  /** A line that holds an item. */
  lemma {:induction false} LaidLine(rest: string, below: seq<Open>, top: Open, comma: bool)
    requires Begins(rest)
    ensures Laid(Line(|below| + 1) + rest, below + [top], comma)
            == (comma == !top.empty && Laid(rest, below + [Open(top.bracket, false)], false))
  {
    var open := below + [top];
    BlanksIn(|open|, rest);
    assert open[..|open| - 1] == below;
  }

  /** A line that begins with the closing bracket. */
  lemma {:induction false} LaidEnd(c: char, rest: string, below: seq<Open>, top: Open, comma: bool)
    requires (c == '}' && top.bracket == '{') || (c == ']' && top.bracket == '[')
    ensures Laid(Line(|below|) + ([c] + rest), below + [top], comma) == (!comma && Laid(rest, below, false))
  {
    var open := below + [top];
    BlanksIn(|below|, [c] + rest);
    assert open[..|open| - 1] == below && ([c] + rest)[1..] == rest;
  }
}
