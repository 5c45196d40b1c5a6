/** The text of a tree as SNBT, told without the writer: a recursive pretty-printer with the brackets, the prefixes
    and the indentation written out. */
module SnbtText {
  import opened Bytes
  import opened NbtTree
  import opened Layout

  /** What printf makes of numbers and of byte strings; left open. */
  datatype Printf = Printf(number: Tag -> string, chars: seq<byte> -> string)

  /** Children stand on lines of their own, one level deeper, with a comma behind each but the last; the closing
      bracket stands at the level of the container. Below a compound, and only there, a name comes first. */
  function Pretty(p: Printf, t: Tree, depth: nat): string
    decreases t, 1
  {
    var typ := t.tag.typ;
    if 1 <= typ <= 6 then p.number(t.tag)
    else if typ == 8 then if t.tag.data.Text? then "\"" + p.chars(t.tag.data.chars) + "\"" else ""
    else if typ == 10 then "{" + Children(p, t.kids, true, depth + 1, true) + (Line(depth) + "}")
    else if typ == 9 then "[" + Children(p, t.kids, false, depth + 1, true) + (Line(depth) + "]")
    else if typ == 7 then "[B;" + Children(p, t.kids, false, depth + 1, true) + (Line(depth) + "]")
    else if typ == 11 then "[I;" + Children(p, t.kids, false, depth + 1, true) + (Line(depth) + "]")
    else if typ == 12 then "[L;" + Children(p, t.kids, false, depth + 1, true) + (Line(depth) + "]")
    else ""
  }

  function Children(p: Printf, ts: seq<Tree>, named: bool, depth: nat, first: bool): string
    decreases ts, 0
  {
    if ts == [] then ""
    else
      Before(p, ts[0].tag, named, depth, first) + Pretty(p, ts[0], depth)
      + Children(p, ts[1..], named, depth, false)
  }

  /** What comes before a child. */
  function Before(p: Printf, tag: Tag, named: bool, depth: nat, first: bool): string {
    (if first then "" else ",") + Line(depth) + Name(p, tag, named)
  }

  function Name(p: Printf, tag: Tag, named: bool): string {
    if named then "'" + p.chars(tag.name) + "': " else ""
  }

  /** Trees whose names, strings and numbers are printed without brackets, commas and line breaks. */
  predicate Tidy(p: Printf, t: Tree) {
    && Clean(p.chars(t.tag.name))
    && Clean(p.number(t.tag)) && (p.number(t.tag) != "" ==> p.number(t.tag)[0] != ' ')
    && (t.tag.data.Text? ==> Clean(p.chars(t.tag.data.chars)))
    && forall i :: 0 <= i < |t.kids| ==> Tidy(p, t.kids[i])
  }

  /** The text is read as one value with all its brackets closed by their partners. */
  lemma {:induction false} PrettyLaid(p: Printf, t: Tree, rest: string, open: seq<Open>)
    requires Tidy(p, t)
    ensures Laid(Pretty(p, t, |open|) + rest, open, false) == Laid(rest, open, false)
    ensures Follows(rest) ==> Begins(Pretty(p, t, |open|) + rest)
    decreases t, 1
  {
    hide Laid, Children, Line;
    var typ := t.tag.typ;
    if typ == 10 {
      BracketsLaid(p, t.kids, true, "{", '}', rest, open);
    } else if typ == 9 {
      BracketsLaid(p, t.kids, false, "[", ']', rest, open);
    } else if typ == 7 {
      BracketsLaid(p, t.kids, false, "[B;", ']', rest, open);
    } else if typ == 11 {
      BracketsLaid(p, t.kids, false, "[I;", ']', rest, open);
    } else if typ == 12 {
      BracketsLaid(p, t.kids, false, "[L;", ']', rest, open);
    } else {
      LaidClean(Pretty(p, t, |open|), rest, open);
    }
  }

  lemma {:induction false} BracketsLaid(p: Printf, ts: seq<Tree>, named: bool, start: string, d: char, rest: string,
                                        open: seq<Open>)
    requires start != "" && ((start[0] == '{' && d == '}') || (start[0] == '[' && d == ']'))
    requires Clean(start[1..]) && forall i :: 0 <= i < |ts| ==> Tidy(p, ts[i])
    ensures Laid(start + Children(p, ts, named, |open| + 1, true) + (Line(|open|) + [d]) + rest, open, false)
            == Laid(rest, open, false)
    decreases ts, 2
  {
    hide Laid, Children, Line, Tidy;
    var kids, end := Children(p, ts, named, |open| + 1, true), Line(|open|) + ([d] + rest);
    assert start + kids + (Line(|open|) + [d]) + rest == [start[0]] + (start[1..] + (kids + end));
    LaidOpen(start[0], start[1..] + (kids + end), open);
    LaidClean(start[1..], kids + end, open + [Open(start[0], true)]);
    ChildrenLaid(p, ts, named, end, open, Open(start[0], true));
    LaidEnd(d, rest, open, Open(start[0], ts == []), false);
  }

  lemma {:induction false} ChildrenLaid(p: Printf, ts: seq<Tree>, named: bool, rest: string, below: seq<Open>, top: Open)
    requires (forall i :: 0 <= i < |ts| ==> Tidy(p, ts[i])) && Follows(rest)
    ensures Laid(Children(p, ts, named, |below| + 1, top.empty) + rest, below + [top], false)
            == Laid(rest, below + [Open(top.bracket, top.empty && ts == [])], false)
    ensures Follows(Children(p, ts, named, |below| + 1, top.empty) + rest)
    decreases ts, 0
  {
    hide Laid, Line, Pretty, Follows, Begins, Clean, Tidy, Children;
    NextChild(p, ts, named, |below| + 1, top.empty, rest);
    if ts != [] {
      var depth, used := |below| + 1, Open(top.bracket, false);
      var more := Children(p, ts[1..], named, depth, false) + rest;
      ChildrenLaid(p, ts[1..], named, rest, below, used);
      PrettyLaid(p, ts[0], more, below + [used]);
      ItemLaid(p, ts[0], named, Pretty(p, ts[0], depth) + more, below, top);
    }
  }

  lemma {:induction false} NextChild(p: Printf, ts: seq<Tree>, named: bool, depth: nat, first: bool, rest: string)
    ensures Children(p, ts, named, depth, first) + rest ==
            if ts == [] then rest
            else Before(p, ts[0].tag, named, depth, first)
                 + (Pretty(p, ts[0], depth) + (Children(p, ts[1..], named, depth, false) + rest))
  {
    hide Before, Pretty;
  }

  lemma {:induction false} BeforeIs(p: Printf, tag: Tag, named: bool, depth: nat, first: bool, rest: string)
    ensures var line := Line(depth) + (Name(p, tag, named) + rest);
            Before(p, tag, named, depth, first) + rest == if first then line else "," + line
  {
    hide Line;
  }

  lemma {:induction false} NameClean(p: Printf, tag: Tag, named: bool, rest: string)
    requires Clean(p.chars(tag.name)) && Begins(rest)
    ensures Clean(Name(p, tag, named)) && Begins(Name(p, tag, named) + rest)
  {
  }

  lemma {:induction false} ItemLaid(p: Printf, t: Tree, named: bool, rest: string, below: seq<Open>, top: Open)
    requires Tidy(p, t) && Begins(rest)
    ensures Laid(Before(p, t.tag, named, |below| + 1, top.empty) + rest, below + [top], false)
            == Laid(rest, below + [Open(top.bracket, false)], false)
    ensures Follows(Before(p, t.tag, named, |below| + 1, top.empty) + rest)
  {
    hide Laid, Line, Before, Name, Clean, Begins;
    var name := Name(p, t.tag, named);
    var line := Line(|below| + 1) + (name + rest);
    BeforeIs(p, t.tag, named, |below| + 1, top.empty, rest);
    NameClean(p, t.tag, named, rest);
    LaidClean(name, rest, below + [Open(top.bracket, false)]);
    LaidLine(name + rest, below, top, !top.empty);
    LaidComma(line, below + [top]);
  }
}
