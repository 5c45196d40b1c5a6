/** The SNBT writer: the preorder array printed as indented text. */
module Snbt {
  import opened Bytes
  import opened Wrappers
  import opened NbtTree
  import opened FlatWalk
  import opened Layout
  import opened SnbtText

  const SPACES_PER_INDENT: nat := 4

  function Spaces(n: nat): (s: string)
    ensures |s| == n && forall i :: 0 <= i < n ==> s[i] == ' '
  {
    seq(n, _ => ' ')
  }

  function Value(p: Printf, tag: Tag): string {
    if IsNumber(tag.typ) then p.number(tag)
    else if tag.typ == STRING then if tag.data.Text? then "\"" + p.chars(tag.data.chars) + "\"" else ""
    else if tag.typ == LIST then "["
    else if tag.typ == COMPOUND then "{"
    else if tag.typ == BYTE_ARRAY then "[B;"
    else if tag.typ == INT_ARRAY then "[I;"
    else if tag.typ == LONG_ARRAY then "[L;"
    else ""
  }

  function Label(p: Printf, tag: Tag): string {
    "'" + p.chars(tag.name) + "': "
  }

  function Separator(parent: Option<Entry>): string {
    if parent.None? then "" else (if parent.value.left < DeclaredCount(parent.value.tag) then "," else "") + "\n"
  }

  /** Everything written before the value of a tag. */
  function Lead(p: Printf, parent: Option<Entry>, depth: nat, tag: Tag): string {
    Separator(parent) + Spaces(SPACES_PER_INDENT * depth)
    + if parent.Some? && IsNotArray(parent.value.tag.typ) then Label(p, tag) else ""
  }

  function CloseText(tag: Tag, depth: nat): string {
    "\n" + Spaces(SPACES_PER_INDENT * depth) + if tag.typ == COMPOUND then "}" else "]"
  }

  function SNBT(p: Printf): Emitter<char> {
    Emitter((parent, depth, tag) => Lead(p, parent, depth, tag) + Value(p, tag), CloseText, DeclaredCount)
  }

  /** nbt_write_snbt. */
  class Writer {
    const p: Printf
    var stack: seq<Entry>
    var output: string

    constructor (p: Printf)
      ensures this.p == p && stack == [] && output == []
    {
      this.p := p;
      stack, output := [], [];
    }

    method WriteIndent()
      modifies this`output
      ensures output == old(output) + Spaces(SPACES_PER_INDENT * |stack|)
    {
      var max := |stack| * SPACES_PER_INDENT;
      var i := 0;
      while i < max
        invariant 0 <= i <= max
        invariant output == old(output) + Spaces(i)
      {
        output := output + [' '];
        i := i + 1;
        assert Spaces(i) == Spaces(i - 1) + [' '];
      }
    }

    method WriteSeparator()
      modifies this`output
      ensures output == old(output) + Separator(Parent(stack))
    {
      if stack != [] {
        if Top(stack).left < DeclaredCount(Top(stack).tag) {
          output := output + ",";
        }
        output := output + "\n";
      }
    }

    method WriteLead(tag: Tag)
      modifies this
      ensures output == old(output) + Lead(p, Parent(old(stack)), |old(stack)|, tag)
      ensures stack == Taken(old(stack))
    {
      hide Separator, Spaces;
      WriteSeparator();
      WriteIndent();
      if stack != [] {
        if IsNotArray(Top(stack).tag.typ) {
          output := output + Label(p, tag);
        }
        stack := Front(stack) + [Top(stack).(left := Top(stack).left - 1)];
      }
    }

    /** write_snbt_tag; it fails on a full stack, where the source writes through a null pointer. */
    method WriteTag(tag: Tag) returns (ok: bool)
      requires DataFits(tag)
      modifies this
      ensures ok == !(IsContainer(tag.typ) && |old(stack)| >= MAX_DEPTH)
      ensures output == old(output) + SNBT(p).open(Parent(old(stack)), |old(stack)|, tag)
      ensures ok ==> stack == Entered(SNBT(p), old(stack), tag)
    {
      hide Lead;
      ghost var before := output;
      WriteLead(tag);
      ghost var lead := output;
      ok := true;
      if IsNumber(tag.typ) {
        output := output + p.number(tag);
      } else if tag.typ == STRING {
        output := output + ("\"" + p.chars(tag.data.chars) + "\"");
      } else {
        if tag.typ == LIST {
          output := output + "[";
        } else if tag.typ == COMPOUND {
          output := output + "{";
        } else if tag.typ == BYTE_ARRAY {
          output := output + "[B;";
        } else if tag.typ == INT_ARRAY {
          output := output + "[I;";
        } else {
          output := output + "[L;";
        }
        ok := |stack| < MAX_DEPTH;
        if ok {
          stack := stack + [Entry(tag, DeclaredCount(tag))];
        }
      }
      assert output == lead + Value(p, tag);
    }

    method WriteClose(tag: Tag)
      modifies this`output
      ensures output == old(output) + CloseText(tag, |stack|)
    {
      hide Spaces;
      output := output + "\n";
      WriteIndent();
      output := output + if tag.typ == COMPOUND then "}" else "]";
    }

    method CloseFinished()
      modifies this
      ensures output == old(output) + ClosingText(SNBT(p), old(stack))
      ensures stack == Closing(old(stack))
    {
      hide CloseText;
      ghost var all := output + ClosingText(SNBT(p), stack);
      while stack != [] && Top(stack).left == 0
        invariant output + ClosingText(SNBT(p), stack) == all
        invariant Closing(stack) == Closing(old(stack))
        decreases |stack|
      {
        var parent := Top(stack);
        Assoc(output, CloseText(parent.tag, |stack| - 1), ClosingText(SNBT(p), Front(stack)));
        stack := Front(stack);
        WriteClose(parent.tag);
      }
    }

    method Write(tags: seq<Tag>) returns (ok: bool)
      requires forall i :: 0 <= i < |tags| ==> DataFits(tags[i])
      requires stack == []
      modifies this
      ensures ok == !Overflows(SNBT(p), tags, [])
      ensures ok ==> output == old(output) + Walk(SNBT(p), tags, [])
    {
      hide Walk, Overflows, Closing, ClosingText, Entered, Parent, SNBT;
      var i := 0;
      while i < |tags|
        invariant 0 <= i <= |tags|
        invariant output + Walk(SNBT(p), tags[i..], stack) == old(output) + Walk(SNBT(p), tags, [])
        invariant Overflows(SNBT(p), tags[i..], stack) == Overflows(SNBT(p), tags, [])
      {
        WalkStep(SNBT(p), tags[i..], stack);
        assert tags[i..][1..] == tags[i + 1..];
        ok := WriteTag(tags[i]);
        if !ok {
          return;
        }
        CloseFinished();
        i := i + 1;
      }
      WalkStep(SNBT(p), tags[i..], stack);
      ok := true;
    }
  }

  lemma {:induction false} LineIs(depth: nat)
    ensures Line(depth) == "\n" + Spaces(SPACES_PER_INDENT * depth)
  {
    if depth > 0 {
      LineIs(depth - 1);
    }
  }

  /** The head of a container and its end, against the brackets written out. */
  lemma {:induction false} Brackets(p: Printf, t: Tree, depth: nat)
    requires IsContainer(t.tag.typ)
    ensures Pretty(p, t, depth)
            == Value(p, t.tag)
               + (Children(p, t.kids, t.tag.typ == COMPOUND, depth + 1, true) + CloseText(t.tag, depth))
  {
    hide Children, Line, Spaces;
    LineIs(depth);
    var end := if t.tag.typ == COMPOUND then "}" else "]";
    assert CloseText(t.tag, depth) == Line(depth) + end;
  }

  /** What comes before a child. */
  lemma {:induction false} LeadIs(p: Printf, e: Entry, depth: nat, tag: Tag)
    requires IsContainer(e.tag.typ) && e.left <= DeclaredCount(e.tag)
    ensures Lead(p, Some(e), depth, tag)
            == Before(p, tag, e.tag.typ == COMPOUND, depth, e.left == DeclaredCount(e.tag))
  {
    hide Line, Spaces;
    LineIs(depth);
  }

  /** What the emitter writes for a tree is its text. */
  lemma {:induction false} RenderIsPretty(p: Printf, t: Tree, parent: Option<Entry>, depth: nat)
    requires Counted(SNBT(p), t)
    ensures Render(SNBT(p), t, parent, depth) == Lead(p, parent, depth, t.tag) + Pretty(p, t, depth)
    decreases t, 1
  {
    hide Lead, Renders, Children, CloseText;
    if IsContainer(t.tag.typ) {
      RendersAreChildren(p, t.kids, Entry(t.tag, |t.kids|), depth + 1);
      Brackets(p, t, depth);
      hide Value, Pretty;
      Assoc(Lead(p, parent, depth, t.tag), Value(p, t.tag),
            Children(p, t.kids, t.tag.typ == COMPOUND, depth + 1, true) + CloseText(t.tag, depth));
    }
  }

  lemma {:induction false} RendersAreChildren(p: Printf, ts: seq<Tree>, e: Entry, depth: nat)
    requires forall i :: 0 <= i < |ts| ==> Counted(SNBT(p), ts[i])
    requires IsContainer(e.tag.typ) && e.left == |ts| <= DeclaredCount(e.tag)
    ensures Renders(SNBT(p), ts, e, depth)
              == Children(p, ts, e.tag.typ == COMPOUND, depth, e.left == DeclaredCount(e.tag))
    decreases ts, 0
  {
    hide Counted, Render, Pretty, Children, Before, Lead;
    var first, named := e.left == DeclaredCount(e.tag), e.tag.typ == COMPOUND;
    NextChild(p, ts, named, depth, first, "");
    assert Children(p, ts, named, depth, first) + "" == Children(p, ts, named, depth, first);
    if ts != [] {
      LeadIs(p, e, depth, ts[0].tag);
      RenderIsPretty(p, ts[0], Some(e), depth);
      var more := Children(p, ts[1..], named, depth, false);
      assert more + "" == more;
      Assoc(Before(p, ts[0].tag, named, depth, first), Pretty(p, ts[0], depth), more);
      RendersAreChildren(p, ts[1..], e.(left := e.left - 1), depth);
    }
  }

  /** The stack-driven writer prints exactly the text of the recursive pretty-printer. */
  lemma {:induction false} WalkIsPretty(p: Printf, t: Tree)
    requires Counted(SNBT(p), t) && Height(t) <= MAX_DEPTH
    ensures Walk(SNBT(p), Flat(t), []) == Pretty(p, t, 0) && !Overflows(SNBT(p), Flat(t), [])
  {
    WalkRenders(SNBT(p), t);
    RenderIsPretty(p, t, None, 0);
    assert Spaces(0) + Pretty(p, t, 0) == Pretty(p, t, 0);
  }

  /** Trees of the twelve types with as many children as their containers say. */
  predicate Whole(t: Tree) {
    && (match t.tag.data
        case Num(_) => 1 <= t.tag.typ <= 6 && t.kids == []
        case Text(_) => t.tag.typ == 8 && t.kids == []
        case ListHead(_, size) => t.tag.typ == 9 && size == |t.kids|
        case ArrayHead(size, _) => (t.tag.typ == 7 || t.tag.typ == 11 || t.tag.typ == 12) && size == |t.kids|
        case CompoundHead(count) => t.tag.typ == 10 && count == |t.kids|)
    && forall i :: 0 <= i < |t.kids| ==> Whole(t.kids[i])
  }

  lemma {:induction false} WholeCounted(p: Printf, t: Tree)
    requires Whole(t)
    ensures Counted(SNBT(p), t)
  {
    forall i | 0 <= i < |t.kids| ensures Counted(SNBT(p), t.kids[i]) {
      WholeCounted(p, t.kids[i]);
    }
  }

  /** Read with a stack of brackets, the output closes each bracket with its partner, indents what stands inside
      four spaces a level, and separates siblings, and only siblings, with commas. */
  lemma {:induction false} OutputLaid(p: Printf, t: Tree)
    requires Whole(t) && Tidy(p, t) && Height(t) <= 512
    ensures Walk(SNBT(p), Flat(t), []) == Pretty(p, t, 0)
    ensures Laid(Walk(SNBT(p), Flat(t), []), [], false)
  {
    hide Walk, Overflows, Counted, Height, Flat, Whole, Tidy, Pretty, Laid;
    WholeCounted(p, t);
    WalkIsPretty(p, t);
    PrettyLaid(p, t, "", []);
    assert Pretty(p, t, 0) + "" == Pretty(p, t, 0);
    assert Laid("", [], false) by { EmptyLaid(); }
  }
}
