/** json_stringify as the program runs it: a recursive printer appending to a string builder. */
module JsonWriter {
  import opened Bytes
  import opened JsonTree
  import opened JsonText

  class Printer {
    const fmt: string -> string
    var builder: string

    constructor (fmt: string -> string)
      ensures this.fmt == fmt && builder == ""
    {
      this.fmt := fmt;
      builder := "";
    }

    method AddPadding(level: nat)
      modifies this`builder
      ensures builder == old(builder) + Pad(level)
    {
      var i := 0;
      while i < level
        invariant 0 <= i <= level && builder == old(builder) + Pad(i)
      {
        Assoc(old(builder), Pad(i), PADDING);
        builder := builder + PADDING;
        i := i + 1;
      }
    }

    method PrintElement(v: Node, last: bool, level: nat)
      modifies this`builder
      ensures builder == old(builder) + (ElemText(fmt, v, level) + if last then "" else ",")
      decreases v, 4
    {
      hide Pad, Text;
      ghost var start := builder;
      builder := builder + "\n";
      AddPadding(level + 1);
      PrintNode(v, level + 1);
      assert builder == start + ElemText(fmt, v, level);
      if !last {
        builder := builder + ",";
      }
    }

    method PrintArray(elems: seq<Node>, level: nat)
      modifies this`builder
      ensures builder == old(builder) + Text(fmt, Arr(elems), level)
      decreases elems, 5
    {
      hide Pad, ElemText;
      ghost var start := old(builder) + "[";
      builder := builder + "[";
      var i := 0;
      while i < |elems|
        invariant 0 <= i <= |elems|
        invariant builder + ElemsText(fmt, elems[i..], level) == start + ElemsText(fmt, elems, level)
      {
        ghost var before, more := builder, ElemsText(fmt, elems[i + 1..], level);
        assert elems[i..][1..] == elems[i + 1..];
        PrintElement(elems[i], i == |elems| - 1, level);
        assert builder + more == before + ElemsText(fmt, elems[i..], level);
        i := i + 1;
      }
      assert elems[i..] == [];
      assert builder == start + ElemsText(fmt, elems, level);
      builder := builder + "\n";
      AddPadding(level);
      builder := builder + "]";
      assert builder == old(builder) + Text(fmt, Arr(elems), level);
    }

    /** foreach_stringify, the callback for binding number `idx`. */
    method PrintMember(m: Member, idx: nat, size: nat, level: nat)
      modifies this`builder
      ensures builder == old(builder) + (MemberText(fmt, m, level) + ((if idx < size - 1 then "," else "") + "\n"))
      decreases m, 4
    {
      hide Pad, Text;
      ghost var start := builder;
      AddPadding(level);
      builder := builder + "\"";
      builder := builder + m.key;
      builder := builder + "\": ";
      assert builder == start + (Pad(level) + Quoted(m.key) + ": ");
      PrintNode(m.value, level);
      assert builder == start + MemberText(fmt, m, level);
      if idx < size - 1 {
        builder := builder + ",";
      }
      builder := builder + "\n";
    }

    method PrintObject(members: seq<Member>, size: nat, level: nat)
      modifies this`builder
      ensures builder == old(builder) + Text(fmt, Obj(members, size), level)
      decreases members, 5
    {
      hide Pad, MemberText;
      ghost var start := old(builder) + "{\n";
      builder := builder + "{\n";
      var i := 0;
      while i < |members|
        invariant 0 <= i <= |members|
        invariant builder + MembersText(fmt, members[i..], i, size, level + 1)
                  == start + MembersText(fmt, members, 0, size, level + 1)
      {
        ghost var before, more := builder, MembersText(fmt, members[i + 1..], i + 1, size, level + 1);
        assert members[i..][1..] == members[i + 1..];
        PrintMember(members[i], i, size, level + 1);
        assert builder + more == before + MembersText(fmt, members[i..], i, size, level + 1);
        i := i + 1;
      }
      assert members[i..] == [];
      assert builder == start + MembersText(fmt, members, 0, size, level + 1);
      AddPadding(level);
      builder := builder + "}";
      assert builder == old(builder) + Text(fmt, Obj(members, size), level);
    }

    method PrintNode(v: Node, level: nat)
      modifies this`builder
      ensures builder == old(builder) + Text(fmt, v, level)
      decreases v, 3
    {
      match v
      case Null => builder := builder + "null";
      case Bool(b) => builder := builder + if b then "true" else "false";
      case Int(n) => builder := builder + IntText(n);
      case Float(literal) => builder := builder + fmt(literal);
      case Str(s) =>
        ghost var start := builder;
        builder := builder + "\"";
        builder := builder + s;
        builder := builder + "\"";
        assert builder == start + Quoted(s);
      case Arr(elems) => PrintArray(elems, level);
      case Obj(members, size) => PrintObject(members, size, level);
    }
  }

  method StringifyJson(fmt: string -> string, root: Node) returns (text: string)
    ensures text == Stringify(fmt, root)
  {
    var printer := new Printer(fmt);
    printer.PrintNode(root, 0);
    assert "" + Text(fmt, root, 0) == Text(fmt, root, 0);
    text := printer.builder + "\n";
  }
}
