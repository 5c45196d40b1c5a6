/** The layout of printed JSON text: brackets, lines and commas. */
module JsonLayout {
  import opened Layout
  import opened JsonTree
  import opened JsonPrinted
  import opened JsonText
  import opened JsonShown

  /** Trees whose strings and floats are printed without brackets, commas and line breaks. */
  predicate Tidy(fmt: string -> string, v: Node) {
    match v
    case Float(literal) => Clean(fmt(literal)) && (fmt(literal) != "" ==> fmt(literal)[0] != ' ')
    case Str(s) => Clean(s)
    case Arr(elems) => forall i :: 0 <= i < |elems| ==> Tidy(fmt, elems[i])
    case Obj(members, _) => forall i :: 0 <= i < |members| ==> Clean(members[i].key) && Tidy(fmt, members[i].value)
    case _ => true
  }

  lemma {:induction false} IntClean(n: int)
    ensures Clean(IntText(n)) && IntText(n) != "" && IntText(n)[0] != ' '
  {
    hide Decimal;
    DecimalValue(if n < 0 then -n else n);
  }

  /** The text is read as one value if its objects have their commas between the members only, and else the reading
      fails. */
  lemma {:induction false} TextLaid(fmt: string -> string, v: Node, rest: string, open: seq<Open>)
    requires Tidy(fmt, v)
    ensures Laid(Text(fmt, v, |open|) + rest, open, false) == (CommasRight(v) && Laid(rest, open, false))
    ensures Follows(rest) ==> Begins(Text(fmt, v, |open|) + rest)
    decreases v, 1
  {
    hide Laid, IntText, Pad, ElemsText, MembersText, ElemCommas, MemberCommas, Between;
    match v
    case Arr(elems) => ArrLaid(fmt, elems, rest, open);
    case Obj(members, size) => ObjLaid(fmt, members, size, rest, open);
    case Int(n) =>
      IntClean(n);
      LaidClean(IntText(n), rest, open);
    case _ => LaidClean(Text(fmt, v, |open|), rest, open);
  }

  lemma {:induction false} ArrLaid(fmt: string -> string, elems: seq<Node>, rest: string, open: seq<Open>)
    requires forall i :: 0 <= i < |elems| ==> Tidy(fmt, elems[i])
    ensures Laid(Text(fmt, Arr(elems), |open|) + rest, open, false)
            == (CommasRight(Arr(elems)) && Laid(rest, open, false))
    ensures Begins(Text(fmt, Arr(elems), |open|) + rest)
    decreases elems, 1
  {
    hide Laid, Pad, ElemsText, Tidy, Line;
    var end := Line(|open|) + ([']'] + rest);
    LineIs(|open|);
    assert Text(fmt, Arr(elems), |open|) + rest == ['['] + (ElemsText(fmt, elems, |open|) + end);
    LaidOpen('[', ElemsText(fmt, elems, |open|) + end, open);
    ElemsLaid(fmt, elems, end, open, Open('[', true));
    LaidEnd(']', rest, open, Open('[', elems == []), false);
  }

  lemma {:induction false} ElemsLaid(fmt: string -> string, vs: seq<Node>, rest: string, below: seq<Open>, top: Open)
    requires (forall i :: 0 <= i < |vs| ==> Tidy(fmt, vs[i])) && Follows(rest) && (vs == [] ==> top.empty)
    ensures Laid(ElemsText(fmt, vs, |below|) + rest, below + [top], !top.empty)
            == (ElemCommas(vs) && Laid(rest, below + [Open(top.bracket, top.empty && vs == [])], false))
    decreases vs, 0
  {
    hide Laid, Pad, Text, Line, ElemsText, Tidy, CommasRight, Begins;
    NextElem(fmt, vs, |below|, rest);
    LineIs(|below| + 1);
    if vs != [] {
      var v, used := vs[0], Open(top.bracket, false);
      var tail := ElemsText(fmt, vs[1..], |below|) + rest;
      var after := (if |vs| > 1 then "," else "") + tail;
      if |vs| > 1 {
        ElemsLaid(fmt, vs[1..], rest, below, used);
        LaidComma(tail, below + [used]);
      } else {
        NextElem(fmt, vs[1..], |below|, rest);
        assert after == rest;
      }
      assert ElemCommas(vs) == (CommasRight(v) && ElemCommas(vs[1..])) by {
        assert vs == [v] + vs[1..];
        PrintedElemStep(v, vs[1..]);
      }
      TextLaid(fmt, v, after, below + [used]);
      LaidLine(Text(fmt, v, |below| + 1) + after, below, top, !top.empty);
    }
  }

  lemma {:induction false} ObjLaid(fmt: string -> string, members: seq<Member>, size: nat, rest: string, open: seq<Open>)
    requires forall i :: 0 <= i < |members| ==> Clean(members[i].key) && Tidy(fmt, members[i].value)
    ensures Laid(Text(fmt, Obj(members, size), |open|) + rest, open, false)
            == (CommasRight(Obj(members, size)) && Laid(rest, open, false))
    ensures Begins(Text(fmt, Obj(members, size), |open|) + rest)
    decreases members, 1
  {
    hide Laid, Pad, MembersText, Tidy, Line, Clean;
    var inner := ['\n'] + (MembersText(fmt, members, 0, size, |open| + 1) + (Pad(|open|) + (['}'] + rest)));
    assert Text(fmt, Obj(members, size), |open|) + rest == ['{'] + inner;
    LaidOpen('{', inner, open);
    MembersLaid(fmt, members, 0, size, rest, open);
  }

  /** The commas that members from number `idx` on have: one before each, but none before the first, and none at the
      end. */
  predicate Separated(n: nat, idx: nat, size: nat) {
    if idx == 0 then Between(n, size)
    else if n == 0 then size <= idx
    else size == idx + n
  }

  lemma {:induction false} MembersLaid(fmt: string -> string, ms: seq<Member>, idx: nat, size: nat, rest: string,
                                       below: seq<Open>)
    requires forall i :: 0 <= i < |ms| ==> Clean(ms[i].key) && Tidy(fmt, ms[i].value)
    ensures var s := ['\n'] + (MembersText(fmt, ms, idx, size, |below| + 1) + (Pad(|below|) + (['}'] + rest)));
            && Laid(s, below + [Open('{', idx == 0)], 0 < idx < size)
               == (Separated(|ms|, idx, size) && MemberCommas(ms) && Laid(rest, below, false))
            && Follows(s)
    decreases ms, 0
  {
    hide Laid, Pad, Line, MembersText, MemberText, Tidy, CommasRight, Clean;
    var end := Pad(|below|) + (['}'] + rest);
    NextMember(fmt, ms, idx, size, |below| + 1, end);
    if ms == [] {
      LineIs(|below|);
      assert ['\n'] + end == Line(|below|) + (['}'] + rest);
      LaidEnd('}', rest, below, Open('{', idx == 0), 0 < idx < size);
    } else {
      var more := MembersText(fmt, ms[1..], idx + 1, size, |below| + 1) + end;
      var after := (if idx < size - 1 then "," else "") + (['\n'] + more);
      MembersLaid(fmt, ms[1..], idx + 1, size, rest, below);
      MemberLaid(fmt, ms[0], after, below, idx == 0, 0 < idx < size);
      LaidComma(['\n'] + more, below + [Open('{', false)]);
      assert "" + (['\n'] + more) == ['\n'] + more;
      assert MemberCommas(ms) == (CommasRight(ms[0].value) && MemberCommas(ms[1..])) by {
        assert ms == [ms[0]] + ms[1..];
        PrintedMemberStep(ms[0], ms[1..], 0, 0);
      }
    }
  }

  lemma {:induction false} MemberLaid(fmt: string -> string, m: Member, rest: string, below: seq<Open>, first: bool,
                                      comma: bool)
    requires Clean(m.key) && Tidy(fmt, m.value) && Follows(rest)
    ensures Laid(['\n'] + (MemberText(fmt, m, |below| + 1) + rest), below + [Open('{', first)], comma)
            == (comma == !first && CommasRight(m.value) && Laid(rest, below + [Open('{', false)], false))
    decreases m, 1
  {
    hide Laid, Pad, Line, Text, Tidy, CommasRight;
    var value := Text(fmt, m.value, |below| + 1) + rest;
    var name := Quoted(m.key) + ": ";
    LineIs(|below| + 1);
    assert ['\n'] + (MemberText(fmt, m, |below| + 1) + rest) == Line(|below| + 1) + (name + value);
    LaidLine(name + value, below, Open('{', first), comma);
    LaidClean(name, value, below + [Open('{', false)]);
    TextLaid(fmt, m.value, rest, below + [Open('{', false)]);
  }

  /** A printed tree is well laid out exactly when its objects have their commas between the members only. */
  lemma {:induction false} StringifyLaid(fmt: string -> string, v: Node)
    requires Tidy(fmt, v)
    ensures Laid(Stringify(fmt, v), [], false) <==> CommasRight(v)
  {
    hide Text, Tidy, CommasRight;
    TextLaid(fmt, v, "\n", []);
    assert Laid("\n", [], false);
  }
}
