/** The NBT parser: a stack machine that rebuilds the preorder array from the bytes. */
module NbtParse {
  import opened Bytes
  import opened Wrappers
  import opened NbtTree

  /** A container that is still open: for a list or an array `left` counts the elements still to
      come, for a compound it counts the members seen. */
  datatype Meta = Meta(typ: byte, left: int, idx: nat)

  datatype State = State(stack: seq<Meta>, tags: seq<Tag>, input: seq<byte>)

  /** Crashed stands for the write through the null pointer `vect_reserve` returns on a full stack,
      Stuck for a strict run that met a misfit. */
  datatype Outcome =
    | Done(tags: seq<Tag>, rest: seq<byte>)
    | Invalid
    | Crashed
    | Stuck

  datatype Step = Next(state: State) | Halt(outcome: Outcome)

  function Top(stack: seq<Meta>): Meta
    requires stack != []
  {
    stack[|stack| - 1]
  }

  /** Tags carry a type and a name unless the innermost container is a list or an array. */
  predicate Named(stack: seq<Meta>) {
    stack == [] || IsNotArray(Top(stack).typ)
  }

  predicate MetaFits(m: Meta, tags: seq<Tag>) {
    && m.idx < |tags| && tags[m.idx].typ == m.typ && IsContainer(m.typ)
    && (m.typ == LIST ==> tags[m.idx].data.ListHead?)
  }

  /** Every stack entry indexes its own container and no exhausted list is on top. */
  ghost predicate Sane(s: State) {
    && (forall i :: 0 <= i < |s.stack| ==> MetaFits(s.stack[i], s.tags))
    && (s.stack != [] && !IsNotArray(Top(s.stack).typ) ==> Top(s.stack).left > 0)
  }

  /** Elements all open lists and arrays still wait for. */
  function Pending(stack: seq<Meta>): nat {
    if stack == [] then 0
    else
      var m := Top(stack);
      Pending(stack[..|stack| - 1]) + if !IsNotArray(m.typ) && m.left > 0 then m.left else 0
  }

  function Take(input: seq<byte>, n: nat): Option<(seq<byte>, seq<byte>)> {
    if |input| < n then None else Some((input[..n], input[n..]))
  }

  function ReadString(input: seq<byte>): Option<(seq<byte>, seq<byte>)> {
    match Take(input, 2)
    case None => None
    case Some((len, rest)) => Take(rest, FromBigEndian(len))
  }

  function ReadType(s: State): Option<(byte, seq<byte>)>
    requires Sane(s)
  {
    if Named(s.stack) then
      if s.input == [] || s.input[0] >= TYPE_COUNT then None else Some((s.input[0], s.input[1..]))
    else
      var parent := s.tags[Top(s.stack).idx];
      var typ := if parent.typ == LIST then parent.data.elem else ElementOf(parent.typ);
      if typ == TYPE_COUNT then None else Some((typ, s.input))
  }

  function Push(s: State, tag: Tag, left: int): Step {
    if |s.stack| >= MAX_DEPTH then Halt(Crashed)
    else Next(s.(stack := s.stack + [Meta(tag.typ, left, |s.tags|)], tags := s.tags + [tag]))
  }

  function WithSize(blank: Tag, size: int): Tag {
    match blank.data
    case ListHead(elem, _) => blank.(data := ListHead(elem, size))
    case _ => blank.(data := ArrayHead(size, 0))
  }

  /** parse_array: the element count, then the tag; a tag with elements is opened. */
  function ParseArray(s: State, blank: Tag): Step {
    match Take(s.input, 4)
    case None => Halt(Invalid)
    case Some((bytes, rest)) =>
      var size := ToI32(FromBigEndian(bytes));
      var s1 := s.(input := rest);
      if size == -1 then Halt(Invalid)
      else if size > 0 then Push(s1, WithSize(blank, size), size)
      else Next(s1.(tags := s1.tags + [WithSize(blank, size)]))
  }

  /** nbt_parse_tag: the name, if the tag has one, then the payload. */
  function ParseTag(s: State, typ: byte): Step
    requires Sane(s)
  {
    match if Named(s.stack) && typ != END then ReadString(s.input) else Some(([], s.input))
    case None => Halt(Invalid)
    case Some((name, input)) => ParseData(s.(input := input), typ, name)
  }

  function ParseData(s: State, typ: byte, name: seq<byte>): Step
    requires Sane(s)
  {
    if IsNumber(typ) then ParseNumber(s, typ, name)
    else if typ == STRING then ParseText(s, name)
    else if typ == LIST then ParseList(s, name)
    else if IsPlainArray(typ) then ParseArray(s, Tag(typ, name, ArrayHead(0, 0)))
    else if typ == COMPOUND then Push(s, Tag(typ, name, CompoundHead(0)), 0)
    else if typ == END then ParseEnd(s)
    else Next(s)
  }

  function ParseNumber(s: State, typ: byte, name: seq<byte>): Step
    requires IsNumber(typ)
  {
    match Take(s.input, Width(typ))
    case None => Halt(Invalid)
    case Some((bytes, rest)) =>
      var bits := if IsFloating(typ) then Number(bytes) else FromBigEndian(bytes);
      Next(s.(input := rest, tags := s.tags + [Tag(typ, name, Num(bits))]))
  }

  function ParseText(s: State, name: seq<byte>): Step {
    match ReadString(s.input)
    case None => Halt(Invalid)
    case Some((chars, rest)) => Next(s.(input := rest, tags := s.tags + [Tag(STRING, name, Text(chars))]))
  }

  function ParseList(s: State, name: seq<byte>): Step {
    match Take(s.input, 1)
    case None => Halt(Invalid)
    case Some((elem, rest)) =>
      ParseArray(s.(input := rest), Tag(LIST, name, ListHead(elem[0], 0)))
  }

  /** The end tag stores the member count in the compound and closes it. */
  function ParseEnd(s: State): Step
    requires Sane(s)
  {
    if s.stack == [] || Top(s.stack).typ != COMPOUND then Halt(Invalid)
    else
      var m := Top(s.stack);
      var closed := s.tags[m.idx].(data := CompoundHead(m.left));
      Next(s.(stack := s.stack[..|s.stack| - 1], tags := s.tags[m.idx := closed]))
  }

  /** update_parents: the entry credited with the tag just read is the top one, or the one below
      when the top has the type of that tag. */
  function UpdateParents(stack: seq<Meta>, typ: byte): (r: seq<Meta>)
    ensures |r| == |stack|
  {
    var i := |stack| - 1;
    var j := if i >= 0 && stack[i].typ == typ then i - 1 else i;
    if j < 0 || typ == END then stack else stack[j := Credited(stack[j])]
  }

  function Credited(m: Meta): Meta {
    if m.typ == COMPOUND then m.(left := m.left + 1)
    else if !IsNotArray(m.typ) then m.(left := m.left - 1)
    else m
  }

  /** prune_parsing_stack: lists and arrays with nothing left are closed. */
  function Prune(stack: seq<Meta>): (r: seq<Meta>)
    ensures |r| <= |stack| && r == stack[..|r|]
    ensures r != [] && !IsNotArray(Top(r).typ) ==> Top(r).left > 0
  {
    if stack == [] || Top(stack).left > 0 || IsNotArray(Top(stack).typ) then stack
    else Prune(stack[..|stack| - 1])
  }

  /** An element whose type is not a tag type, or an empty list directly inside a list. */
  predicate Misfit(s: State, typ: byte, after: State) {
    && s.stack != [] && Top(s.stack).typ == LIST
    && (typ > LONG_ARRAY || (typ == LIST && |after.stack| == |s.stack|))
  }

  /** One round of the parse loop. */
  function Round(s: State, strict: bool): Step
    requires Sane(s)
  {
    match ReadType(s)
    case None => Halt(Invalid)
    case Some((typ, input)) =>
      match ParseTag(s.(input := input), typ)
      case Halt(o) => Halt(o)
      case Next(s1) =>
        if strict && Misfit(s, typ, s1) then Halt(Stuck)
        else Next(s1.(stack := Prune(UpdateParents(s1.stack, typ))))
  }

  lemma {:induction false} PendingPrefix(stack: seq<Meta>, n: nat)
    requires n <= |stack|
    ensures Pending(stack[..n]) <= Pending(stack)
  {
    if n < |stack| {
      PendingPrefix(stack[..|stack| - 1], n);
      assert stack[..|stack| - 1][..n] == stack[..n];
    } else {
      assert stack[..n] == stack;
    }
  }

  /** Crediting a list or an array that still waits for elements lowers the pending total. */
  lemma {:induction false} PendingCredit(stack: seq<Meta>)
    requires stack != []
    ensures Pending(stack[|stack| - 1 := Credited(Top(stack))]) <= Pending(stack)
    ensures !IsNotArray(Top(stack).typ) && Top(stack).left > 0 ==>
              Pending(stack[|stack| - 1 := Credited(Top(stack))]) < Pending(stack)
  {
    var n := |stack| - 1;
    assert stack[n := Credited(Top(stack))][..n] == stack[..n];
  }

  /** What reading one tag keeps, and the two ways of reading nothing. */
  ghost predicate TagStep(s: State, typ: byte, s1: State) {
    && (forall i :: 0 <= i < |s1.stack| ==> MetaFits(s1.stack[i], s1.tags))
    && |s1.input| <= |s.input|
    && (!Named(s.stack) && |s1.input| == |s.input| ==>
          if typ == COMPOUND then s1.stack == s.stack + [Meta(COMPOUND, 0, |s.tags|)]
          else s1.stack == s.stack && typ > LONG_ARRAY)
  }

  lemma {:induction false} TagKeeps(s: State, typ: byte)
    requires Sane(s) && ParseTag(s, typ).Next?
    ensures TagStep(s, typ, ParseTag(s, typ).state)
  {
    var named := Named(s.stack) && typ != END;
    var (name, input) := (if named then ReadString(s.input) else Some(([], s.input))).value;
    DataKeeps(s.(input := input), typ, name);
  }

  lemma {:induction false} DataKeeps(s: State, typ: byte, name: seq<byte>)
    requires Sane(s) && ParseData(s, typ, name).Next?
    ensures TagStep(s, typ, ParseData(s, typ, name).state)
  {
    var s1 := ParseData(s, typ, name).state;
    if typ == END {
      assert s1.stack == s.stack[..|s.stack| - 1];
    }
    forall i | 0 <= i < |s1.stack| ensures MetaFits(s1.stack[i], s1.tags) {
      if i < |s.stack| {
        assert MetaFits(s.stack[i], s.tags);
      }
    }
  }

  lemma {:induction false} StepKeeps(s: State, typ: byte, s1: State)
    requires Sane(s) && TagStep(s, typ, s1)
    ensures Sane(s1.(stack := Prune(UpdateParents(s1.stack, typ))))
  {
    var stack := Prune(UpdateParents(s1.stack, typ));
    forall i | 0 <= i < |stack| ensures MetaFits(stack[i], s1.tags) {
      assert MetaFits(s1.stack[i], s1.tags);
      assert stack[i] == UpdateParents(s1.stack, typ)[i];
    }
  }

  /** A round that reads nothing takes an element off the innermost list. */
  lemma {:induction false} PendingFalls(s: State, typ: byte, s1: State)
    requires Sane(s) && TagStep(s, typ, s1) && !Named(s.stack) && |s1.input| == |s.input|
    ensures Pending(Prune(UpdateParents(s1.stack, typ))) < Pending(s.stack)
  {
    var updated := UpdateParents(s1.stack, typ);
    PendingPrefix(updated, |Prune(updated)|);
    PendingCredit(s.stack);
    var credited := s.stack[|s.stack| - 1 := Credited(Top(s.stack))];
    if typ == COMPOUND {
      assert updated[..|updated| - 1] == credited;
    } else {
      assert updated == credited;
    }
  }

  /** What every round keeps, on any bytes: the stack entries index their own containers, no
      exhausted list is on top, and (unread bytes, pending elements) falls. */
  lemma {:induction false} RoundKeeps(s: State, strict: bool)
    requires Sane(s) && Round(s, strict).Next?
    ensures var s1 := Round(s, strict).state;
            && Sane(s1)
            && (|s1.input| < |s.input|
                || (|s1.input| == |s.input| && Pending(s1.stack) < Pending(s.stack)))
  {
    var (typ, input) := ReadType(s).value;
    var s0 := s.(input := input);
    TagKeeps(s0, typ);
    StepKeeps(s0, typ, ParseTag(s0, typ).state);
    if !Named(s.stack) && |ParseTag(s0, typ).state.input| == |s.input| {
      PendingFalls(s0, typ, ParseTag(s0, typ).state);
    }
  }

  /** The parse loop, from the start of a round. */
  function Go(s: State, strict: bool): Outcome
    requires Sane(s)
    decreases |s.input|, Pending(s.stack)
  {
    match Round(s, strict)
    case Halt(o) => o
    case Next(s1) =>
      RoundKeeps(s, strict);
      if s1.stack == [] then Done(s1.tags, s1.input) else Go(s1, strict)
  }

  /** What is left to do after a round. */
  function After(s: State, strict: bool): Outcome
    requires Sane(s)
  {
    if s.stack == [] then Done(s.tags, s.input) else Go(s, strict)
  }

  /** nbt_parse on an input. */
  function Parse(input: seq<byte>): Outcome {
    Go(State([], [], input), false)
  }

  /** The same run, given up at the first misfit. */
  function ParseStrictly(input: seq<byte>): Outcome {
    Go(State([], [], input), true)
  }
}
