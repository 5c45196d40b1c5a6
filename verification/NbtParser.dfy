/** nbt_parse as the program runs it, against the stack machine of NbtParse. */
module NbtParser {
  import opened Bytes
  import opened Wrappers
  import opened NbtTree
  import opened NbtParse

  class Parser {
    var stack: seq<Meta>
    var tags: seq<Tag>
    var input: seq<byte>

    function Now(): State
      reads this
    {
      State(stack, tags, input)
    }

    constructor (bytes: seq<byte>)
      ensures Now() == State([], [], bytes)
    {
      stack, tags, input := [], [], bytes;
    }

    /** ensure_read: a short read uses up the stream and fails. */
    method EnsureRead(n: nat) returns (r: Option<seq<byte>>)
      modifies this`input
      ensures match Take(old(input), n)
              case None => r == None && input == []
              case Some((bytes, rest)) => r == Some(bytes) && input == rest
    {
      if |input| < n {
        input := [];
        return None;
      }
      r := Some(input[..n]);
      input := input[n..];
    }

    method ReadName() returns (r: Option<seq<byte>>)
      modifies this`input
      ensures match ReadString(old(input))
              case None => r == None
              case Some((chars, rest)) => r == Some(chars) && input == rest
    {
      var size := EnsureRead(2);
      if size.None? {
        return None;
      }
      var length := NetToHost(size.value);
      r := EnsureRead(length);
    }

    method ParseType() returns (r: Option<byte>)
      requires Sane(Now())
      modifies this`input
      ensures match ReadType(old(Now()))
              case None => r == None
              case Some((typ, rest)) => r == Some(typ) && input == rest
    {
      if stack == [] || IsNotArray(Top(stack).typ) {
        var bytes := EnsureRead(1);
        if bytes.None? || bytes.value[0] >= TYPE_COUNT {
          return None;
        }
        return Some(bytes.value[0]);
      }
      var parent := tags[Top(stack).idx];
      var typ;
      if parent.typ == LIST {
        typ := parent.data.elem;
      } else {
        typ := ElementOf(parent.typ);
      }
      r := if typ == TYPE_COUNT then None else Some(typ);
    }

    /** A step on the fields: either the state the step leads to, or the way it ended. */
    ghost predicate Took(step: Step, end: Option<Outcome>)
      reads this
    {
      match step
      case Next(s) => end == None && Now() == s
      case Halt(o) => end == Some(o)
    }

    method Open(tag: Tag, left: int) returns (end: Option<Outcome>)
      modifies this
      ensures Took(Push(old(Now()), tag, left), end)
    {
      if |stack| >= MAX_DEPTH {
        return Some(Crashed);
      }
      stack := stack + [Meta(tag.typ, left, |tags|)];
      tags := tags + [tag];
      end := None;
    }

    method ReadArray(blank: Tag) returns (end: Option<Outcome>)
      modifies this
      ensures Took(ParseArray(old(Now()), blank), end)
    {
      var bytes := EnsureRead(4);
      if bytes.None? {
        return Some(Invalid);
      }
      var num := NetToHost(bytes.value);
      var size := ToI32(num);
      if size == -1 {
        return Some(Invalid);
      }
      if size > 0 {
        end := Open(WithSize(blank, size), size);
      } else {
        tags := tags + [WithSize(blank, size)];
        end := None;
      }
    }

    method ReadNumber(typ: byte, name: seq<byte>) returns (end: Option<Outcome>)
      requires IsNumber(typ)
      modifies this
      ensures Took(ParseNumber(old(Now()), typ, name), end)
    {
      var bytes := EnsureRead(Width(typ));
      if bytes.None? {
        return Some(Invalid);
      }
      var bits;
      if IsFloating(typ) {
        bits := Number(bytes.value);
      } else {
        bits := NetToHost(bytes.value);
      }
      tags := tags + [Tag(typ, name, Num(bits))];
      end := None;
    }

    /** The switch of nbt_parse_tag. */
    method ReadData(typ: byte, name: seq<byte>) returns (end: Option<Outcome>)
      requires Sane(Now())
      modifies this
      ensures Took(ParseData(old(Now()), typ, name), end)
    {
      hide ParseNumber, ParseArray;
      end := None;
      if IsNumber(typ) {
        end := ReadNumber(typ, name);
      } else if typ == STRING {
        var chars := ReadName();
        if chars.None? {
          return Some(Invalid);
        }
        tags := tags + [Tag(STRING, name, Text(chars.value))];
      } else if typ == LIST {
        var elem := EnsureRead(1);
        if elem.None? {
          return Some(Invalid);
        }
        end := ReadArray(Tag(LIST, name, ListHead(elem.value[0], 0)));
      } else if IsPlainArray(typ) {
        end := ReadArray(Tag(typ, name, ArrayHead(0, 0)));
      } else if typ == COMPOUND {
        end := Open(Tag(typ, name, CompoundHead(0)), 0);
      } else if typ == END {
        if stack == [] || Top(stack).typ != COMPOUND {
          return Some(Invalid);
        }
        var m := Top(stack);
        tags := tags[m.idx := tags[m.idx].(data := CompoundHead(m.left))];
        stack := stack[..|stack| - 1];
      }
    }

    method ReadTag(typ: byte) returns (end: Option<Outcome>)
      requires Sane(Now())
      modifies this
      ensures Took(ParseTag(old(Now()), typ), end)
    {
      hide ParseData, ReadString;
      var name: seq<byte> := [];
      if (stack == [] || IsNotArray(Top(stack).typ)) && typ != END {
        var chars := ReadName();
        if chars.None? {
          return Some(Invalid);
        }
        name := chars.value;
      }
      end := ReadData(typ, name);
    }

    method CreditParent(typ: byte)
      modifies this`stack
      ensures stack == UpdateParents(old(stack), typ)
    {
      var i := |stack| - 1;
      if i >= 0 && stack[i].typ == typ {
        i := i - 1;
      }
      if i < 0 {
        return;
      }
      if typ != END {
        var m := stack[i];
        if m.typ == COMPOUND {
          stack := stack[i := m.(left := m.left + 1)];
        } else if m.typ == LIST || IsPlainArray(m.typ) {
          stack := stack[i := m.(left := m.left - 1)];
        }
      }
    }

    method PruneStack()
      modifies this`stack
      ensures stack == Prune(old(stack))
    {
      while |stack| > 0
        invariant Prune(stack) == Prune(old(stack))
        decreases |stack|
      {
        var parent := Top(stack);
        if parent.left > 0 || IsNotArray(parent.typ) {
          break;
        }
        stack := stack[..|stack| - 1];
      }
    }

    /** The body of the loop. */
    method OneRound() returns (end: Option<Outcome>)
      requires Sane(Now())
      modifies this
      ensures Took(Round(old(Now()), false), end)
    {
      hide ReadType, ParseTag, UpdateParents, Prune;
      var typ := ParseType();
      if typ.None? {
        return Some(Invalid);
      }
      end := ReadTag(typ.value);
      if end.Some? {
        return;
      }
      CreditParent(typ.value);
      PruneStack();
    }

    /** The do-while loop: it ends on every input. */
    method Run() returns (o: Outcome)
      requires Sane(Now())
      modifies this
      ensures o == Go(old(Now()), false)
    {
      hide Round, Prune;
      while true
        invariant Sane(Now()) && Go(Now(), false) == Go(old(Now()), false)
        decreases |input|, Pending(stack)
      {
        ghost var s := Now();
        var end := OneRound();
        if end.Some? {
          return end.value;
        }
        RoundKeeps(s, false);
        if |stack| == 0 {
          return Done(tags, input);
        }
      }
    }
  }
}
