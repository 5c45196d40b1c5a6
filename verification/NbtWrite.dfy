/** The NBT writer: what it writes for a tag, and its loop over the preorder array. */
module NbtWrite {
  import opened Bytes
  import opened Wrappers
  import opened NbtTree
  import opened NbtComplete
  import opened FlatWalk

  const MAX_STRING: nat := 0xffff

  function Clamped(s: seq<byte>): seq<byte> {
    if |s| > MAX_STRING then s[..MAX_STRING] else s
  }

  /** The payload as written: floats in wire order like integers, and the size of an array tag
      taken from the word that belongs to lists. */
  function PayloadBytes(tag: Tag): seq<byte> {
    if IsNumber(tag.typ) then if tag.data.Num? then BigEndian(tag.data.bits, Width(tag.typ)) else []
    else match tag.data
      case Text(chars) => if tag.typ == STRING then WireString(Clamped(chars)) else []
      case ListHead(elem, size) => if tag.typ == LIST then [elem] + BigEndian(FromI32(size), 4) else []
      case ArrayHead(_, size) => if IsPlainArray(tag.typ) then BigEndian(FromI32(size), 4) else []
      case _ => []
  }

  /** Type and name, left out for the elements of lists and arrays. */
  function HeadBytes(parent: Option<Entry>, tag: Tag): seq<byte> {
    if parent.None? || IsNotArray(parent.value.tag.typ) then [tag.typ] + WireString(Clamped(tag.name)) else []
  }

  function OpenTag(parent: Option<Entry>, depth: nat, tag: Tag): seq<byte> {
    HeadBytes(parent, tag) + PayloadBytes(tag)
  }

  function CloseTag(tag: Tag, depth: nat): seq<byte> {
    WireEnd(tag)
  }

  function WrittenCount(tag: Tag): int {
    match tag.data
    case CompoundHead(count) => count
    case ListHead(_, size) => size
    case ArrayHead(_, size) => size
    case _ => 0
  }

  const WRITER: Emitter<byte> := Emitter(OpenTag, CloseTag, WrittenCount)

  /** nbt_write and its context: the stack of remaining counts and the output stream. */
  class Writer {
    var stack: seq<Entry>
    var output: seq<byte>

    constructor ()
      ensures stack == [] && output == []
    {
      stack, output := [], [];
    }

    method WriteString(s: seq<byte>)
      modifies this`output
      ensures output == old(output) + WireString(Clamped(s))
    {
      var length := if |s| > MAX_STRING then MAX_STRING else |s|;
      var size := HostToNet(length, 2);
      output := output + size;
      output := output + s[..length];
    }

    /** A static vector: adding to a full one does nothing. */
    method Add(e: Entry)
      modifies this`stack
      ensures stack == if |old(stack)| < MAX_DEPTH then old(stack) + [e] else old(stack)
    {
      if |stack| < MAX_DEPTH {
        stack := stack + [e];
      }
    }

    method WriteArray(tag: Tag, size: int)
      requires size == WrittenCount(tag)
      modifies this
      ensures output == old(output) + BigEndian(FromI32(size), 4)
      ensures stack == if |old(stack)| < MAX_DEPTH then old(stack) + [Entry(tag, size)] else old(stack)
    {
      var bytes := HostToNet(FromI32(size), 4);
      output := output + bytes;
      Add(Entry(tag, size));
    }

    method WriteHead(tag: Tag)
      modifies this`output
      ensures output == old(output) + HeadBytes(Parent(stack), tag)
    {
      if stack == [] || IsNotArray(Top(stack).tag.typ) {
        output := output + [tag.typ];
        WriteString(tag.name);
      }
    }

    /** The switch of nbt_write_tag: the payload, and the new container if the tag is one. */
    method WritePayload(tag: Tag)
      requires DataFits(tag)
      modifies this
      ensures output == old(output) + PayloadBytes(tag)
      ensures stack == if IsContainer(tag.typ) && |old(stack)| < MAX_DEPTH
                       then old(stack) + [Entry(tag, WrittenCount(tag))] else old(stack)
    {
      if IsNumber(tag.typ) {
        var bytes := HostToNet(tag.data.bits, Width(tag.typ));
        output := output + bytes;
      } else if tag.typ == STRING {
        WriteString(tag.data.chars);
      } else if tag.typ == COMPOUND {
        Add(Entry(tag, tag.data.count));
      } else if tag.typ == LIST {
        output := output + [tag.data.elem];
        WriteArray(tag, tag.data.size);
      } else {
        WriteArray(tag, tag.data.listSize);
      }
    }

    method WriteTag(tag: Tag)
      requires DataFits(tag)
      modifies this
      ensures output == old(output) + OpenTag(Parent(old(stack)), |old(stack)|, tag)
      ensures stack == Entered(WRITER, old(stack), tag)
    {
      hide PayloadBytes, HeadBytes;
      WriteHead(tag);
      if stack != [] {
        var parent := Top(stack);
        stack := Front(stack) + [parent.(left := parent.left - 1)];
      }
      WritePayload(tag);
    }

    /** The closing loop of nbt_write: finished containers are popped, compounds get their end tag. */
    method CloseFinished()
      modifies this
      ensures output == old(output) + ClosingText(WRITER, old(stack))
      ensures stack == Closing(old(stack))
    {
      hide Closing, ClosingText;
      ghost var all := output + ClosingText(WRITER, stack);
      while stack != [] && Top(stack).left == 0
        invariant output + ClosingText(WRITER, stack) == all
        invariant Closing(stack) == Closing(old(stack))
        decreases |stack|
      {
        var parent := Top(stack);
        ClosingStep(stack);
        Assoc(output, WireEnd(parent.tag), ClosingText(WRITER, Front(stack)));
        stack := Front(stack);
        if parent.tag.typ == COMPOUND {
          output := output + [END];
        } else {
          assert output + [] == output;
        }
      }
      ClosingStep(stack);
      assert output + [] == output;
    }

    /** The loop over the preorder array. */
    method Write(tags: seq<Tag>)
      requires forall i :: 0 <= i < |tags| ==> DataFits(tags[i])
      requires stack == []
      modifies this
      ensures output == old(output) + Walk(WRITER, tags, [])
    {
      hide Walk, Closing, ClosingText, Entered, OpenTag, Parent;
      var i := 0;
      while i < |tags|
        invariant 0 <= i <= |tags|
        invariant output + Walk(WRITER, tags[i..], stack) == old(output) + Walk(WRITER, tags, [])
      {
        WalkStep(WRITER, tags[i..], stack);
        assert tags[i..][1..] == tags[i + 1..];
        WriteTag(tags[i]);
        CloseFinished();
        i := i + 1;
      }
      WalkStep(WRITER, tags[i..], stack);
    }
  }

  /** One round of the loop that closes containers. */
  lemma {:induction false} ClosingStep(stack: seq<Entry>)
    ensures if stack == [] || Top(stack).left != 0 then Closing(stack) == stack && ClosingText(WRITER, stack) == []
            else Closing(stack) == Closing(Front(stack))
                 && ClosingText(WRITER, stack) == WireEnd(Top(stack).tag) + ClosingText(WRITER, Front(stack))
  {
  }
}
