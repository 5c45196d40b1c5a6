/** NBT trees: the preorder array the program stores and the trees it stands for. */
module NbtTree {
  import opened Bytes

  const END: byte := 0
  const BYTE: byte := 1
  const SHORT: byte := 2
  const INT: byte := 3
  const LONG: byte := 4
  const FLOAT: byte := 5
  const DOUBLE: byte := 6
  const BYTE_ARRAY: byte := 7
  const STRING: byte := 8
  const LIST: byte := 9
  const COMPOUND: byte := 10
  const INT_ARRAY: byte := 11
  const LONG_ARRAY: byte := 12
  const TYPE_COUNT: byte := 13

  /** Capacity of the stacks of open containers. */
  const MAX_DEPTH: nat := 512

  /** The payload union. Numbers are kept as the bit pattern of the host variable. An array tag has
      two counts: `arraySize` is the member meant for arrays, `listSize` is the word the union
      shares with the list member. */
  datatype Payload =
    | Num(bits: nat)
    | Text(chars: seq<byte>)
    | ListHead(elem: byte, size: int)
    | ArrayHead(arraySize: int, listSize: int)
    | CompoundHead(count: int)

  datatype Tag = Tag(typ: byte, name: seq<byte>, data: Payload)

  datatype Tree = Node(tag: Tag, kids: seq<Tree>)

  predicate IsNumber(typ: byte) { BYTE <= typ <= DOUBLE }

  predicate IsFloating(typ: byte) { typ == FLOAT || typ == DOUBLE }

  predicate IsPlainArray(typ: byte) { typ == BYTE_ARRAY || typ == INT_ARRAY || typ == LONG_ARRAY }

  predicate IsNotArray(typ: byte) { !(typ == LIST || IsPlainArray(typ)) }

  predicate IsContainer(typ: byte) { typ == COMPOUND || !IsNotArray(typ) }

  function Width(typ: byte): nat
    requires IsNumber(typ)
  {
    if typ == BYTE then 1
    else if typ == SHORT then 2
    else if typ == INT || typ == FLOAT then 4
    else 8
  }

  /** The element type of the three array tags. */
  function ElementOf(typ: byte): byte
    requires IsPlainArray(typ)
  {
    if typ == BYTE_ARRAY then BYTE else if typ == INT_ARRAY then INT else LONG
  }

  /** The payload member a tag of each type uses. */
  predicate DataFits(tag: Tag) {
    if IsNumber(tag.typ) then tag.data.Num? && tag.data.bits < Pow256(Width(tag.typ))
    else if tag.typ == STRING then tag.data.Text?
    else if tag.typ == LIST then tag.data.ListHead?
    else if tag.typ == COMPOUND then tag.data.CompoundHead?
    else IsPlainArray(tag.typ) && tag.data.ArrayHead?
  }

  /** get_tag_size on containers: arrays are counted by the member meant for them. */
  function DeclaredCount(tag: Tag): int {
    match tag.data
    case CompoundHead(count) => count
    case ListHead(_, size) => size
    case ArrayHead(size, _) => size
    case _ => 0
  }

  /** The preorder array of a tree. */
  function Flat(t: Tree): (tags: seq<Tag>)
    ensures tags != [] && tags[0] == t.tag
  {
    [t.tag] + Flats(t.kids)
  }

  function Flats(ts: seq<Tree>): seq<Tag> {
    if ts == [] then [] else Flat(ts[0]) + Flats(ts[1..])
  }

  lemma {:induction false} FlatsAppend(ts: seq<Tree>, t: Tree)
    ensures Flats(ts + [t]) == Flats(ts) + Flat(t)
  {
    if ts != [] {
      assert (ts + [t])[1..] == ts[1..] + [t];
      FlatsAppend(ts[1..], t);
    } else {
      assert Flats([t]) == Flat(t) + Flats([]);
    }
  }

  /** Containers on the longest path from the root. */
  function Height(t: Tree): nat {
    (if IsContainer(t.tag.typ) then 1 else 0) + Heights(t.kids)
  }

  function Heights(ts: seq<Tree>): nat {
    if ts == [] then 0
    else var h, r := Height(ts[0]), Heights(ts[1..]); if h > r then h else r
  }

  /** Containers the parser has open at once: it never opens a list or an array without elements. */
  function OpenDepth(t: Tree): nat {
    (if t.tag.typ == COMPOUND || t.kids != [] then 1 else 0) + OpenDepths(t.kids)
  }

  function OpenDepths(ts: seq<Tree>): nat {
    if ts == [] then 0
    else var h, r := OpenDepth(ts[0]), OpenDepths(ts[1..]); if h > r then h else r
  }
}
