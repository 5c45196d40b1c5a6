/** The block-chained vector: elements lie in a chain of arrays of different sizes, one after the other. */
module Vector {
  import opened Wrappers

  /** The chain as one sequence. */
  function Concat<T>(rows: seq<seq<T>>): seq<T> {
    if rows == [] then [] else rows[0] + Concat(rows[1..])
  }

  /** Where block `b` starts in that sequence. */
  function Start<T>(rows: seq<seq<T>>, b: nat): nat
    requires b <= |rows|
  {
    |Concat(rows[..b])|
  }

  lemma {:induction false} ConcatSplit<T>(rows: seq<seq<T>>, b: nat)
    requires b <= |rows|
    ensures Concat(rows) == Concat(rows[..b]) + Concat(rows[b..])
  {
    if b == 0 {
      assert rows[0..] == rows;
    } else {
      ConcatSplit(rows[1..], b - 1);
      assert rows[..b][1..] == rows[1..][..b - 1] && rows[1..][b - 1..] == rows[b..];
    }
  }

  /** Slot `o` of block `b` holds the element at the block's start plus `o`. */
  lemma {:induction false} ConcatAt<T>(rows: seq<seq<T>>, b: nat)
    requires b < |rows|
    ensures Start(rows, b) + |rows[b]| == Start(rows, b + 1) <= |Concat(rows)| == Start(rows, |rows|)
    ensures Concat(rows)[Start(rows, b)..Start(rows, b + 1)] == rows[b]
  {
    ConcatSplit(rows, b);
    ConcatSplit(rows, b + 1);
    ConcatSplit(rows[..b + 1], b);
    assert rows[..b + 1][..b] == rows[..b] && rows[..b + 1][b..] == [rows[b]] && rows[..|rows|] == rows;
    assert Concat([rows[b]]) == rows[b] + Concat([]);
  }

  /** Changing one slot changes one element. */
  lemma {:induction false} ConcatPut<T>(rows: seq<seq<T>>, b: nat, o: nat, x: T)
    requires b < |rows| && o < |rows[b]|
    ensures Start(rows, b) + o < |Concat(rows)|
    ensures Concat(rows[b := rows[b][o := x]]) == Concat(rows)[Start(rows, b) + o := x]
    ensures forall i :: 0 <= i <= |rows| ==> Start(rows[b := rows[b][o := x]], i) == Start(rows, i)
  {
    var rows' := rows[b := rows[b][o := x]];
    ConcatAt(rows, b);
    ConcatSplit(rows, b);
    ConcatSplit(rows', b);
    assert rows'[..b] == rows[..b] && rows'[b..][1..] == rows[b..][1..];
    forall i | 0 <= i <= |rows| ensures Start(rows', i) == Start(rows, i) {
      SameLengths(rows'[..i], rows[..i]);
    }
  }

  lemma {:induction false} SameLengths<T>(a: seq<seq<T>>, b: seq<seq<T>>)
    requires |a| == |b| && forall i :: 0 <= i < |a| ==> |a[i]| == |b[i]|
    ensures |Concat(a)| == |Concat(b)|
  {
    if a != [] {
      SameLengths(a[1..], b[1..]);
    }
  }

  lemma {:induction false} ConcatMore<T>(rows: seq<seq<T>>, row: seq<T>)
    ensures Concat(rows + [row]) == Concat(rows) + row
    ensures forall i :: 0 <= i <= |rows| ==> Start(rows + [row], i) == Start(rows, i)
  {
    var all := rows + [row];
    ConcatSplit(all, |rows|);
    assert all[..|rows|] == rows && all[|rows|..] == [row];
    assert Concat([row]) == row + Concat([]);
    forall i | 0 <= i <= |rows| ensures Start(all, i) == Start(rows, i) {
      assert all[..i] == rows[..i];
    }
  }

  /** The elements from `i` to `j` moved one place down. */
  function Shifted<T>(s: seq<T>, i: nat, j: nat): (r: seq<T>)
    requires 0 < i <= j <= |s|
    ensures |r| == |s|
  {
    s[..i - 1] + s[i..j] + s[j - 1..]
  }

  lemma {:induction false} ShiftedNone<T>(s: seq<T>, i: nat)
    requires 0 < i <= |s|
    ensures Shifted(s, i, i) == s
  {
  }

  lemma {:induction false} ShiftedOn<T>(s: seq<T>, i: nat, j: nat)
    requires 0 < i <= j < |s|
    ensures Shifted(s, i, j)[j] == s[j] && Shifted(s, i, j)[j - 1 := s[j]] == Shifted(s, i, j + 1)
  {
  }

  /** Shifting up to the last element and forgetting that one removes an element. */
  lemma {:induction false} ShiftedRemoves<T>(s: seq<T>, i: nat, n: nat)
    requires i < n <= |s|
    ensures Shifted(s, i + 1, n)[..n - 1] == s[..n][..i] + s[..n][i + 1..]
  {
  }

  /** The counters of a chain of blocks: `size` is the capacity before `current` plus `nextInsert`. Only a
      block that is alone may be empty. */
  ghost predicate Counted<T>(rows: seq<seq<T>>, current: nat, nextInsert: nat, size: nat, capacity: nat) {
    current < |rows| && nextInsert <= |rows[current]|
    && (|rows| > 1 ==> forall i :: 0 <= i < |rows| ==> rows[i] != [])
    && size == Start(rows, current) + nextInsert && capacity == |Concat(rows)|
  }

  lemma {:induction false} CountedFits<T>(rows: seq<seq<T>>, current: nat, nextInsert: nat, size: nat, capacity: nat)
    requires Counted(rows, current, nextInsert, size, capacity)
    ensures size <= capacity && current < |rows| && nextInsert <= |rows[current]|
    ensures size == capacity <==> current == |rows| - 1 && nextInsert == |rows[current]|
  {
    ConcatAt(rows, current);
    if current + 1 < |rows| {
      ConcatAt(rows, current + 1);
    }
  }

  lemma {:induction false} CountedSolid<T>(rows: seq<seq<T>>, current: nat, nextInsert: nat, size: nat, capacity: nat)
    requires Counted(rows, current, nextInsert, size, capacity) && capacity > 0
    ensures (forall k :: 0 <= k < |rows| ==> |rows[k]| > 0) && |Concat(rows)| == capacity
  {
    if |rows| == 1 {
      assert Concat(rows) == rows[0] + Concat(rows[1..]);
    }
  }

  lemma {:induction false} CountedSame<T>(rows: seq<seq<T>>, rows': seq<seq<T>>, current: nat, nextInsert: nat, size: nat, capacity: nat)
    requires Counted(rows, current, nextInsert, size, capacity)
    requires |rows'| == |rows| && forall k :: 0 <= k < |rows| ==> |rows'[k]| == |rows[k]|
    ensures Counted(rows', current, nextInsert, size, capacity)
  {
    SameLengths(rows, rows');
    SameLengths(rows[..current], rows'[..current]);
  }

  /** A full chain with one more block goes on in that block. */
  lemma {:induction false} CountedMore<T>(rows: seq<seq<T>>, row: seq<T>, current: nat, nextInsert: nat, size: nat)
    requires Counted(rows, current, nextInsert, size, size) && row != [] && size > 0
    ensures Counted(rows + [row], |rows|, 0, size, size + |row|)
    ensures Concat(rows + [row])[..size] == Concat(rows)[..size]
  {
    CountedFits(rows, current, nextInsert, size, size);
    CountedSolid(rows, current, nextInsert, size, size);
    ConcatAt(rows, current);
    ConcatMore(rows, row);
  }

  /** Filling the next slot adds an element. */
  lemma {:induction false} CountedAdd<T>(rows: seq<seq<T>>, current: nat, nextInsert: nat, size: nat, capacity: nat, x: T)
    requires Counted(rows, current, nextInsert, size, capacity) && nextInsert < |rows[current]|
    ensures var rows' := rows[current := rows[current][nextInsert := x]];
            size < capacity && Counted(rows', current, nextInsert + 1, size + 1, capacity)
            && Concat(rows')[..size + 1] == Concat(rows)[..size] + [x]
  {
    ConcatAt(rows, current);
    ConcatPut(rows, current, nextInsert, x);
  }

  lemma {:induction false} CountedSlot<T>(rows: seq<seq<T>>, current: nat, nextInsert: nat, size: nat, capacity: nat)
    requires Counted(rows, current, nextInsert, size, capacity)
    ensures |Concat(rows)| == capacity
    ensures nextInsert < |rows[current]| ==> size < capacity && Concat(rows)[size] == rows[current][nextInsert]
  {
    ConcatAt(rows, current);
  }

  /** At the start of a block, one removal and one addition end behind a full block with room in the chain:
      the next addition is written past that block. */
  lemma {:induction false} RemovedAndAdded<T>(rows: seq<seq<T>>, current: nat, size: nat, capacity: nat)
    requires current > 0 && Counted(rows, current, 0, size, capacity)
    ensures Counted(rows, current - 1, |rows[current - 1]|, size, capacity) && size < capacity
  {
    CountedFits(rows, current, 0, size, capacity);
    ConcatAt(rows, current - 1);
  }

  /** register_removal: the last slot is given up, in the previous block when this one is empty. */
  lemma {:induction false} CountedRemove<T>(rows: seq<seq<T>>, current: nat, nextInsert: nat, size: nat, capacity: nat)
    requires Counted(rows, current, nextInsert, size, capacity) && size > 0
    ensures nextInsert == 0 ==> current > 0
    ensures var (c, n) := if nextInsert == 0 then (current - 1, |rows[current - 1]|) else (current, nextInsert);
            n > 0 && Counted(rows, c, n - 1, size - 1, capacity)
  {
    assert Start(rows, 0) == 0;
    if nextInsert == 0 {
      ConcatAt(rows, current - 1);
    }
  }

  ghost function RowsOf<T>(blocks: seq<array<T>>): (rows: seq<seq<T>>)
    reads blocks
    ensures |rows| == |blocks| && forall i :: 0 <= i < |rows| ==> rows[i] == blocks[i][..]
  {
    if blocks == [] then [] else [blocks[0][..]] + RowsOf(blocks[1..])
  }

  /** Where the blocks end, which block is current, and how many elements there are. */
  datatype Counters = Counters(ends: seq<nat>, current: nat, size: nat) {
    function Begin(): nat
      requires current <= |ends|
    {
      if current == 0 then 0 else ends[current - 1]
    }

    predicate Sound() {
      current < |ends| && Begin() <= size <= ends[current]
    }

    /** After an element has been removed. */
    function Fewer(): Counters
      requires Sound() && size > 0
    {
      Counters(ends, if size == Begin() then current - 1 else current, size - 1)
    }

    /** After an addition to a dynamic vector, unless that is written outside the block. */
    function More(): Option<Counters>
      requires Sound()
    {
      var capacity := ends[|ends| - 1];
      if size == capacity then
        if capacity < 2 then None else Some(Counters(ends + [capacity + capacity / 2], |ends|, size + 1))
      else if size == ends[current] then None
      else Some(this.(size := size + 1))
    }
  }

  ghost function Ends<T>(rows: seq<seq<T>>): (ends: seq<nat>)
    ensures |ends| == |rows| && forall b :: 0 <= b < |rows| ==> ends[b] == Start(rows, b + 1)
  {
    seq(|rows|, b requires 0 <= b < |rows| => Start(rows, b + 1))
  }

  lemma {:induction false} CountersOf<T>(rows: seq<seq<T>>, current: nat, nextInsert: nat, size: nat, capacity: nat)
    requires Counted(rows, current, nextInsert, size, capacity)
    ensures var c := Counters(Ends(rows), current, size);
            c.Sound() && c.ends[|rows| - 1] == capacity
            && (size == c.Begin() <==> nextInsert == 0) && (size == c.ends[current] <==> nextInsert == |rows[current]|)
  {
    StartNone(rows);
    StartAll(rows);
    ConcatAt(rows, current);
  }

  lemma {:induction false} OneRow<T>(row: seq<T>)
    ensures Counted([row], 0, 0, 0, |row|) && Ends([row]) == [|row|]
  {
    assert [row][..0] == [] && [row][..1] == [row];
    assert Concat([row]) == row + Concat([]);
  }

  lemma {:induction false} EndsMore<T>(rows: seq<seq<T>>, row: seq<T>)
    ensures Ends(rows + [row]) == Ends(rows) + [|Concat(rows)| + |row|]
  {
    hide Concat, Start;
    ConcatMore(rows, row);
    StartAll(rows);
    StartAll(rows + [row]);
  }

  lemma {:induction false} EndsSame<T>(rows: seq<seq<T>>, rows': seq<seq<T>>)
    requires |rows'| == |rows| && forall k :: 0 <= k < |rows| ==> |rows'[k]| == |rows[k]|
    ensures Ends(rows') == Ends(rows)
  {
    forall b | 0 <= b < |rows| ensures Ends(rows')[b] == Ends(rows)[b] {
      SameLengths(rows[..b + 1], rows'[..b + 1]);
    }
  }

  function Min(a: nat, b: nat): nat { if a < b then a else b }

  datatype Popped<T> = Nothing | Outside | Slot(x: T)

  datatype Outcome = Added | Full | Overrun

  class Vector<T(0)> {
    var blocks: seq<array<T>>
    var current: nat
    var nextInsert: nat
    var size: nat
    var capacity: nat
    const dynamic: bool

    ghost function Rows(): (rows: seq<seq<T>>)
      reads this`blocks, blocks
      ensures |rows| == |blocks| && forall i :: 0 <= i < |rows| ==> rows[i] == blocks[i][..]
    {
      RowsOf(blocks)
    }

    ghost predicate Valid()
      reads this, blocks
    {
      (forall i, j :: 0 <= i < j < |blocks| ==> blocks[i] != blocks[j])
      && Counted(Rows(), current, nextInsert, size, capacity) && size <= capacity
    }

    ghost function Elements(): (s: seq<T>)
      requires Valid()
      reads this, blocks
      ensures |s| == size
    {
      Concat(Rows())[..size]
    }

    ghost function Counts(): (c: Counters)
      reads this, blocks
    {
      Counters(Ends(Rows()), current, size)
    }

    /** vect_init and vect_init_dynamic. */
    constructor (capacity: nat, dynamic: bool)
      ensures Valid() && Elements() == [] && this.capacity == capacity && this.dynamic == dynamic
      ensures fresh(blocks) && Counts() == Counters([capacity], 0, 0)
    {
      var block := new T[capacity];
      blocks := [block];
      current, nextInsert, size := 0, 0, 0;
      this.capacity, this.dynamic := capacity, dynamic;
      new;
      assert Rows() == [block[..]];
      OneRow(block[..]);
    }

    /** A write into a block. */
    method Put(b: nat, o: nat, x: T)
      requires b < |blocks| && o < blocks[b].Length
      requires forall i, j :: 0 <= i < j < |blocks| ==> blocks[i] != blocks[j]
      modifies blocks[b]
      ensures Rows() == old(Rows())[b := old(Rows())[b][o := x]]
    {
      blocks[b][o] := x;
    }

    /** get_block_from_index. */
    method Locate(index: nat) returns (b: nat, o: nat)
      requires Valid() && index < size
      ensures b < |blocks| && o < blocks[b].Length && Start(Rows(), b) + o == index
    {
      b, o := 0, index;
      while o >= blocks[b].Length
        invariant b < |blocks| && Start(Rows(), b) + o == index
      {
        ConcatAt(Rows(), b);
        o := o - blocks[b].Length;
        b := b + 1;
      }
    }

    /** vect_get and vect_ref: the element at an index, if there is one. */
    method Get(index: nat) returns (found: bool, x: T)
      requires Valid()
      ensures found <==> index < size
      ensures found ==> x == Elements()[index]
    {
      found, x := false, *;
      if index < size {
        var b, o := Locate(index);
        ConcatAt(Rows(), b);
        found, x := true, blocks[b][o];
      }
    }

    /** A write through the pointer that vect_ref returns. */
    method Set(index: nat, x: T)
      requires Valid() && index < size
      modifies blocks
      ensures Valid() && Elements() == old(Elements())[index := x] && Counts() == old(Counts())
    {
      hide Concat, RowsOf, Start, Counted;
      ghost var rows := Rows();
      var b, o := Locate(index);
      ConcatPut(rows, b, o, x);
      Put(b, o, x);
      CountedSame(rows, Rows(), current, nextInsert, size, capacity);
      EndsSame(rows, Rows());
    }

    /** ensure_capacity, when the vector is full: a block of half the capacity is linked behind. */
    method Grow(more: nat)
      requires Valid() && size == capacity > 0 && more > 0
      modifies this
      ensures Valid() && capacity == old(capacity) + more && size == old(size)
      ensures Elements() == old(Elements()) && nextInsert < blocks[current].Length
      ensures |blocks| == |old(blocks)| + 1 && blocks[..|old(blocks)|] == old(blocks) && fresh(blocks[|old(blocks)|])
      ensures Counts() == Counters(old(Counts()).ends + [capacity], |old(blocks)|, size)
    {
      hide Counted, Concat, RowsOf, Start;
      ghost var rows := Rows();
      var block := new T[more];
      CountedFits(rows, current, nextInsert, size, capacity);
      CountedMore(rows, block[..], current, nextInsert, size);
      EndsMore(rows, block[..]);
      CountedSlot(rows, current, nextInsert, size, capacity);
      blocks := blocks + [block];
      capacity := capacity + more;
      assert Rows() == rows + [block[..]];
      if nextInsert == blocks[current].Length {
        current := current + 1;
        nextInsert := 0;
      }
    }

    /** vect_add. The current block only changes when the vector grows: once elements have been removed
        from a later block, a full block is written past its end. */
    method Add(x: T) returns (r: Outcome)
      requires Valid()
      modifies this, blocks
      ensures r == Full <==> old(size == capacity) && !dynamic
      ensures r == Overrun <==>
                if old(size == capacity) then dynamic && old(capacity) < 2
                else old(nextInsert) == old(blocks[current].Length)
      ensures r == Added ==> Valid() && Elements() == old(Elements()) + [x]
      ensures r == Added ==> capacity == old(capacity) + if old(size == capacity) then old(capacity) / 2 else 0
      ensures r == Added ==> forall b :: b in blocks ==> b in old(blocks) || fresh(b)
      ensures old(Counts()).Sound()
      ensures dynamic ==> (r == Overrun <==> old(Counts()).More() == None)
      ensures dynamic && r == Added ==> old(Counts()).More() == Some(Counts())
    {
      hide Concat, RowsOf, Start, Counted;
      CountedFits(Rows(), current, nextInsert, size, capacity);
      CountersOf(Rows(), current, nextInsert, size, capacity);
      if size + 1 > capacity {
        if !dynamic {
          return Full;
        }
        var more := capacity / 2;
        if more == 0 {
          return Overrun;
        }
        Grow(more);
      } else if nextInsert == blocks[current].Length {
        return Overrun;
      }
      Append(x);
      r := Added;
    }

    /** The element is copied into the next slot; register_addition. */
    method Append(x: T)
      requires Valid() && nextInsert < blocks[current].Length
      modifies this`nextInsert, this`size, blocks[current]
      ensures Valid() && Elements() == old(Elements()) + [x]
      ensures Counts() == old(Counts()).(size := size) && size == old(size) + 1
    {
      hide Concat, RowsOf, Start;
      ghost var rows := Rows();
      CountedAdd(rows, current, nextInsert, size, capacity, x);
      Put(current, nextInsert, x);
      EndsSame(rows, Rows());
      nextInsert := nextInsert + 1;
      size := size + 1;
    }

    /** memmove one slot down inside block `b`: the slots from `from` to `end`. */
    method MoveDown(b: nat, from: nat, end: nat, ghost i: nat, ghost all: seq<T>)
      requires b < |blocks| && 0 < from <= end <= blocks[b].Length
      requires forall i, j :: 0 <= i < j < |blocks| ==> blocks[i] != blocks[j]
      requires 0 < i <= Start(Rows(), b) + from <= |all| && Concat(Rows()) == Shifted(all, i, Start(Rows(), b) + from)
      modifies blocks[b]
      ensures Start(Rows(), b) == old(Start(Rows(), b)) && Start(Rows(), b) + end <= |all|
      ensures Concat(Rows()) == Shifted(all, i, Start(Rows(), b) + end)
      ensures forall k :: 0 <= k <= |blocks| ==> Start(Rows(), k) == old(Start(Rows(), k))
    {
      hide RowsOf, Start, Concat, Shifted;
      var k := from;
      ghost var s := Start(Rows(), b);
      while k < end
        invariant from <= k <= end && s + k <= |all| && Concat(Rows()) == Shifted(all, i, s + k)
        invariant forall k :: 0 <= k <= |blocks| ==> Start(Rows(), k) == old(Start(Rows(), k))
      {
        ghost var rows := Rows();
        var x := blocks[b][k];
        ConcatAt(rows, b);
        ShiftedOn(all, i, s + k);
        ConcatPut(rows, b, k - 1, x);
        Put(b, k - 1, x);
        k := k + 1;
      }
    }

    /** The first slot of block `b` moves to the end of the previous one. */
    method MoveAcross(b: nat, ghost i: nat, ghost all: seq<T>)
      requires 0 < b < |blocks| && 0 < blocks[b].Length && 0 < blocks[b - 1].Length
      requires forall i, j :: 0 <= i < j < |blocks| ==> blocks[i] != blocks[j]
      requires 0 < i <= Start(Rows(), b) < |all| && Concat(Rows()) == Shifted(all, i, Start(Rows(), b))
      modifies blocks[b - 1]
      ensures forall k :: 0 <= k <= |blocks| ==> Start(Rows(), k) == old(Start(Rows(), k))
      ensures Concat(Rows()) == Shifted(all, i, Start(Rows(), b) + 1)
    {
      hide RowsOf, Start, Concat, Shifted;
      ghost var rows := Rows();
      ghost var s := Start(rows, b);
      var last, x := blocks[b - 1].Length - 1, blocks[b][0];
      ConcatAt(rows, b);
      ConcatAt(rows, b - 1);
      ShiftedOn(all, i, s);
      ConcatPut(rows, b - 1, last, x);
      Put(b - 1, last, x);
    }

    /** Blocks start where they start in `rows`. */
    ghost predicate Like(rows: seq<seq<T>>)
      reads this`blocks, blocks
    {
      |rows| == |blocks| && forall k :: 0 <= k <= |blocks| ==> Start(Rows(), k) == Start(rows, k)
    }

    ghost predicate Apart()
      reads this`blocks
    {
      forall i, j :: 0 <= i < j < |blocks| ==> blocks[i] != blocks[j]
    }

    /** One round of shift_elements_backwards: the slots of block `b` from `start` to `end` move down. */
    method MoveBlock(b: nat, start: nat, end: nat, ghost i: nat, ghost all: seq<T>, ghost rows: seq<seq<T>>)
      requires Like(rows) && Apart()
      requires b < |blocks| && start < end <= blocks[b].Length && (b > 0 ==> 0 < blocks[b - 1].Length)
      requires 0 < i <= Start(rows, b) + start < |all| && Concat(Rows()) == Shifted(all, i, Start(rows, b) + start)
      modifies blocks
      ensures Like(rows) && Start(rows, b) + end <= |all|
      ensures Concat(Rows()) == Shifted(all, i, Start(rows, b) + end)
    {
      hide RowsOf, Start, Concat, Shifted;
      StartNone(Rows());
      if start == 0 {
        MoveAcross(b, i, all);
        MoveDown(b, 1, end, i, all);
      } else {
        MoveDown(b, start, end, i, all);
      }
    }

    /** shift_elements_backwards: all elements behind the one at `index`, in slot `o` of block `b0`, move
        one slot down, across the blocks. */
    method ShiftBackwards(b0: nat, o: nat, index: nat)
      requires Valid() && index < size && b0 < |blocks| && o < blocks[b0].Length && Start(Rows(), b0) + o == index
      modifies blocks
      ensures Valid() && Concat(Rows()) == Shifted(old(Concat(Rows())), index + 1, size)
    {
      hide RowsOf, Start, Concat, Shifted, Counted;
      ghost var all, rows := Concat(Rows()), Rows();
      CountedSolid(rows, current, nextInsert, size, capacity);
      assert forall k :: 0 <= k < |blocks| ==> blocks[k].Length == |rows[k]| > 0;
      ShiftedNone(all, index + 1);
      ConcatAt(rows, b0);
      if o + 1 == blocks[b0].Length {
        ShiftOn(b0 + 1, 0, index + 1, all, rows);
      } else {
        ShiftOn(b0, o + 1, index + 1, all, rows);
      }
      CountedSame(rows, Rows(), current, nextInsert, size, capacity);
    }

    /** The loop, from slot `o` of block `b0` on, where the element at `i` lies if there is one. */
    method ShiftOn(b0: nat, o: nat, i: nat, ghost all: seq<T>, ghost rows: seq<seq<T>>)
      requires Apart() && Rows() == rows && Concat(rows) == all && 0 < i <= size <= |all|
      requires forall k :: 0 <= k < |blocks| ==> blocks[k].Length == |rows[k]| > 0
      requires b0 <= |blocks| && (b0 < |blocks| ==> o < blocks[b0].Length) && Start(rows, b0) + o == i
      modifies blocks
      ensures Concat(Rows()) == Shifted(all, i, size)
    {
      hide RowsOf, Start, Concat, Shifted, Like, Apart;
      StartAll(rows);
      ShiftedNone(all, i);
      LikeSelf();
      var b, start, total := b0, o, size - i;
      while total > 0
        invariant 0 <= b <= |blocks| && 0 <= start && 0 <= total <= size - i
        invariant Like(rows) && Apart()
        invariant total > 0 ==> size - total == Start(rows, b) + start && (b < |blocks| ==> start < blocks[b].Length)
        invariant Concat(Rows()) == Shifted(all, i, size - total)
      {
        assert b < |blocks|;
        ConcatAt(rows, b);
        var end := Min(start + total, blocks[b].Length);
        MoveBlock(b, start, end, i, all, rows);
        total := total - (end - start);
        b, start := b + 1, 0;
      }
    }

    lemma LikeSelf()
      ensures Like(Rows())
    {
    }

    /** register_removal. */
    method RegisterRemoval()
      requires Valid() && size > 0
      modifies this`size, this`current, this`nextInsert
      ensures Valid() && size == old(size) - 1
      ensures old(Counts()).Sound() && Counts() == old(Counts()).Fewer()
    {
      hide RowsOf, Start, Concat, Counted;
      CountersOf(Rows(), current, nextInsert, size, capacity);
      CountedRemove(Rows(), current, nextInsert, size, capacity);
      size := size - 1;
      if nextInsert == 0 {
        current := current - 1;
        nextInsert := blocks[current].Length;
      }
      nextInsert := nextInsert - 1;
    }

    /** vect_remove. */
    method Remove(index: nat) returns (found: bool, x: T)
      requires Valid()
      modifies this`size, this`current, this`nextInsert, blocks
      ensures Valid() && (found <==> index < old(size))
      ensures found ==> x == old(Elements())[index]
                        && Elements() == old(Elements())[..index] + old(Elements())[index + 1..]
      ensures !found ==> Elements() == old(Elements())
    {
      hide RowsOf, Start, Concat, Shifted, Counted;
      found, x := Get(index);
      if found {
        ghost var all := Concat(Rows());
        CountedSolid(Rows(), current, nextInsert, size, capacity);
        var b, o := Locate(index);
        ShiftBackwards(b, o, index);
        ShiftedRemoves(all, index, size);
        RegisterRemoval();
      }
    }

    /** vect_pop: the last element goes, but what is handed out is the slot behind it. */
    method Pop() returns (r: Popped<T>)
      requires Valid()
      modifies this`size, this`current, this`nextInsert
      ensures Valid()
      ensures size == if old(size) == 0 then 0 else old(size) - 1
      ensures r.Nothing? <==> old(size) == 0
      ensures r.Outside? <==> old(size) > 0 && old(nextInsert) == old(blocks[current].Length)
      ensures old(size) > 0 ==> old(Counts()).Sound() && Counts() == old(Counts()).Fewer()
      ensures r.Slot? ==> old(size) < capacity && r.x == Concat(Rows())[old(size)]
      ensures Elements() == if old(size) == 0 then [] else old(Elements())[..size]
    {
      hide RowsOf, Start, Concat, Counted;
      if size == 0 {
        return Nothing;
      }
      CountedFits(Rows(), current, nextInsert, size, capacity);
      CountedSlot(Rows(), current, nextInsert, size, capacity);
      r := if nextInsert == blocks[current].Length then Outside else Slot(blocks[current][nextInsert]);
      ghost var all, was := Concat(Rows()), Elements();
      RegisterRemoval();
      assert all[..size] == was[..size];
    }

    /** vect_clear. */
    method Clear()
      requires Valid()
      modifies this`size, this`current, this`nextInsert
      ensures Valid() && Elements() == [] && capacity == old(capacity)
      ensures Counts() == Counters(old(Counts()).ends, 0, 0)
    {
      StartNone(Rows());
      size, current, nextInsert := 0, 0, 0;
    }
  }

  lemma {:induction false} StartNone<T>(rows: seq<seq<T>>)
    ensures Start(rows, 0) == 0
  {
  }

  lemma {:induction false} StartAll<T>(rows: seq<seq<T>>)
    ensures Start(rows, |rows|) == |Concat(rows)|
  {
    assert rows[..|rows|] == rows;
  }
}
