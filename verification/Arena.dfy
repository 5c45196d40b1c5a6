/** The arena allocator, with its allocations tracked. */
module Arena {
  import opened Intervals
  import opened Tracking
  import opened Vector
  import opened VectorRuns
  import opened Wrappers

  /** Exactly the bytes from `from` to `to` are tracked. */
  predicate Covers(allocs: seq<Alloc>, from: nat, to: nat) {
    Tiled(allocs)
    && if allocs == [] then from == to else allocs[0].start == from && allocs[|allocs| - 1].end == to
  }

  /** An arena that tracks all it has given out goes on doing so. */
  lemma {:induction false} CoversMore(allocs: seq<Alloc>, length: nat, bytes: nat, tag: int)
    requires Covers(allocs, 0, length)
    ensures Covers(Registered(allocs, length, length + bytes, tag), 0, length + bytes)
  {
    hide Before, Tiled;
    var left := Before(allocs, length);
    BeforeStarts(allocs, length);
    StaysTiled(allocs, length, length + bytes, tag);
    AllBefore(allocs, length);
  }

  lemma {:induction false} AllBefore(allocs: seq<Alloc>, length: nat)
    requires Covers(allocs, 0, length)
    ensures Before(allocs, length) == allocs
  {
  }

  lemma {:induction false} CoversLess(allocs: seq<Alloc>, length: nat, start: nat)
    requires Covers(allocs, 0, length) && start <= length
    ensures Covers(Unregistered(allocs, start), 0, start)
  {
    hide Before;
    var left := Before(allocs, start);
    BeforeStarts(allocs, start);
    StaysTiled(allocs, start, start, 0);
    if left != [] && |left| < |allocs| {
      assert allocs[|left| - 1].end == allocs[|left|].start;
    }
  }

  const WORD := 8
  const U64 := 0x1_0000_0000_0000_0000

  /** ceil_u64 to whole words, in 64 bits. */
  function Ceil(bytes: nat): (r: nat)
    ensures r % WORD == 0
    ensures bytes <= U64 - WORD ==> bytes <= r < bytes + WORD
  {
    if bytes % WORD == 0 then bytes else (bytes + WORD - bytes % WORD) % U64
  }

  /** The largest requests wrap around and get nothing. */
  lemma CeilWraps(bytes: nat)
    requires bytes < U64
    ensures Ceil(bytes) >= bytes <==> bytes <= U64 - WORD
    ensures bytes > U64 - WORD ==> Ceil(bytes) == 0
  {
  }

  /** The others are rounded up to multiples of eight bytes. */
  lemma CeilRounds(bytes: nat)
    requires bytes <= 18446744073709551608
    ensures Ceil(bytes) == (bytes + 7) / 8 * 8
  {
  }

  predicate Words(allocs: seq<Alloc>) {
    forall i :: 0 <= i < |allocs| ==> allocs[i].start % WORD == 0 && allocs[i].end % WORD == 0
  }

  lemma {:induction false} WordsKept(allocs: seq<Alloc>, start: nat, end: nat, tag: int)
    requires Words(allocs)
    ensures start % WORD == 0 && end % WORD == 0 ==> Words(Registered(allocs, start, end, tag))
    ensures start % WORD == 0 ==> Words(Unregistered(allocs, start))
  {
  }

  /** The tags are those of `was` below `length`; there are none from there on. */
  ghost predicate Kept(now: seq<Alloc>, was: seq<Alloc>, length: nat) {
    forall b: nat :: TagAt(now, b) == if b < length then TagAt(was, b) else None
  }

  /** The bytes from `offset` to `length` have got a tag. */
  ghost predicate Given(now: seq<Alloc>, was: seq<Alloc>, offset: nat, length: nat, tag: int) {
    forall b: nat :: TagAt(now, b) == if offset <= b < length then Some(tag) else TagAt(was, b)
  }

  lemma {:induction false} GivesMore(allocs: seq<Alloc>, length: nat, bytes: nat, tag: int)
    requires Covers(allocs, 0, length)
    ensures Given(Registered(allocs, length, length + bytes, tag), allocs, length, length + bytes, tag)
  {
    hide Registered, TagAt;
    var now := Registered(allocs, length, length + bytes, tag);
    forall b: nat ensures TagAt(now, b) == if length <= b < length + bytes then Some(tag) else TagAt(allocs, b) {
      TagsCover(allocs, b);
      if bytes > 0 {
        RegisteredTags(allocs, length, length + bytes, tag, b);
      } else {
        RegistersNothing(allocs, length, tag);
      }
    }
  }

  lemma {:induction false} RegistersNothing(allocs: seq<Alloc>, start: nat, tag: int)
    ensures Registered(allocs, start, start, tag) == allocs
  {
  }

  lemma {:induction false} Shrunk(allocs: seq<Alloc>, length: nat, start: nat)
    requires Covers(allocs, 0, length) && start <= length
    ensures Covers(Unregistered(allocs, start), 0, start) && Kept(Unregistered(allocs, start), allocs, start)
    ensures start % WORD == 0 && Words(allocs) ==> Words(Unregistered(allocs, start))
  {
    hide Unregistered, TagAt;
    CoversLess(allocs, length, start);
    forall b: nat ensures TagAt(Unregistered(allocs, start), b) == if b < start then TagAt(allocs, b) else None {
      UnregisteredTags(allocs, start, b);
    }
    if Words(allocs) {
      WordsKept(allocs, start, start, 0);
    }
  }

  lemma {:induction false} CoversTiled(allocs: seq<Alloc>, length: nat)
    requires Covers(allocs, 0, length)
    ensures Tiled(allocs) && Kept(allocs, allocs, length)
  {
    hide TagAt;
    forall b: nat ensures b >= length ==> TagAt(allocs, b) == None {
      TagsCover(allocs, b);
    }
  }

  /** No length is saved. */
  const NEVER := U64 - 1

  class Arena {
    const capacity: nat
    const tracker: Tracker
    var length: nat
    var saved: nat

    /** The tracked allocations tile exactly what has been given out. */
    ghost predicate Valid()
      reads this, tracker, tracker.allocs, tracker.allocs.blocks
    {
      length <= capacity < NEVER && tracker.Valid() && Covers(tracker.allocs.Elements(), 0, length)
    }

    ghost function Tracked(): seq<Alloc>
      requires tracker.Valid()
      reads this, tracker, tracker.allocs, tracker.allocs.blocks
    {
      tracker.allocs.Elements()
    }

    /** All offsets are multiples of the word size. */
    ghost predicate Aligned()
      requires tracker.Valid()
      reads this, tracker, tracker.allocs, tracker.allocs.blocks
    {
      length % WORD == 0 && Words(Tracked()) && (saved != NEVER ==> saved % WORD == 0)
    }

    constructor (capacity: nat)
      requires capacity < NEVER
      ensures Valid() && Aligned() && fresh(tracker) && fresh(tracker.allocs) && fresh(tracker.allocs.blocks)
      ensures this.capacity == capacity && length == 0 && saved == NEVER
    {
      hide Climbs, Records, Counted, Concat, RowsOf;
      this.capacity := capacity;
      tracker := new Tracker();
      length, saved := 0, NEVER;
    }

    /** arena_allocate: the offset of new memory at the end; the program ends when there is not enough. The
        allocation is tracked unless its interval is written outside the tracker's blocks. */
    method Allocate(bytes: nat, tag: int) returns (ok: bool, offset: nat, tracked: bool)
      requires Valid() && bytes < U64
      modifies this`length, tracker`sizes, tracker.allocs, tracker.allocs.blocks
      ensures ok <==> Ceil(bytes) <= capacity - old(length)
      ensures length == old(length) + if ok then Ceil(bytes) else 0
      ensures ok ==> offset == old(length)
      ensures tracked <==> !Climbs(FIRST, tracker.sizes)
      ensures tracker.sizes == old(tracker.sizes) + if ok then Steps(old(Tracked()), Register(offset, length, tag)) else []
      ensures tracked ==> Valid() && (old(Aligned()) ==> Aligned())
      ensures ok && tracked ==> Given(Tracked(), old(Tracked()), offset, length, tag)
      ensures !ok ==> tracked && Tracked() == old(Tracked())
    {
      hide Before, Registered, Covers, Words, Given, Climbs, Records, Steps, Tiled, Counted,
           Concat, RowsOf, TagAt;
      var aligned := Ceil(bytes);
      ok, offset, tracked := aligned <= capacity - length, length, true;
      ghost var was := Tracked();
      CoversTiled(was, length);
      if ok {
        CoversMore(was, length, aligned, tag);
        GivesMore(was, length, aligned, tag);
        if Words(was) && length % WORD == 0 {
          WordsKept(was, length, length + aligned, tag);
        }
        tracked := tracker.Register(length, length + aligned, tag);
        length := length + aligned;
      }
    }

    /** arena_free. Only freeing whole words keeps what follows aligned. */
    method Free(bytes: nat)
      requires Valid()
      modifies this`length, tracker`sizes, tracker.allocs, tracker.allocs.blocks
      ensures Valid() && length == if bytes > old(length) then 0 else old(length) - bytes
      ensures Kept(Tracked(), old(Tracked()), length)
      ensures old(Aligned()) ==> (Aligned() <==> bytes >= old(length) || bytes % WORD == 0)
    {
      hide Before, Unregistered, Covers, Words, Kept, Climbs, Records, Steps, Tiled, Counted,
           Concat, RowsOf, TagAt;
      var n := if bytes > length then length else bytes;
      CoversTiled(Tracked(), length);
      Shrunk(Tracked(), length, length - n);
      length := length - n;
      tracker.Unregister(length);
    }

    /** arena_free_ptr: everything from the pointer on is freed; a pointer to other memory is ignored. */
    method FreePtr(offset: int)
      requires Valid()
      modifies this`length, tracker`sizes, tracker.allocs, tracker.allocs.blocks
      ensures Valid() && length == if 0 <= offset < old(length) then offset else old(length)
      ensures Kept(Tracked(), old(Tracked()), length)
      ensures old(Aligned()) ==> (Aligned() <==> !(0 <= offset < old(length)) || offset % WORD == 0)
    {
      hide Before, Unregistered, Covers, Words, Kept, Climbs, Records, Steps, Tiled, Counted,
           Concat, RowsOf, TagAt;
      CoversTiled(Tracked(), length);
      if offset < 0 || offset >= length {
        return;
      }
      Shrunk(Tracked(), length, offset);
      length := offset;
      tracker.Unregister(length);
    }

    /** arena_save: the first save wins. */
    method Save()
      requires Valid()
      modifies this`saved
      ensures Valid() && saved == (if old(saved) == NEVER then length else old(saved))
      ensures old(Aligned()) ==> Aligned()
    {
      hide Climbs, Records, Tiled, Counted, Concat, RowsOf, Covers, Words;
      if saved != NEVER {
        return;
      }
      saved := length;
    }

    /** arena_restore: back to the saved length, unless less has been left since; nothing happens when none
        was saved. */
    method Restore()
      requires Valid()
      modifies this`length, this`saved, tracker`sizes, tracker.allocs, tracker.allocs.blocks
      ensures Valid() && saved == NEVER
      ensures length == if old(saved) <= old(length) then old(saved) else old(length)
      ensures Kept(Tracked(), old(Tracked()), length)
      ensures old(Aligned()) ==> Aligned()
    {
      hide Before, Covers, Words, Kept, Climbs, Records, Tiled, Counted, Concat, RowsOf, TagAt;
      CoversTiled(Tracked(), length);
      if length >= saved {
        Free(length - saved);
      }
      saved := NEVER;
    }
  }
}
