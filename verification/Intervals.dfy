/** The tracked allocations of one block of memory, as a list of intervals. */
module Intervals {
  import opened Wrappers

  datatype Alloc = Alloc(start: nat, end: nat, tag: int)

  /** Tracked allocations are not empty, and each one starts where the one before ends. */
  predicate Tiled(allocs: seq<Alloc>) {
    (forall i :: 0 <= i < |allocs| ==> allocs[i].start < allocs[i].end)
    && (forall i :: 0 < i < |allocs| ==> allocs[i - 1].end == allocs[i].start)
  }

  /** The tag a byte is tracked under. */
  function TagAt(allocs: seq<Alloc>, byte: nat): Option<int> {
    if allocs == [] then None
    else
      var top := allocs[|allocs| - 1];
      if top.start <= byte < top.end then Some(top.tag) else TagAt(allocs[..|allocs| - 1], byte)
  }

  /** What is left after popping all allocations that start at `start` or later. */
  function Before(allocs: seq<Alloc>, start: nat): (r: seq<Alloc>)
    ensures r <= allocs
  {
    if allocs == [] || allocs[|allocs| - 1].start < start then allocs else Before(allocs[..|allocs| - 1], start)
  }

  function EndingAt(allocs: seq<Alloc>, end: nat): (r: seq<Alloc>)
    ensures |r| == |allocs|
  {
    if allocs == [] then [] else allocs[..|allocs| - 1] + [allocs[|allocs| - 1].(end := end)]
  }

  /** register_alloc: the allocation before ends where the new one starts, also when that closes a gap. */
  function Registered(allocs: seq<Alloc>, start: nat, end: nat, tag: int): seq<Alloc> {
    if start >= end then allocs else EndingAt(Before(allocs, start), start) + [Alloc(start, end, tag)]
  }

  /** unregister_allocs. */
  function Unregistered(allocs: seq<Alloc>, start: nat): seq<Alloc> {
    var left := Before(allocs, start);
    if left != [] && left[|left| - 1].end > start then EndingAt(left, start) else left
  }

  lemma {:induction false} BeforeStarts(allocs: seq<Alloc>, start: nat)
    requires Tiled(allocs)
    ensures var r := Before(allocs, start);
            Tiled(r) && (r != [] ==> r[|r| - 1].start < start)
            && (|r| < |allocs| ==> allocs[|r|].start >= start)
  {
    if allocs != [] && allocs[|allocs| - 1].start >= start {
      BeforeStarts(allocs[..|allocs| - 1], start);
    }
  }

  /** Both calls keep the tracked allocations not empty, sorted and without gaps. */
  lemma {:induction false} StaysTiled(allocs: seq<Alloc>, start: nat, end: nat, tag: int)
    requires Tiled(allocs)
    ensures Tiled(Registered(allocs, start, end, tag)) && Tiled(Unregistered(allocs, start))
  {
    hide Before, Tiled, EndingAt;
    var left := Before(allocs, start);
    BeforeStarts(allocs, start);
    TiledOne(Alloc(start, end, tag));
    if left == [] {
      assert EndingAt(left, start) + [Alloc(start, end, tag)] == [Alloc(start, end, tag)];
    } else {
      EndingTiled(left, start);
      PushTiled(EndingAt(left, start), Alloc(start, end, tag));
    }
  }

  lemma {:induction false} TiledOne(a: Alloc)
    ensures a.start < a.end ==> Tiled([a])
  {
  }

  lemma {:induction false} EndingTiled(allocs: seq<Alloc>, end: nat)
    requires Tiled(allocs) && allocs != [] && allocs[|allocs| - 1].start < end
    ensures Tiled(EndingAt(allocs, end)) && EndingAt(allocs, end)[|allocs| - 1].end == end
  {
  }

  lemma {:induction false} PushTiled(allocs: seq<Alloc>, a: Alloc)
    requires Tiled(allocs) && allocs != [] && allocs[|allocs| - 1].end == a.start
    ensures a.start < a.end ==> Tiled(allocs + [a])
  {
  }

  datatype Call = Register(start: nat, end: nat, tag: int) | Unregister(start: nat)

  function After(allocs: seq<Alloc>, call: Call): seq<Alloc> {
    match call
    case Register(start, end, tag) => Registered(allocs, start, end, tag)
    case Unregister(start) => Unregistered(allocs, start)
  }

  function Run(allocs: seq<Alloc>, calls: seq<Call>): seq<Alloc>
    decreases |calls|
  {
    if calls == [] then allocs else Run(After(allocs, calls[0]), calls[1..])
  }

  lemma {:induction false} RunsTiled(allocs: seq<Alloc>, calls: seq<Call>)
    requires Tiled(allocs)
    ensures Tiled(Run(allocs, calls))
    decreases |calls|
  {
    hide Tiled, Registered, Unregistered;
    if calls != [] {
      match calls[0] {
        case Register(start, end, tag) => StaysTiled(allocs, start, end, tag);
        case Unregister(start) => StaysTiled(allocs, start, start, 0);
      }
      RunsTiled(After(allocs, calls[0]), calls[1..]);
    }
  }

  lemma {:induction false} TiledOrder(allocs: seq<Alloc>, i: nat, j: nat)
    requires Tiled(allocs) && i < j < |allocs|
    ensures allocs[i].end <= allocs[j].start
    decreases j
  {
    if i < j - 1 {
      TiledOrder(allocs, i, j - 1);
    }
  }

  /** Between the first start and the last end every byte has a tag, outside none has. */
  lemma {:induction false} TagsCover(allocs: seq<Alloc>, byte: nat)
    requires Tiled(allocs)
    ensures TagAt(allocs, byte).Some? <==> allocs != [] && allocs[0].start <= byte < allocs[|allocs| - 1].end
  {
    if allocs != [] {
      var n := |allocs| - 1;
      TagsCover(allocs[..n], byte);
      if n > 0 {
        TiledOrder(allocs, 0, n);
        assert allocs[n - 1].end == allocs[n].start;
      }
    }
  }

  /** Popping what starts later does not touch the bytes before. */
  lemma {:induction false} BeforeTags(allocs: seq<Alloc>, start: nat, byte: nat)
    requires byte < start
    ensures TagAt(Before(allocs, start), byte) == TagAt(allocs, byte)
  {
    if allocs != [] && allocs[|allocs| - 1].start >= start {
      BeforeTags(allocs[..|allocs| - 1], start, byte);
    }
  }

  lemma {:induction false} EndingTags(allocs: seq<Alloc>, end: nat, byte: nat)
    requires allocs != []
    ensures var top := allocs[|allocs| - 1];
            TagAt(EndingAt(allocs, end), byte)
            == if top.start <= byte < end then Some(top.tag) else TagAt(allocs[..|allocs| - 1], byte)
  {
    var r := EndingAt(allocs, end);
    assert r[..|r| - 1] == allocs[..|allocs| - 1];
  }

  lemma {:induction false} PushedTags(allocs: seq<Alloc>, a: Alloc, byte: nat)
    ensures TagAt(allocs + [a], byte) == if a.start <= byte < a.end then Some(a.tag) else TagAt(allocs, byte)
  {
    assert (allocs + [a])[..|allocs|] == allocs;
  }

  /** A registered range gets its tag, the bytes before keep theirs, and a gap before it goes to the
      allocation in front; what was behind is forgotten. */
  lemma {:induction false} RegisteredTags(allocs: seq<Alloc>, start: nat, end: nat, tag: int, byte: nat)
    requires Tiled(allocs) && start < end
    ensures TagAt(Registered(allocs, start, end, tag), byte)
            == if start <= byte < end then Some(tag)
               else if byte >= end then None
               else if allocs != [] && allocs[|allocs| - 1].end <= byte then Some(allocs[|allocs| - 1].tag)
               else TagAt(allocs, byte)
  {
    hide Before, TagAt;
    var left := Before(allocs, start);
    BeforeStarts(allocs, start);
    PushedTags(EndingAt(left, start), Alloc(start, end, tag), byte);
    if byte < start {
      BeforeTags(allocs, start, byte);
    }
    if left == [] {
      NoTag(byte);
      if allocs != [] {
        TiledEnds(allocs, 0);
      }
    } else {
      var n := |left| - 1;
      EndingTags(left, start, byte);
      TopTag(left, byte);
      TagsCover(left[..n], byte);
      if n > 0 {
        assert left[n - 1].end == left[n].start;
      }
      if |left| < |allocs| {
        assert allocs[n].end == allocs[n + 1].start;
        TiledEnds(allocs, n);
      }
    }
  }

  lemma {:induction false} NoTag(byte: nat)
    ensures TagAt([], byte) == None
  {
  }

  lemma {:induction false} TiledEnds(allocs: seq<Alloc>, i: nat)
    requires Tiled(allocs) && i < |allocs|
    ensures allocs[i].end <= allocs[|allocs| - 1].end
  {
    if i < |allocs| - 1 {
      TiledOrder(allocs, i, |allocs| - 1);
    }
  }

  lemma {:induction false} TopTag(allocs: seq<Alloc>, byte: nat)
    requires allocs != []
    ensures var top := allocs[|allocs| - 1];
            TagAt(allocs, byte) == if top.start <= byte < top.end then Some(top.tag) else TagAt(allocs[..|allocs| - 1], byte)
  {
  }

  /** What is unregistered loses its tag, and nothing else does. */
  lemma {:induction false} UnregisteredTags(allocs: seq<Alloc>, start: nat, byte: nat)
    requires Tiled(allocs)
    ensures TagAt(Unregistered(allocs, start), byte) == if byte < start then TagAt(allocs, byte) else None
  {
    hide Before, TagAt;
    var left := Before(allocs, start);
    BeforeStarts(allocs, start);
    StaysTiled(allocs, start, start, 0);
    TagsCover(Unregistered(allocs, start), byte);
    if byte < start {
      BeforeTags(allocs, start, byte);
      if left != [] {
        EndingTags(left, start, byte);
        TopTag(left, byte);
      }
    }
  }

  lemma {:induction false} BeforePop(allocs: seq<Alloc>, start: nat)
    requires allocs != [] && allocs[|allocs| - 1].start >= start
    ensures Before(allocs, start) == Before(allocs[..|allocs| - 1], start)
  {
  }

  lemma {:induction false} BeforeStays(allocs: seq<Alloc>, start: nat)
    requires allocs == [] || allocs[|allocs| - 1].start < start
    ensures Before(allocs, start) == allocs
  {
  }

  /** An allocation registered where one starts replaces it. */
  lemma {:induction false} Replaced(allocs: seq<Alloc>, end: nat, tag: int)
    requires Tiled(allocs) && allocs != [] && allocs[|allocs| - 1].start < end
    ensures var n := |allocs| - 1;
            Registered(allocs, allocs[n].start, end, tag) == allocs[..n] + [Alloc(allocs[n].start, end, tag)]
  {
    hide Before;
    var n := |allocs| - 1;
    BeforePop(allocs, allocs[n].start);
    if n > 0 {
      assert allocs[n - 1].end == allocs[n].start;
    }
    BeforeStays(allocs[..n], allocs[n].start);
    assert n > 0 ==> allocs[..n] == allocs[..n][..n - 1] + [allocs[n - 1]];
  }
}
