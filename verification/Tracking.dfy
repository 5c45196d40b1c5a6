/** The tracker of one block of memory: its intervals lie in a dynamic vector, which is written outside its
    blocks once the number of intervals climbs past the end of a block a second time. */
module Tracking {
  import opened Intervals
  import opened Vector
  import opened VectorRuns

  /** The slots a tracker starts with. */
  const FIRST: nat := 64

  /** How many intervals there are when a call has popped those it pops. */
  function Low(allocs: seq<Alloc>, call: Call): nat {
    match call
    case Register(start, end, _) =>
      var n := |Before(allocs, start)|;
      if start >= end then |allocs|
      else if n < |allocs| && allocs[n].start == start then n + 1
      else n
    case Unregister(start) => |Before(allocs, start)|
  }

  function Steps(allocs: seq<Alloc>, call: Call): seq<nat> {
    [Low(allocs, call), |After(allocs, call)|]
  }

  /** The numbers of intervals a run of calls goes through. */
  function Sizes(allocs: seq<Alloc>, calls: seq<Call>): seq<nat>
    decreases |calls|
  {
    if calls == [] then [] else Steps(allocs, calls[0]) + Sizes(After(allocs, calls[0]), calls[1..])
  }

  class Tracker {
    const allocs: Vector<Alloc>
    ghost var sizes: seq<nat>

    /** The vector is on the way down from the last of the sizes in `h`. */
    ghost predicate Going(h: seq<nat>)
      reads this, allocs, allocs.blocks
    {
      && allocs.Valid() && allocs.dynamic && Tiled(allocs.Elements())
      && h != [] && allocs.size <= h[|h| - 1] && !Climbs(FIRST, h)
      && Records(FIRST, h + [allocs.size], allocs.Counts())
    }

    ghost predicate Valid()
      reads this, allocs, allocs.blocks
    {
      && allocs.Valid() && allocs.dynamic && Tiled(allocs.Elements())
      && !Climbs(FIRST, sizes) && Records(FIRST, sizes, allocs.Counts())
    }

    constructor ()
      ensures Valid() && fresh(allocs) && fresh(allocs.blocks)
      ensures allocs.Elements() == [] && sizes == [0]
    {
      allocs := new Vector(FIRST, true);
      sizes := [0];
      RecordsFirst(FIRST);
    }

    lemma Starts()
      requires Valid()
      ensures Going(sizes) && sizes[|sizes| - 1] == allocs.size == |allocs.Elements()|
    {
      hide Records, Climbs;
      RecordsStay(FIRST, sizes, allocs.Counts());
      RecordsSize(FIRST, sizes, allocs.Counts());
    }

    /** vect_pop. */
    method Drop(ghost h: seq<nat>)
      requires Going(h) && allocs.size > 0
      modifies allocs`size, allocs`current, allocs`nextInsert
      ensures Going(h) && allocs.size == old(allocs.size) - 1
      ensures allocs.Elements() == old(allocs.Elements())[..old(allocs.size) - 1]
    {
      hide Records, Climbs, Counted, Concat, RowsOf;
      RecordsSize(FIRST, h + [allocs.size], allocs.Counts());
      RecordsFewer(FIRST, h, allocs.Counts());
      var _ := allocs.Pop();
    }

    /** A call that ends without an addition. */
    ghost method Stay(h: seq<nat>)
      requires Going(h)
      modifies this`sizes
      ensures Valid() && sizes == h + [allocs.size, allocs.size]
    {
      hide Records, Climbs;
      sizes := (h + [allocs.size]) + [allocs.size];
      RecordsStay(FIRST, h + [allocs.size], allocs.Counts());
      ClimbsDown(FIRST, h, allocs.size);
      ClimbsDown(FIRST, h + [allocs.size], allocs.size);
    }

    /** vect_add. */
    method Push(ghost h: seq<nat>, x: Alloc) returns (ok: bool)
      requires Going(h) && Tiled(allocs.Elements() + [x])
      modifies this`sizes, allocs, allocs.blocks
      ensures sizes == h + [old(allocs.size), old(allocs.size) + 1] && (ok <==> !Climbs(FIRST, sizes))
      ensures ok ==> Valid() && allocs.Elements() == old(allocs.Elements()) + [x]
      ensures ok ==> forall b :: b in allocs.blocks ==> b in old(allocs.blocks) || fresh(b)
    {
      hide Records, Climbs, Tiled, Counted, Concat, RowsOf;
      ghost var low := allocs.size;
      sizes := (h + [low]) + [low + 1];
      ClimbsDown(FIRST, h, low);
      RecordsMore(FIRST, h + [low], allocs.Counts());
      var r := allocs.Add(x);
      ok := r == Added;
    }

    /** A write through the pointer to the top interval. */
    method SetTop(ghost h: seq<nat>, x: Alloc)
      requires Going(h) && allocs.size > 0 && Tiled(allocs.Elements()[..allocs.size - 1] + [x])
      modifies allocs.blocks
      ensures Going(h) && allocs.Elements() == old(allocs.Elements())[..allocs.size - 1] + [x]
    {
      hide Records, Climbs, Tiled, Counted, Concat, RowsOf;
      ghost var was := allocs.Elements();
      allocs.Set(allocs.size - 1, x);
      assert was[|was| - 1 := x] == was[..|was| - 1] + [x];
    }

    /** The rounds that pop, of the loops in register_alloc and unregister_allocs. */
    method PopFrom(bound: nat, ghost h: seq<nat>)
      requires Going(h)
      modifies allocs`size, allocs`current, allocs`nextInsert
      ensures Going(h) && allocs.Elements() == Before(old(allocs.Elements()), bound)
    {
      hide Before, Records, Climbs, Tiled, Counted, Concat, RowsOf;
      ghost var was := allocs.Elements();
      while allocs.size > 0
        invariant Going(h) && Before(allocs.Elements(), bound) == Before(was, bound)
        decreases allocs.size
      {
        var _, top := allocs.Get(allocs.size - 1);
        if top.start < bound {
          break;
        }
        BeforePop(allocs.Elements(), bound);
        Drop(h);
      }
      BeforeStays(allocs.Elements(), bound);
    }

    /** register_alloc: intervals that start behind `start` are popped, one that starts there is replaced,
        one that starts before is cut off. */
    method Register(start: nat, end: nat, tag: int) returns (ok: bool)
      requires Valid()
      modifies this`sizes, allocs, allocs.blocks
      ensures sizes == old(sizes) + Steps(old(allocs.Elements()), Call.Register(start, end, tag))
      ensures ok <==> !Climbs(FIRST, sizes)
      ensures ok ==> Valid() && allocs.Elements() == Registered(old(allocs.Elements()), start, end, tag)
      ensures ok ==> forall b :: b in allocs.blocks ==> b in old(allocs.blocks) || fresh(b)
    {
      hide Before, Records, Climbs, Tiled, Counted, Concat, RowsOf, Registered, Unregistered, Steps, Ends, Start;
      ghost var h, was := sizes, allocs.Elements();
      Starts();
      if start >= end {
        RegistersNothing(was, start, end, tag);
        Stay(h);
        return true;
      }
      PopFrom(start + 1, h);
      ok := Place(start, end, tag, h, was);
    }

    /** The new interval goes on top: it replaces one that starts where it does, and cuts off one that starts
        before. */
    method Place(start: nat, end: nat, tag: int, ghost h: seq<nat>, ghost was: seq<Alloc>) returns (ok: bool)
      requires Going(h) && start < end && Tiled(was) && allocs.Elements() == Before(was, start + 1)
      modifies this`sizes, allocs, allocs.blocks
      ensures sizes == h + Steps(was, Call.Register(start, end, tag)) && (ok <==> !Climbs(FIRST, sizes))
      ensures ok ==> Valid() && allocs.Elements() == Registered(was, start, end, tag)
      ensures ok ==> forall b :: b in allocs.blocks ==> b in old(allocs.blocks) || fresh(b)
    {
      hide Before, Records, Climbs, Tiled, Counted, Concat, RowsOf, Registered, Steps, Ends, Start;
      RegisteredParts(was, start, end, tag);
      if allocs.size > 0 {
        var _, top := allocs.Get(allocs.size - 1);
        if top.start == start {
          SetTop(h, top.(end := end, tag := tag));
          Stay(h);
          return true;
        }
        SetTop(h, top.(end := start));
      }
      assert allocs.Elements() + [Alloc(start, end, tag)] == Registered(was, start, end, tag);
      ok := Push(h, Alloc(start, end, tag));
    }

    /** unregister_allocs. */
    method Unregister(start: nat)
      requires Valid()
      modifies this`sizes, allocs, allocs.blocks
      ensures Valid() && sizes == old(sizes) + Steps(old(allocs.Elements()), Call.Unregister(start))
      ensures allocs.Elements() == Unregistered(old(allocs.Elements()), start)
      ensures allocs.blocks == old(allocs.blocks)
    {
      hide Before, Records, Climbs, Tiled, Counted, Concat, RowsOf, Registered, Unregistered, Steps, Ends, Start;
      ghost var h, was := sizes, allocs.Elements();
      Starts();
      PopFrom(start, h);
      UnregisteredParts(was, start);
      if allocs.size > 0 {
        var _, top := allocs.Get(allocs.size - 1);
        if top.end > start {
          SetTop(h, top.(end := start));
        }
      }
      Stay(h);
    }
  }

  lemma {:induction false} RegistersNothing(allocs: seq<Alloc>, start: nat, end: nat, tag: int)
    requires start >= end
    ensures Registered(allocs, start, end, tag) == allocs
    ensures Steps(allocs, Call.Register(start, end, tag)) == [|allocs|, |allocs|]
  {
  }

  /** What unregister_allocs finds when it has popped what starts at `start` or behind. */
  lemma {:induction false} UnregisteredParts(allocs: seq<Alloc>, start: nat)
    requires Tiled(allocs)
    ensures var now, all := Before(allocs, start), Unregistered(allocs, start);
            var n := |now| - 1;
            Tiled(all) && Steps(allocs, Call.Unregister(start)) == [|now|, |now|]
            && all == if now != [] && now[n].end > start then now[..n] + [now[n].(end := start)] else now
  {
    hide Before, Tiled;
    StaysTiled(allocs, start, start, 0);
  }

  /** What register_alloc finds when it has popped what starts behind `start`. */
  lemma {:induction false} RegisteredParts(allocs: seq<Alloc>, start: nat, end: nat, tag: int)
    requires Tiled(allocs) && start < end
    ensures var now, call, all := Before(allocs, start + 1), Call.Register(start, end, tag), Registered(allocs, start, end, tag);
            var n := |now| - 1;
            Tiled(all)
            && Steps(allocs, call) == [|now|, if now != [] && now[n].start == start then |now| else |now| + 1]
            && (now == [] ==> all == [Alloc(start, end, tag)])
            && (now != [] && now[n].start == start ==> all == now[..n] + [now[n].(end := end, tag := tag)])
            && (now != [] && now[n].start != start ==>
                  Tiled(now[..n] + [now[n].(end := start)])
                  && all == now[..n] + [now[n].(end := start)] + [Alloc(start, end, tag)])
  {
    hide Before, Tiled;
    var now, left := Before(allocs, start + 1), Before(allocs, start);
    StaysTiled(allocs, start, end, tag);
    BeforeStarts(allocs, start + 1);
    BeforeTwice(allocs, start);
    if now == [] {
      BeforeNone(start);
    } else if now[|now| - 1].start == start {
      BeforeEnds(now, start);
      Replaced(now, end, tag);
      RegisteredAgain(allocs, now, start, end, tag);
    } else {
      BeforeStays(now, start);
      EndingTiled(now, start);
    }
  }

  lemma {:induction false} BeforeNone(start: nat)
    ensures Before([], start) == []
  {
  }

  lemma {:induction false} RegisteredAgain(allocs: seq<Alloc>, now: seq<Alloc>, start: nat, end: nat, tag: int)
    requires Before(now, start) == Before(allocs, start)
    requires start < end
    ensures Registered(allocs, start, end, tag) == Registered(now, start, end, tag)
  {
    hide Before;
  }

  lemma {:induction false} BeforeTwice(allocs: seq<Alloc>, start: nat)
    ensures Before(Before(allocs, start + 1), start) == Before(allocs, start)
  {
    if allocs != [] && allocs[|allocs| - 1].start >= start + 1 {
      BeforeTwice(allocs[..|allocs| - 1], start);
    }
  }

  lemma {:induction false} RecordsSize(first: nat, h: seq<nat>, c: Counters)
    requires Records(first, h, c)
    ensures h != [] && h[|h| - 1] == c.size && c.Sound()
  {
  }

  lemma {:induction false} BeforeEnds(allocs: seq<Alloc>, start: nat)
    requires Tiled(allocs) && allocs != [] && allocs[|allocs| - 1].start == start
    ensures Before(allocs, start) == allocs[..|allocs| - 1]
  {
    var n := |allocs| - 1;
    if n > 0 {
      assert allocs[n - 1].end == allocs[n].start;
      assert allocs[n - 1].start < allocs[n - 1].end;
    }
    assert Before(allocs[..n], start) == allocs[..n];
  }

  lemma {:induction false} RunStep(allocs: seq<Alloc>, calls: seq<Call>, i: nat)
    requires i < |calls|
    ensures Run(allocs, calls[i..]) == Run(After(allocs, calls[i]), calls[i + 1..])
    ensures Sizes(allocs, calls[i..]) == Steps(allocs, calls[i]) + Sizes(After(allocs, calls[i]), calls[i + 1..])
  {
    assert calls[i..][1..] == calls[i + 1..];
  }

  /** Every run of calls: the vector holds the intervals of the ideal list, tiled, exactly as long as their
      number does not climb past the end of a block a second time. */
  method Drive(t: Tracker, calls: seq<Call>) returns (ok: bool)
    requires t.Valid()
    modifies t`sizes, t.allocs, t.allocs.blocks
    ensures ok <==> !Climbs(FIRST, old(t.sizes) + Sizes(old(t.allocs.Elements()), calls))
    ensures ok ==> t.Valid() && t.allocs.Elements() == Run(old(t.allocs.Elements()), calls)
  {
    hide Climbs, Records, Tiled, Counted, Concat, RowsOf, After, Low, Run, Sizes, Steps;
    ghost var was := t.allocs.Elements();
    ghost var total := t.sizes + Sizes(was, calls);
    RunNone(was);
    var i := 0;
    while i < |calls|
      invariant 0 <= i <= |calls| && t.Valid()
      invariant forall b :: b in t.allocs.blocks ==> b in old(t.allocs.blocks) || fresh(b)
      invariant Run(t.allocs.Elements(), calls[i..]) == Run(was, calls)
      invariant t.sizes + Sizes(t.allocs.Elements(), calls[i..]) == total
    {
      ghost var now, sizes := t.allocs.Elements(), t.sizes;
      assert forall k :: 0 <= k < |t.allocs.blocks| ==> t.allocs.blocks[k] in t.allocs.blocks;
      RunStep(now, calls, i);
      Assoc(sizes, Steps(now, calls[i]), Sizes(After(now, calls[i]), calls[i + 1..]));
      ok := Do(t, calls[i]);
      if !ok {
        ClimbsOn(FIRST, t.sizes, Sizes(After(now, calls[i]), calls[i + 1..]));
        return;
      }
      i := i + 1;
    }
    RunNone(t.allocs.Elements());
    assert calls[i..] == [] && t.sizes + [] == t.sizes;
    ok := true;
  }

  method Do(t: Tracker, call: Call) returns (ok: bool)
    requires t.Valid()
    modifies t`sizes, t.allocs, t.allocs.blocks
    ensures t.sizes == old(t.sizes) + Steps(old(t.allocs.Elements()), call)
    ensures ok <==> !Climbs(FIRST, t.sizes)
    ensures ok ==> t.Valid() && t.allocs.Elements() == After(old(t.allocs.Elements()), call)
    ensures ok ==> forall b :: b in t.allocs.blocks ==> b in old(t.allocs.blocks) || fresh(b)
  {
    hide Climbs, Records, Tiled, Counted, Concat, RowsOf, Low, Registered, Unregistered;
    match call
    case Register(start, end, tag) =>
      ok := t.Register(start, end, tag);
    case Unregister(start) =>
      t.Unregister(start);
      ok := true;
  }

  lemma {:induction false} RunNone(allocs: seq<Alloc>)
    ensures Run(allocs, []) == allocs && Sizes(allocs, []) == []
  {
  }

  lemma {:induction false} Assoc<T>(a: seq<T>, b: seq<T>, c: seq<T>)
    ensures a + (b + c) == (a + b) + c
  {
  }

  /** As long as at most 64 allocations are tracked, nothing goes wrong. */
  lemma {:induction false} FewAllocations(calls: seq<Call>)
    requires forall i :: 0 <= i <= |calls| ==> |Run([], calls[..i])| <= 64
    ensures !Climbs(FIRST, [0] + Sizes([], calls))
  {
    hide Run, Sizes;
    RunNone([]);
    assert calls[..0] == [] && calls[0..] == calls;
    SizesBounded([], calls, 0);
    SmallStays(FIRST, [0] + Sizes([], calls));
  }

  lemma {:induction false} SizesBounded(allocs: seq<Alloc>, calls: seq<Call>, i: nat)
    requires i <= |calls| && allocs == Run([], calls[..i])
    requires forall i :: 0 <= i <= |calls| ==> |Run([], calls[..i])| <= FIRST
    ensures forall j :: 0 <= j < |Sizes(allocs, calls[i..])| ==> Sizes(allocs, calls[i..])[j] <= FIRST
    decreases |calls| - i
  {
    hide Run, Sizes, After, Before;
    if i < |calls| {
      RunStep(allocs, calls, i);
      assert calls[..i + 1] == calls[..i] + [calls[i]];
      RunMore([], calls[..i], [calls[i]]);
      RunStep(allocs, [calls[i]], 0);
      assert [calls[i]][0..] == [calls[i]] && [calls[i]][1..] == [];
      RunNone(After(allocs, calls[i]));
      SizesBounded(After(allocs, calls[i]), calls, i + 1);
      LowBelow(allocs, calls[i]);
    } else {
      assert calls[i..] == [];
      RunNone(allocs);
    }
  }

  lemma {:induction false} LowBelow(allocs: seq<Alloc>, call: Call)
    ensures Low(allocs, call) <= |allocs|
  {
  }

  lemma {:induction false} RunMore(allocs: seq<Alloc>, calls: seq<Call>, more: seq<Call>)
    ensures Run(allocs, calls + more) == Run(Run(allocs, calls), more)
    ensures Sizes(allocs, calls + more) == Sizes(allocs, calls) + Sizes(Run(allocs, calls), more)
    decreases |calls|
  {
    hide After, Steps;
    if calls == [] {
      assert calls + more == more;
    } else {
      assert (calls + more)[1..] == calls[1..] + more;
      RunMore(After(allocs, calls[0]), calls[1..], more);
    }
  }

  /** One byte after the other is registered. */
  function Fill(n: nat): (calls: seq<Call>)
    ensures |calls| == n
  {
    seq(n, i requires 0 <= i < n => Call.Register(i, i + 1, 0))
  }

  function Tiles(n: nat): (allocs: seq<Alloc>)
    ensures |allocs| == n
  {
    seq(n, i requires 0 <= i < n => Alloc(i, i + 1, 0))
  }

  lemma {:induction false} BeforeTiles(n: nat, start: nat)
    ensures Before(Tiles(n), start) == Tiles(if n < start then n else start)
  {
    if n > start {
      assert Tiles(n)[..n - 1] == Tiles(n - 1);
      BeforeTiles(n - 1, start);
    }
  }

  lemma {:induction false} NextTile(n: nat)
    ensures After(Tiles(n), Call.Register(n, n + 1, 0)) == Tiles(n + 1)
    ensures Steps(Tiles(n), Call.Register(n, n + 1, 0)) == [n, n + 1]
    ensures After(Tiles(n + 2), Call.Unregister(n)) == Tiles(n)
    ensures Steps(Tiles(n + 2), Call.Unregister(n)) == [n, n]
  {
    BeforeTiles(n, n);
    BeforeTiles(n + 2, n);
  }

  lemma {:induction false} Filled(n: nat)
    ensures Run([], Fill(n)) == Tiles(n)
    ensures n > 0 ==> Sizes([], Fill(n)) != [] && Sizes([], Fill(n))[|Sizes([], Fill(n))| - 1] == n
  {
    hide After, Steps;
    if n > 0 {
      var last := Call.Register(n - 1, n, 0);
      Filled(n - 1);
      assert Fill(n) == Fill(n - 1) + [last];
      RunMore([], Fill(n - 1), [last]);
      NextTile(n - 1);
      assert [last][1..] == [];
    }
  }

  /** Sixty-five allocations, two of them given back and two more made: the last one is written behind the
      first block of the vector. */
  lemma {:induction false} SecondClimb()
    ensures var calls := Fill(65) + [Call.Unregister(63), Call.Register(63, 64, 0), Call.Register(64, 65, 0)];
            Climbs(FIRST, [0] + Sizes([], calls))
  {
    hide After, Steps, Run, Sizes;
    var more := [Call.Unregister(63), Call.Register(63, 64, 0), Call.Register(64, 65, 0)];
    Filled(65);
    RunMore([], Fill(65), more);
    NextTile(63);
    NextTile(64);
    RunStep(Tiles(65), more, 0);
    RunStep(Tiles(63), more, 1);
    RunStep(Tiles(64), more, 2);
    assert more[0..] == more && more[3..] == [];
    RunNone(Tiles(65));
    var h := [0] + Sizes([], Fill(65) + more);
    var n := |Sizes([], Fill(65))|;
    assert Sizes([], Fill(65) + more) == Sizes([], Fill(65)) + [63, 63, 63, 64, 64, 65];
    assert h[n] == 65 && h[n + 1] == 63 && h[n + 6] == 65;
    assert End(FIRST, 0) == 64;
    Past(h, 64, n, n + 1, n + 6);
  }
}
