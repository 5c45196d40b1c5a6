/** Which runs of additions and removals a dynamic vector survives. Its blocks end at fixed sizes; an
    addition is written outside a block exactly when the size climbs past such an end a second time,
    having been below it in between. */
module VectorRuns {
  import opened Wrappers
  import opened Vector

  /** Where block `k` ends in a vector that starts with `first` slots. */
  function End(first: nat, k: nat): nat {
    if k == 0 then first else End(first, k - 1) + End(first, k - 1) / 2
  }

  lemma {:induction false} EndGrows(first: nat, j: nat, k: nat)
    requires first >= 2
    ensures End(first, j) >= 2 && (j < k ==> End(first, j) < End(first, k))
    decreases k + j
  {
    if j > 0 {
      EndGrows(first, j - 1, 0);
    }
    if j < k {
      EndGrows(first, j, k - 1);
      EndGrows(first, k - 1, 0);
    }
  }

  /** The sizes in `h` go above `e`, then below it, then above it again. */
  predicate ClimbsPast(h: seq<nat>, e: nat) {
    exists i, j, l :: 0 <= i < j < l < |h| && h[i] > e && h[j] < e && h[l] > e
  }

  ghost predicate Climbs(first: nat, h: seq<nat>) {
    exists k: nat :: ClimbsPast(h, End(first, k))
  }

  /** The sizes in `h` have been above `e`. */
  predicate Grown(h: seq<nat>, e: nat) {
    exists i :: 0 <= i < |h| && h[i] > e
  }

  /** The sizes in `h` have not been above `e` since they were below it. */
  predicate Fallen(h: seq<nat>, e: nat) {
    exists j :: 0 <= j < |h| && h[j] < e && forall l :: j < l < |h| ==> h[l] <= e
  }

  lemma {:induction false} GrownMore(h: seq<nat>, x: nat, e: nat)
    ensures Grown(h + [x], e) <==> Grown(h, e) || x > e
  {
    if Grown(h, e) {
      var i :| 0 <= i < |h| && h[i] > e;
      assert (h + [x])[i] > e;
    }
    if x > e {
      assert (h + [x])[|h|] > e;
    }
  }

  lemma {:induction false} FallenMore(h: seq<nat>, x: nat, e: nat)
    ensures Fallen(h + [x], e) <==> x < e || (x == e && Fallen(h, e))
  {
    var h' := h + [x];
    if x < e {
      assert h'[|h|] < e;
    }
    if Fallen(h', e) && x >= e {
      var j :| 0 <= j < |h'| && h'[j] < e && forall l :: j < l < |h'| ==> h'[l] <= e;
      assert j < |h| && h'[|h|] == x;
      assert h[j] < e;
      forall l | j < l < |h| ensures h[l] <= e {
        assert h'[l] == h[l];
      }
    }
    if Fallen(h, e) && x == e {
      var j :| 0 <= j < |h| && h[j] < e && forall l :: j < l < |h| ==> h[l] <= e;
      assert h'[j] < e;
    }
  }

  lemma {:induction false} Past(h: seq<nat>, e: nat, i: nat, j: nat, l: nat)
    requires i < j < l < |h| && h[i] > e && h[j] < e && h[l] > e
    ensures ClimbsPast(h, e)
  {
  }

  /** Only the last step can complete a climb. */
  lemma {:induction false} ClimbsPastMore(h: seq<nat>, x: nat, e: nat)
    ensures ClimbsPast(h + [x], e) <==> ClimbsPast(h, e) || (x > e && Grown(h, e) && Fallen(h, e))
  {
    if ClimbsPast(h + [x], e) && !ClimbsPast(h, e) {
      LastCompletes(h, x, e);
    }
    if ClimbsPast(h, e) {
      var i, j, l :| 0 <= i < j < l < |h| && h[i] > e && h[j] < e && h[l] > e;
      Past(h + [x], e, i, j, l);
    }
    if x > e && Grown(h, e) && Fallen(h, e) {
      var i :| 0 <= i < |h| && h[i] > e;
      var j :| 0 <= j < |h| && h[j] < e && forall l :: j < l < |h| ==> h[l] <= e;
      Past(h + [x], e, i, j, |h|);
    }
  }

  lemma {:induction false} LastCompletes(h: seq<nat>, x: nat, e: nat)
    requires ClimbsPast(h + [x], e) && !ClimbsPast(h, e)
    ensures x > e && Grown(h, e) && Fallen(h, e)
  {
    var h' := h + [x];
    var i, j, l :| 0 <= i < j < l < |h'| && h'[i] > e && h'[j] < e && h'[l] > e;
    assert h'[i] == h[i] && h'[j] == h[j];
    assert l == |h|;
  }

  lemma {:induction false} ClimbsOn(first: nat, h: seq<nat>, more: seq<nat>)
    requires Climbs(first, h)
    ensures Climbs(first, h + more)
  {
    var k: nat :| ClimbsPast(h, End(first, k));
    var e := End(first, k);
    var i, j, l :| 0 <= i < j < l < |h| && h[i] > e && h[j] < e && h[l] > e;
    Past(h + more, e, i, j, l);
  }

  /** The counters of a vector that has gone through the sizes in `h`: it has a block behind the one that
      ends at `e` once it has been larger than `e`, and its current block is not behind `e` exactly when it
      has been smaller than `e` and not larger since. */
  ghost predicate Records(first: nat, h: seq<nat>, c: Counters) {
    && first >= 2 && h != [] && c.Sound() && c.size == h[|h| - 1]
    && (forall k :: 0 <= k < |c.ends| ==> c.ends[k] == End(first, k))
    && (forall k: nat :: k + 1 < |c.ends| <==> Grown(h, End(first, k)))
    && (forall k: nat :: c.current <= k <==> Fallen(h, End(first, k)))
  }

  lemma {:induction false} RecordsFirst(first: nat)
    requires first >= 2
    ensures Records(first, [0], Counters([first], 0, 0)) && !Climbs(first, [0])
  {
    forall k: nat ensures Fallen([0], End(first, k)) && !Grown([0], End(first, k)) {
      EndGrows(first, k, k);
      assert [0][0] < End(first, k);
    }
  }

  /** Staying at a size. */
  lemma {:induction false} RecordsStay(first: nat, h: seq<nat>, c: Counters)
    requires Records(first, h, c)
    ensures Records(first, h + [c.size], c)
  {
    hide Fallen, Grown;
    forall k: nat ensures var e := End(first, k);
                          (k + 1 < |c.ends| <==> Grown(h + [c.size], e)) && (c.current <= k <==> Fallen(h + [c.size], e)) {
      var e := End(first, k);
      GrownMore(h, c.size, e);
      FallenMore(h, c.size, e);
      FallenBelow(h, e);
      GrownAbove(h, e);
    }
  }

  lemma {:induction false} FallenBelow(h: seq<nat>, e: nat)
    requires h != []
    ensures h[|h| - 1] < e ==> Fallen(h, e)
    ensures h[|h| - 1] > e ==> !Fallen(h, e)
  {
    var n := |h| - 1;
    assert h[..n] + [h[n]] == h;
    FallenMore(h[..n], h[n], e);
  }

  lemma {:induction false} GrownAbove(h: seq<nat>, e: nat)
    requires h != []
    ensures h[|h| - 1] > e ==> Grown(h, e)
  {
  }

  /** A removal, in the middle of going down from the last size in `h`. */
  lemma {:induction false} RecordsFewer(first: nat, h: seq<nat>, c: Counters)
    requires h != [] && c.Sound() && 0 < c.size <= h[|h| - 1] && Records(first, h + [c.size], c)
    ensures c.Fewer().Sound() && Records(first, h + [c.size - 1], c.Fewer())
  {
    hide Fallen, Grown;
    var s, c' := c.size, c.Fewer();
    assert (h + [s])[|h|] == s;
    forall k | 0 <= k < |c.ends| ensures c.ends[k] >= 2 && (k > 0 ==> c.ends[k - 1] < c.ends[k]) {
      EndGrows(first, k, k);
      if k > 0 {
        EndGrows(first, k - 1, k);
      }
    }
    forall k: nat ensures var e := End(first, k);
                          (k + 1 < |c.ends| <==> Grown(h + [s - 1], e)) && (c'.current <= k <==> Fallen(h + [s - 1], e)) {
      FewerStep(first, h, c, k);
    }
  }

  lemma {:induction false} FewerStep(first: nat, h: seq<nat>, c: Counters, k: nat)
    requires h != [] && c.Sound() && 0 < c.size <= h[|h| - 1] && Records(first, h + [c.size], c)
    ensures Grown(h + [c.size], End(first, k)) <==> Grown(h + [c.size - 1], End(first, k))
    ensures c.Fewer().current <= k <==> Fallen(h + [c.size - 1], End(first, k))
  {
    hide Fallen, Grown;
    var s, e := c.size, End(first, k);
    GrownMore(h, s, e);
    GrownMore(h, s - 1, e);
    GrownAbove(h, e);
    FallenMore(h, s, e);
    FallenMore(h, s - 1, e);
    FallenBelow(h, e);
    assert c.current <= k <==> Fallen(h + [s], e);
    assert c.ends[c.current] == End(first, c.current);
    if c.current > 0 {
      assert c.ends[c.current - 1] == End(first, c.current - 1);
    }
    Ordered(first, k, c.current);
    Ordered(first, k, c.current - 1);
  }

  lemma {:induction false} Ordered(first: nat, j: nat, k: int)
    requires first >= 2
    ensures k >= 0 ==> (j < k <==> End(first, j) < End(first, k)) && (j == k <==> End(first, j) == End(first, k))
  {
    if k >= 0 {
      EndGrows(first, j, k);
      EndGrows(first, k, j);
    }
  }

  /** Going down completes no climb. */
  lemma {:induction false} ClimbsDown(first: nat, h: seq<nat>, x: nat)
    requires h != [] && x <= h[|h| - 1]
    ensures Climbs(first, h + [x]) <==> Climbs(first, h)
  {
    hide ClimbsPast, Fallen, Grown;
    forall k: nat ensures ClimbsPast(h + [x], End(first, k)) <==> ClimbsPast(h, End(first, k)) {
      ClimbsPastMore(h, x, End(first, k));
      FallenBelow(h, End(first, k));
    }
  }

  /** An addition is written outside a block exactly when it completes a climb. */
  lemma {:induction false} RecordsMore(first: nat, h: seq<nat>, c: Counters)
    requires Records(first, h, c) && !Climbs(first, h)
    ensures match c.More()
            case None => Climbs(first, h + [c.size + 1])
            case Some(c') => c'.Sound() && Records(first, h + [c.size + 1], c') && !Climbs(first, h + [c.size + 1])
  {
    hide ClimbsPast, Fallen, Grown;
    EndGrows(first, |c.ends| - 1, |c.ends| - 1);
    forall k: nat ensures var e := End(first, k);
                          ClimbsPast(h + [c.size + 1], e)
                          <==> c.More() == None && k == c.current {
      MoreClimbs(first, h, c, k);
    }
    if c.More().Some? {
      var c' := c.More().value;
      forall k: nat ensures var e := End(first, k);
                            (k + 1 < |c'.ends| <==> Grown(h + [c.size + 1], e))
                            && (c'.current <= k <==> Fallen(h + [c.size + 1], e)) {
        MoreStep(first, h, c, k);
      }
    } else {
      assert ClimbsPast(h + [c.size + 1], End(first, c.current));
    }
  }

  /** A full current block that is not the last. */
  lemma {:induction false} MoreClimbs(first: nat, h: seq<nat>, c: Counters, k: nat)
    requires Records(first, h, c) && !ClimbsPast(h, End(first, k))
    ensures ClimbsPast(h + [c.size + 1], End(first, k)) <==> c.More() == None && k == c.current
  {
    hide ClimbsPast, Fallen, Grown;
    var n := |c.ends| - 1;
    ClimbsPastMore(h, c.size + 1, End(first, k));
    FallenBelow(h, End(first, k));
    EndGrows(first, n, n);
    assert c.ends[n] == End(first, n) && c.ends[c.current] == End(first, c.current);
    Ordered(first, k, c.current);
    Ordered(first, c.current, n);
  }

  lemma {:induction false} MoreStep(first: nat, h: seq<nat>, c: Counters, k: nat)
    requires Records(first, h, c) && c.More().Some?
    ensures var c', e := c.More().value, End(first, k);
            (k + 1 < |c'.ends| <==> Grown(h + [c.size + 1], e))
            && (c'.current <= k <==> Fallen(h + [c.size + 1], e))
  {
    hide ClimbsPast, Fallen, Grown;
    var n, e := |c.ends| - 1, End(first, k);
    GrownMore(h, c.size + 1, e);
    GrownAbove(h, e);
    FallenMore(h, c.size + 1, e);
    FallenBelow(h, e);
    assert c.ends[n] == End(first, n) && c.ends[c.current] == End(first, c.current);
    Ordered(first, k, c.current);
    Ordered(first, k, n);
    Ordered(first, k, n + 1);
    Ordered(first, c.current, n);
  }

  /** A vector that never outgrows its first block never climbs. */
  lemma {:induction false} SmallStays(first: nat, h: seq<nat>)
    requires first >= 2 && forall i :: 0 <= i < |h| ==> h[i] <= first
    ensures !Climbs(first, h)
  {
    forall k: nat ensures !ClimbsPast(h, End(first, k)) {
      EndGrows(first, 0, k);
    }
  }

  /** vect_clear: the size falls to 0 at once. */
  lemma {:induction false} RecordsCleared(first: nat, h: seq<nat>, c: Counters)
    requires Records(first, h, c)
    ensures Records(first, h + [0], Counters(c.ends, 0, 0))
  {
    hide Fallen, Grown;
    var c' := Counters(c.ends, 0, 0);
    forall k: nat ensures var e := End(first, k);
                          (k + 1 < |c.ends| <==> Grown(h + [0], e)) && Fallen(h + [0], e) {
      var e := End(first, k);
      EndGrows(first, k, k);
      GrownMore(h, 0, e);
      FallenMore(h, 0, e);
    }
    assert (h + [0])[|h|] == 0;
  }

  /** The counters after `n` additions to a new vector, unless one is written outside a block. */
  function Appended(first: nat, n: nat): (r: Option<Counters>)
    ensures r.Some? ==> r.value.Sound() && r.value.size == n && r.value.current == |r.value.ends| - 1
  {
    if n == 0 then Some(Counters([first], 0, 0))
    else match Appended(first, n - 1)
      case None => None
      case Some(c) => c.More()
  }

  /** A vector to which is only added is never written outside its blocks, unless it starts with fewer than two
      slots and outgrows them. */
  lemma {:induction false} AppendsExactly(first: nat, n: nat)
    ensures Appended(first, n).Some? <==> first >= 2 || n <= first
    ensures Appended(first, n).Some? ==> var c := Appended(first, n).value; c.ends[|c.ends| - 1] >= first
    ensures Appended(first, n).Some? && first < 2 ==> Appended(first, n).value.ends == [first]
  {
    if n > 0 {
      AppendsExactly(first, n - 1);
    }
  }
}
