/** The open-addressing dictionary (dynamic tables). */
module Dict {
  import opened Wrappers
  import opened Probe

  const MIN_CAPACITY: nat := 4

  /** A slot; the stored hash 0 marks an empty one. */
  datatype Slot<K, V> = Empty | Used(hash: nat, key: K, value: V)

  /** What dict_get reports. Unset is the miss in a dictionary that is not empty: the index 0 is
      returned, as if the key had been found there, and the value is copied from a node that was
      never set. Never stands for a search that goes on for ever. */
  datatype Lookup<V> = NotFound | Found(idx: nat, value: V) | Unset | Never

  datatype Search = Hit(idx: nat) | Miss | Endless

  /** The slot the searches stop at. */
  predicate Matches<K(==), V>(s: Slot<K, V>, h: nat, key: K) {
    s.Used? && s.hash == h && s.key == key
  }

  function UsedSlots<K, V>(tab: seq<Slot<K, V>>): set<nat> {
    set i: nat | 0 <= i < |tab| && tab[i].Used?
  }

  ghost predicate Hashed<K(!new), V(!new)>(tab: seq<Slot<K, V>>, hash: K -> nat) {
    forall i :: 0 <= i < |tab| && tab[i].Used? ==> tab[i].hash == hash(tab[i].key) != 0
  }

  ghost predicate NoDuplicates<K, V>(tab: seq<Slot<K, V>>) {
    forall i, j :: 0 <= i < j < |tab| && tab[i].Used? && tab[j].Used? ==> tab[i].key != tab[j].key
  }

  /** The table holds exactly the bindings of `m`. */
  ghost predicate Represents<K(!new), V>(tab: seq<Slot<K, V>>, m: map<K, V>) {
    && (forall i :: 0 <= i < |tab| && tab[i].Used? ==> tab[i].key in m && m[tab[i].key] == tab[i].value)
    && (forall k :: k in m ==> exists i :: 0 <= i < |tab| && tab[i].Used? && tab[i].key == k)
  }

  /** Used slots among the first `n` probes from `start`. */
  function Seen<K, V>(tab: seq<Slot<K, V>>, start: nat, n: nat): nat
    requires start < |tab|
  {
    if n == 0 then 0
    else Seen(tab, start, n - 1) + if Probed(tab, start, n - 1).Used? then 1 else 0
  }

  function Probed<K, V>(tab: seq<Slot<K, V>>, start: nat, n: nat): Slot<K, V>
    requires start < |tab|
  {
    InTable(|tab|, start, n);
    tab[Walk(|tab|, start, n)]
  }

  lemma {:induction false} InTable(cap: nat, start: nat, n: nat)
    requires start < cap
    ensures Walk(cap, start, n) < cap
  {
    if n > 0 {
      DivMod(5 * Walk(cap, start, n - 1) + 1, cap);
    }
  }

  ghost function ProbedSlots(cap: nat, start: nat, n: nat): set<nat>
    requires start < cap
  {
    if n == 0 then {} else ProbedSlots(cap, start, n - 1) + {Walk(cap, start, n - 1)}
  }

  lemma {:induction false} IsProbed(cap: nat, start: nat, n: nat, j: nat)
    requires start < cap && j < n
    ensures Walk(cap, start, j) in ProbedSlots(cap, start, n)
  {
    if j < n - 1 {
      IsProbed(cap, start, n - 1, j);
    }
  }

  lemma {:induction false} ProbedWhen(cap: nat, start: nat, n: nat, x: nat) returns (j: nat)
    requires start < cap && x in ProbedSlots(cap, start, n)
    ensures j < n && Walk(cap, start, j) == x
  {
    if x == Walk(cap, start, n - 1) {
      j := n - 1;
    } else {
      j := ProbedWhen(cap, start, n - 1, x);
    }
  }

  /** A slot is not among those probed before it. */
  lemma {:induction false} NotProbedYet(cap: nat, start: nat, n: nat)
    requires IsPow2(cap) && start < cap && n < cap
    ensures Walk(cap, start, n) !in ProbedSlots(cap, start, n)
  {
    if Walk(cap, start, n) in ProbedSlots(cap, start, n) {
      var j := ProbedWhen(cap, start, n, Walk(cap, start, n));
      WalkDistinct(cap, start, j, n);
    }
  }

  /** The first `cap` probes are distinct, so each used slot is counted once. */
  lemma {:induction false} SeenCounts<K, V>(tab: seq<Slot<K, V>>, start: nat, n: nat)
    requires IsPow2(|tab|) && start < |tab| && n <= |tab|
    ensures Seen(tab, start, n) == |ProbedSlots(|tab|, start, n) * UsedSlots(tab)|
  {
    if n > 0 {
      hide Walk, UsedSlots, IsPow2;
      SeenCounts(tab, start, n - 1);
      InTable(|tab|, start, n - 1);
      var x := Walk(|tab|, start, n - 1);
      NotProbedYet(|tab|, start, n - 1);
      UsedAt(tab, x);
      OneMore(ProbedSlots(|tab|, start, n - 1), UsedSlots(tab), x);
    }
  }

  lemma {:induction false} UsedAt<K, V>(tab: seq<Slot<K, V>>, i: nat)
    requires i < |tab|
    ensures i in UsedSlots(tab) <==> tab[i].Used?
  {
  }

  lemma {:induction false} OneMore<T>(a: set<T>, b: set<T>, x: T)
    requires x !in a
    ensures |(a + {x}) * b| == |a * b| + if x in b then 1 else 0
  {
    if x in b {
      assert (a + {x}) * b == a * b + {x};
    } else {
      assert (a + {x}) * b == a * b;
    }
  }

  lemma {:induction false} SubsetSize<T>(a: set<T>, b: set<T>)
    requires a <= b
    ensures |a| <= |b|
  {
    assert b == a + (b - a);
  }

  /** Before a used slot is reached, not all used slots have been seen. */
  lemma {:induction false} SeenBefore<K, V>(tab: seq<Slot<K, V>>, start: nat, n: nat)
    requires IsPow2(|tab|) && start < |tab| && n < |tab| && Probed(tab, start, n).Used?
    ensures Seen(tab, start, n) < |UsedSlots(tab)|
  {
    var x := Walk(|tab|, start, n);
    SeenCounts(tab, start, n);
    NotProbedYet(|tab|, start, n);
    InTable(|tab|, start, n);
    assert x in UsedSlots(tab);
    SubsetSize(ProbedSlots(|tab|, start, n) * UsedSlots(tab), UsedSlots(tab) - {x});
  }

  /** After `cap` probes all used slots have been seen. */
  lemma {:induction false} SeenAll<K, V>(tab: seq<Slot<K, V>>, start: nat)
    requires IsPow2(|tab|) && start < |tab|
    ensures Seen(tab, start, |tab|) == |UsedSlots(tab)|
  {
    SeenCounts(tab, start, |tab|);
    forall x | x in UsedSlots(tab) ensures x in ProbedSlots(|tab|, start, |tab|) {
      var n := WalkReaches(|tab|, start, x);
      IsProbed(|tab|, start, |tab|, n);
    }
    assert ProbedSlots(|tab|, start, |tab|) * UsedSlots(tab) == UsedSlots(tab);
  }

  lemma {:induction false} SeenGrows<K, V>(tab: seq<Slot<K, V>>, start: nat, a: nat, b: nat)
    requires start < |tab| && a <= b
    ensures Seen(tab, start, a) <= Seen(tab, start, b)
  {
    if a < b {
      SeenGrows(tab, start, a, b - 1);
    }
  }

  lemma {:induction false} WalkShift(cap: nat, x: nat, n: nat)
    requires cap > 0
    ensures Walk(cap, Next(cap, x), n) == Walk(cap, x, n + 1)
  {
    if n > 0 {
      WalkShift(cap, x, n - 1);
    } else {
      assert Walk(cap, x, 0) == x;
    }
  }

  /** The key sits on its probe path with no hole before it. */
  ghost predicate Placed<K, V>(tab: seq<Slot<K, V>>, h: nat, key: K) {
    |tab| > 0 && exists n: nat :: n < |tab| && LandsAt(tab, h, key, n) && Probed(tab, h % |tab|, n).Used?
  }

  /** The `n`-th probe is the first that finds an empty slot or the key. */
  ghost predicate LandsAt<K, V>(tab: seq<Slot<K, V>>, h: nat, key: K, n: nat)
    requires |tab| > 0
  {
    var start := h % |tab|;
    && (Probed(tab, start, n).Empty? || Matches(Probed(tab, start, n), h, key))
    && forall j: nat :: j < n ==> Probed(tab, start, j).Used? && !Matches(Probed(tab, start, j), h, key)
  }

  lemma {:induction false} LandsOnce<K, V>(tab: seq<Slot<K, V>>, h: nat, key: K, n: nat, n': nat)
    requires |tab| > 0 && LandsAt(tab, h, key, n) && LandsAt(tab, h, key, n')
    ensures n == n'
  {
  }

  /** Some used slot lies ahead of every slot. */
  lemma {:induction false} NextUsed<K, V>(tab: seq<Slot<K, V>>, idx: nat, x: nat) returns (d: nat)
    requires IsPow2(|tab|) && idx < |tab| && x < |tab| && tab[x].Used?
    ensures Probed(tab, idx, d).Used?
  {
    d := WalkReaches(|tab|, idx, x);
  }

  lemma {:induction false} UsedAhead<K, V>(tab: seq<Slot<K, V>>, idx: nat, d: nat)
    requires idx < |tab| && Probed(tab, idx, d).Used? && tab[idx].Empty?
    ensures d > 0 && Next(|tab|, idx) < |tab| && Probed(tab, Next(|tab|, idx), d - 1).Used?
  {
    assert Probed(tab, idx, 0) == tab[idx];
    StepAhead(tab, idx, d);
  }

  /** Some empty slot lies ahead of every slot of a table that is not full. */
  lemma {:induction false} NextEmpty<K, V>(tab: seq<Slot<K, V>>, idx: nat) returns (d: nat)
    requires IsPow2(|tab|) && idx < |tab| && |UsedSlots(tab)| < |tab|
    ensures d < |tab| && Probed(tab, idx, d).Empty?
  {
    BelowSize(|tab|);
    DifferenceSize(UsedSlots(tab), Below(|tab|));
    var x :| x in Below(|tab|) - UsedSlots(tab);
    d := WalkReaches(|tab|, idx, x);
  }

  lemma {:induction false} DifferenceSize<T>(a: set<T>, b: set<T>)
    ensures |b - a| >= |b| - |a|
  {
    SubsetSize(a * b, a);
    assert b == (b - a) + (a * b);
  }

  ghost function Below(n: nat): set<nat> {
    if n == 0 then {} else Below(n - 1) + {n - 1}
  }

  lemma {:induction false} BelowSize(n: nat)
    ensures |Below(n)| == n && forall i: nat :: i in Below(n) <==> i < n
  {
    if n > 0 {
      BelowSize(n - 1);
    }
  }

  /** One step along the path. */
  lemma {:induction false} StepAhead<K, V>(tab: seq<Slot<K, V>>, idx: nat, d: nat)
    requires idx < |tab| && d > 0
    ensures Next(|tab|, idx) < |tab| && Probed(tab, Next(|tab|, idx), d - 1) == Probed(tab, idx, d)
  {
    DivMod(5 * idx + 1, |tab|);
    WalkShift(|tab|, idx, d - 1);
  }

  /** When as many used slots have been seen as `size` says, a key not found is not stored. */
  lemma {:induction false} NeverMissed<K(!new), V(!new)>(tab: seq<Slot<K, V>>, hash: K -> nat, start: nat, n: nat, key: K)
    requires IsPow2(|tab|) && start < |tab| && Hashed(tab, hash)
    requires Seen(tab, start, n) >= |UsedSlots(tab)|
    requires forall j: nat :: j < n ==> !Matches(Probed(tab, start, j), hash(key), key)
    ensures forall i :: 0 <= i < |tab| && tab[i].Used? ==> tab[i].key != key
  {
    forall i | 0 <= i < |tab| && tab[i].Used? ensures tab[i].key != key {
      var j := WalkReaches(|tab|, start, i);
      SeenBefore(tab, start, j);
      if j >= n {
        SeenGrows(tab, start, n, j);
      }
      assert !Matches(Probed(tab, start, j), hash(key), key);
    }
  }

  /** In a table that holds nothing, under a size that is not 0, no round of get_elem ends the search. */
  lemma {:induction false} SearchNeverEnds<K, V>(tab: seq<Slot<K, V>>, size: nat, start: nat, n: nat, h: nat, key: K)
    requires start < |tab| && UsedSlots(tab) == {} && size > 0
    ensures !Matches(Probed(tab, start, n), h, key) && Seen(tab, start, n + 1) == 0 < size
  {
    InTable(|tab|, start, n);
    assert Probed(tab, start, n).Empty? by {
      assert Walk(|tab|, start, n) !in UsedSlots(tab);
    }
    if n > 0 {
      SearchNeverEnds(tab, size, start, n - 1, h, key);
    }
  }

  /** A search that has not seen all used slots is still within its first turn. */
  lemma {:induction false} WithinOneTurn<K, V>(tab: seq<Slot<K, V>>, start: nat, n: nat)
    requires IsPow2(|tab|) && start < |tab| && Seen(tab, start, n) < |UsedSlots(tab)|
    ensures n < |tab|
  {
    if n >= |tab| {
      SeenAll(tab, start);
      SeenGrows(tab, start, |tab|, n);
    }
  }

  /** The first match on a path is met in the first turn. */
  lemma {:induction false} FirstTurn<K, V>(tab: seq<Slot<K, V>>, start: nat, n: nat, h: nat, key: K)
    requires IsPow2(|tab|) && start < |tab| && Matches(Probed(tab, start, n), h, key)
    requires forall j: nat :: j < n ==> !Matches(Probed(tab, start, j), h, key)
    ensures n < |tab|
  {
    InTable(|tab|, start, n);
    var j := WalkReaches(|tab|, start, Walk(|tab|, start, n));
    assert Matches(Probed(tab, start, j), h, key);
  }

  lemma {:induction false} HasUsed<K(!new), V>(tab: seq<Slot<K, V>>, m: map<K, V>)
    requires Represents(tab, m)
    ensures m == map[] <==> UsedSlots(tab) == {}
  {
    if m != map[] {
      var k :| k in m;
      var i :| 0 <= i < |tab| && tab[i].Used? && tab[i].key == k;
      assert i in UsedSlots(tab);
    }
    if UsedSlots(tab) != {} {
      var i :| i in UsedSlots(tab);
      assert tab[i].key in m;
    }
  }

  /** The search has gone past `n` slots. */
  ghost predicate Passed<K, V>(tab: seq<Slot<K, V>>, h: nat, key: K, n: nat)
    requires 0 < |tab|
  {
    forall j: nat :: j < n ==> !Matches(Probed(tab, Home(tab, h), j), h, key)
  }

  lemma {:induction false} SearchStart<K, V>(tab: seq<Slot<K, V>>, h: nat, key: K)
    requires 0 < |tab|
    ensures Walk(|tab|, Home(tab, h), 0) == Home(tab, h) == h % |tab| && Seen(tab, Home(tab, h), 0) == 0
    ensures Passed(tab, h, key, 0)
  {
  }

  /** One round of the search. */
  lemma {:induction false} SearchOn<K, V>(tab: seq<Slot<K, V>>, h: nat, key: K, n: nat)
    requires 0 < |tab| && Passed(tab, h, key, n)
    ensures var start := Home(tab, h);
            var idx := Walk(|tab|, start, n);
            && idx < |tab| && Probed(tab, start, n) == tab[idx]
            && Next(|tab|, idx) == Walk(|tab|, start, n + 1) < |tab|
            && Seen(tab, start, n + 1) == Seen(tab, start, n) + (if tab[idx].Used? then 1 else 0)
            && (!Matches(tab[idx], h, key) ==> Passed(tab, h, key, n + 1))
  {
    InTable(|tab|, Home(tab, h), n);
    InTable(|tab|, Home(tab, h), n + 1);
  }

  lemma {:induction false} SearchMissed<K(!new), V(!new)>(tab: seq<Slot<K, V>>, hash: K -> nat, key: K, n: nat, size: nat)
    requires 0 < |tab| && IsPow2(|tab|) && Hashed(tab, hash) && Passed(tab, hash(key), key, n + 1)
    requires Seen(tab, Home(tab, hash(key)), n) < size == Seen(tab, Home(tab, hash(key)), n + 1)
    requires |UsedSlots(tab)| <= size
    ensures UsedSlots(tab) != {} && forall i :: 0 <= i < |tab| && tab[i].Used? ==> tab[i].key != key
    ensures size == |UsedSlots(tab)| ==> n < |tab|
  {
    var start := Home(tab, hash(key));
    NeverMissed(tab, hash, start, n + 1, key);
    InTable(|tab|, start, n);
    UsedAt(tab, Walk(|tab|, start, n));
    if size == |UsedSlots(tab)| {
      WithinOneTurn(tab, start, n);
    }
  }

  lemma {:induction false} SearchHit<K, V>(tab: seq<Slot<K, V>>, h: nat, key: K, n: nat)
    requires 0 < |tab| && IsPow2(|tab|) && Passed(tab, h, key, n)
    requires var idx := Walk(|tab|, Home(tab, h), n); idx < |tab| && Matches(tab[idx], h, key)
    ensures n < |tab| && Meets(tab, h, key, 0) == n
  {
    assert Probed(tab, Home(tab, h), n) == tab[Walk(|tab|, Home(tab, h), n)];
    FirstTurn(tab, Home(tab, h), n, h, key);
    MeetsFirst(tab, h, key, n);
  }

  lemma {:induction false} NoneStored<K, V>(tab: seq<Slot<K, V>>, key: K)
    requires |UsedSlots(tab)| == 0
    ensures UsedSlots(tab) == {} && forall i :: 0 <= i < |tab| ==> tab[i].Empty?
  {
    assert UsedSlots(tab) == {};
    forall i | 0 <= i < |tab| ensures tab[i].Empty? {
      assert i !in UsedSlots(tab);
    }
  }

  lemma {:induction false} EmptyTable<K(!new), V>(tab: seq<Slot<K, V>>, hash: K -> nat, m: map<K, V>, key: K)
    requires |UsedSlots(tab)| == 0
    ensures Represents(tab, m) ==> m == map[]
  {
    assert UsedSlots(tab) == {};
    if Represents(tab, m) {
      HasUsed(tab, m);
    }
  }

  lemma {:induction false} LandsInFirstTurn<K, V>(tab: seq<Slot<K, V>>, h: nat, key: K, n: nat)
    requires |tab| > 0 && IsPow2(|tab|) && LandsAt(tab, h, key, n)
    ensures n < |tab|
    ensures Placed(tab, h, key) <==> Probed(tab, h % |tab|, n).Used?
  {
    var start := h % |tab|;
    DivMod(h, |tab|);
    InTable(|tab|, start, n);
    var j := WalkReaches(|tab|, start, Walk(|tab|, start, n));
    assert Probed(tab, start, j) == Probed(tab, start, n);
    if Placed(tab, h, key) {
      var n': nat :| n' < |tab| && LandsAt(tab, h, key, n') && Probed(tab, start, n').Used?;
      LandsOnce(tab, h, key, n, n');
    }
  }

  lemma {:induction false} Landed<K, V>(tab: seq<Slot<K, V>>, h: nat, key: K, n: nat, idx: nat)
    requires IsPow2(|tab|) && |tab| > 0 && LandsAt(tab, h, key, n) && idx == Walk(|tab|, h % |tab|, n) < |tab|
    ensures Landing(tab, h, key, idx) && (tab[idx].Empty? || Matches(tab[idx], h, key))
    ensures Placed(tab, h, key) <==> tab[idx].Used?
  {
    LandsInFirstTurn(tab, h, key, n);
  }

  /** No stored hash is 0, so the search for a key with that hash ends at a hole. */
  lemma {:induction false} ZeroLandsInHole<K(!new), V(!new)>(tab: seq<Slot<K, V>>, hash: K -> nat, key: K, n: nat)
    requires |tab| > 0 && Hashed(tab, hash) && hash(key) == 0 && LandsAt(tab, 0, key, n)
    ensures Probed(tab, 0 % |tab|, n).Empty?
  {
    DivMod(0, |tab|);
    InTable(|tab|, 0 % |tab|, n);
  }

  /** Writing a binding where the search for its key landed. */
  lemma {:induction false} PutKeeps<K(!new), V(!new)>(tab: seq<Slot<K, V>>, m: map<K, V>, hash: K -> nat,
                                                      idx: nat, key: K, value: V)
    requires Hashed(tab, hash) && NoDuplicates(tab) && Represents(tab, m)
    requires idx < |tab| && hash(key) != 0 && (tab[idx].Empty? || Matches(tab[idx], hash(key), key))
    ensures var tab' := tab[idx := Used(hash(key), key, value)];
            && Hashed(tab', hash) && |UsedSlots(tab')| <= |UsedSlots(tab)| + 1
            && (NoDuplicates(tab') <==> key !in m || tab[idx].Used?)
            && (NoDuplicates(tab') ==> Represents(tab', m[key := value]))
  {
    var tab' := tab[idx := Used(hash(key), key, value)];
    assert UsedSlots(tab') == UsedSlots(tab) + {idx};
    if key in m && tab[idx].Empty? {
      var i :| 0 <= i < |tab| && tab[i].Used? && tab[i].key == key;
      assert tab'[i].key == tab'[idx].key && i != idx;
    } else {
      PutRepresents(tab, m, hash(key), idx, key, value);
    }
  }

  lemma {:induction false} PutStays<K(!new), V(!new)>(tab: seq<Slot<K, V>>, hash: K -> nat, idx: nat, key: K, value: V)
    requires Hashed(tab, hash) && idx < |tab| && hash(key) != 0
    ensures var tab' := tab[idx := Used(hash(key), key, value)];
            Hashed(tab', hash)
            && |UsedSlots(tab')| == |UsedSlots(tab)| + if tab[idx].Used? then 0 else 1
  {
    var tab' := tab[idx := Used(hash(key), key, value)];
    assert UsedSlots(tab') == UsedSlots(tab) + {idx};
    assert idx in UsedSlots(tab) <==> tab[idx].Used?;
  }

  lemma {:induction false} LandsHere<K, V>(tab: seq<Slot<K, V>>, h: nat, key: K, n: nat)
    requires |tab| > 0 && n < |tab| && LandsAt(tab, h, key, n)
    ensures LandsIn(tab, h, key) == Walk(|tab|, h % |tab|, n)
  {
    LandsFirst(tab, h, key, 0, n);
  }

  lemma {:induction false} PutRepresents<K(!new), V>(tab: seq<Slot<K, V>>, m: map<K, V>, h: nat, idx: nat, key: K, value: V)
    requires NoDuplicates(tab) && Represents(tab, m)
    requires idx < |tab| && (if key in m then Matches(tab[idx], h, key) else tab[idx].Empty?)
    ensures NoDuplicates(tab[idx := Used(h, key, value)])
    ensures Represents(tab[idx := Used(h, key, value)], m[key := value])
  {
    var tab', m' := tab[idx := Used(h, key, value)], m[key := value];
    forall k | k in m' ensures exists i :: 0 <= i < |tab'| && tab'[i].Used? && tab'[i].key == k {
      if k == key {
        assert tab'[idx].key == k;
      } else {
        var i :| 0 <= i < |tab| && tab[i].Used? && tab[i].key == k;
        assert tab'[i].key == k;
      }
    }
  }

  /** Empty slots at the end change nothing. */
  lemma {:induction false} GrownKeeps<K(!new), V(!new)>(tab: seq<Slot<K, V>>, m: map<K, V>, hash: K -> nat, more: nat)
    ensures var tab' := tab + seq(more, _ => Empty);
            && UsedSlots(tab') == UsedSlots(tab)
            && (Hashed(tab, hash) ==> Hashed(tab', hash))
            && (NoDuplicates(tab') <==> NoDuplicates(tab))
            && (Represents(tab, m) ==> Represents(tab', m))
  {
    var tab' := tab + seq(more, _ => Empty);
    assert forall i :: 0 <= i < |tab'| && tab'[i].Used? ==> i < |tab| && tab'[i] == tab[i];
    assert forall i :: 0 <= i < |tab| ==> tab'[i] == tab[i];
    if Represents(tab, m) {
      forall k | k in m ensures exists i :: 0 <= i < |tab'| && tab'[i].Used? && tab'[i].key == k {
        var i :| 0 <= i < |tab| && tab[i].Used? && tab[i].key == k;
        assert tab'[i].key == k;
      }
    }
  }

  /** The slot that `Put` leaves for a binding. */
  function Stored<K, V>(h: nat, key: K, value: V): Slot<K, V> {
    if h == 0 then Empty else Used(h, key, value)
  }

  /** The slot index where the search for a hole or the key ends. */
  ghost predicate Landing<K, V>(tab: seq<Slot<K, V>>, h: nat, key: K, idx: nat) {
    |tab| > 0 && exists n: nat :: LandsAt(tab, h, key, n) && Walk(|tab|, h % |tab|, n) == idx
  }

  /** Where that search ends, counted in probes. */
  function Lands<K(==), V>(tab: seq<Slot<K, V>>, h: nat, key: K, n: nat): (r: nat)
    requires 0 < |tab| && n <= |tab|
    ensures n <= r <= |tab|
    decreases |tab| - n
  {
    if n == |tab| || Probed(tab, Home(tab, h), n).Empty? || Matches(Probed(tab, Home(tab, h), n), h, key) then n
    else Lands(tab, h, key, n + 1)
  }

  function Home<K, V>(tab: seq<Slot<K, V>>, h: nat): (r: nat)
    requires 0 < |tab|
    ensures r < |tab|
  {
    DivMod(h, |tab|);
    h % |tab|
  }

  function LandsIn<K(==), V>(tab: seq<Slot<K, V>>, h: nat, key: K): (idx: nat)
    requires 0 < |tab|
    ensures idx < |tab|
  {
    var n := Lands(tab, h, key, 0);
    InTable(|tab|, Home(tab, h), n);
    Walk(|tab|, Home(tab, h), n)
  }

  /** dict_put on the table and the size counter. */
  function PutIn<K(==), V>(tab: seq<Slot<K, V>>, size: nat, h: nat, key: K, value: V): (r: (seq<Slot<K, V>>, nat))
    requires 0 < |tab|
    ensures |r.0| >= |tab| && r.1 == size + 1
  {
    var written := tab[LandsIn(tab, h, key) := Stored(h, key, value)];
    (if 4 * (size + 1) >= 3 * |tab| then written + seq(|tab|, _ => Empty) else written, size + 1)
  }

  /** Probes until a search from the home of the key meets it, from probe `n` on; a whole turn if it never
      does. Holes are passed over. */
  function Meets<K(==), V>(tab: seq<Slot<K, V>>, h: nat, key: K, n: nat): (r: nat)
    requires 0 < |tab| && n <= |tab|
    ensures n <= r <= |tab| && (r < |tab| ==> Matches(Probed(tab, Home(tab, h), r), h, key))
    ensures forall j :: n <= j < r ==> !Matches(Probed(tab, Home(tab, h), j), h, key)
    decreases |tab| - n
  {
    if n == |tab| || Matches(Probed(tab, Home(tab, h), n), h, key) then n else Meets(tab, h, key, n + 1)
  }

  /** dict_get on the table and the size counter. */
  function Answer<K(==), V>(tab: seq<Slot<K, V>>, size: nat, h: nat, key: K): Lookup<V>
    requires 0 < |tab|
  {
    var n := Meets(tab, h, key, 0);
    InTable(|tab|, Home(tab, h), n);
    if size == 0 then NotFound
    else if n < |tab| then Found(Walk(|tab|, Home(tab, h), n), Probed(tab, Home(tab, h), n).value)
    else if UsedSlots(tab) == {} then Never
    else Unset
  }

  /** A table in which the key is stored is one in which it is met. */
  lemma {:induction false} MeetsStored<K(!new), V(!new)>(tab: seq<Slot<K, V>>, hash: K -> nat, key: K)
    requires |tab| > 0 && IsPow2(|tab|) && Hashed(tab, hash)
    ensures Meets(tab, hash(key), key, 0) == |tab| <==> forall i :: 0 <= i < |tab| && tab[i].Used? ==> tab[i].key != key
  {
    hide Hashed;
    var home, n := Home(tab, hash(key)), Meets(tab, hash(key), key, 0);
    InTable(|tab|, home, n);
    forall i | 0 <= i < |tab| && tab[i].Used? && tab[i].key == key ensures n < |tab| {
      HashedAt(tab, hash, i);
      var j := WalkReaches(|tab|, home, i);
      assert Matches(Probed(tab, home, j), hash(key), key);
    }
  }

  lemma {:induction false} HashedAt<K(!new), V(!new)>(tab: seq<Slot<K, V>>, hash: K -> nat, i: nat)
    requires Hashed(tab, hash) && i < |tab| && tab[i].Used?
    ensures tab[i].hash == hash(tab[i].key) != 0
  {
  }

  /** The first slot that matches is the one that is met. */
  lemma {:induction false} MeetsFirst<K, V>(tab: seq<Slot<K, V>>, h: nat, key: K, n: nat)
    requires 0 < |tab| && n < |tab| && Matches(Probed(tab, Home(tab, h), n), h, key)
    requires forall j: nat :: j < n ==> !Matches(Probed(tab, Home(tab, h), j), h, key)
    ensures Meets(tab, h, key, 0) == n
  {
    assert Meets(tab, h, key, 0) <= n;
  }

  lemma {:induction false} LandsFirst<K, V>(tab: seq<Slot<K, V>>, h: nat, key: K, n: nat, at: nat)
    requires 0 < |tab| && n <= at < |tab| && LandsAt(tab, h, key, at)
    ensures Lands(tab, h, key, n) == at
    decreases at - n
  {
    if n < at {
      LandsFirst(tab, h, key, n + 1, at);
    }
  }

  /** The stored bindings in slot order. */
  function Bindings<K, V>(tab: seq<Slot<K, V>>): seq<(K, V)> {
    if tab == [] then []
    else
      var n := |tab| - 1;
      Bindings(tab[..n]) + if tab[n].Used? then [(tab[n].key, tab[n].value)] else []
  }

  lemma {:induction false} BindingsSize<K, V>(tab: seq<Slot<K, V>>)
    ensures |Bindings(tab)| == |UsedSlots(tab)|
  {
    if tab != [] {
      var n := |tab| - 1;
      BindingsSize(tab[..n]);
      if tab[n].Used? {
        assert UsedSlots(tab) == UsedSlots(tab[..n]) + {n};
      } else {
        assert UsedSlots(tab) == UsedSlots(tab[..n]);
      }
    }
  }

  lemma {:induction false} BindingsPrefix<K, V>(tab: seq<Slot<K, V>>, i: nat)
    requires i <= |tab|
    ensures Bindings(tab[..i]) <= Bindings(tab)
  {
    if i < |tab| {
      BindingsPrefix(tab[..|tab| - 1], i);
      assert tab[..|tab| - 1][..i] == tab[..i];
    } else {
      assert tab[..i] == tab;
    }
  }

  /** In a table without duplicates the bindings visited are those of the map, each exactly once. */
  lemma {:induction false} VisitsMap<K(!new), V(!new)>(tab: seq<Slot<K, V>>, m: map<K, V>)
    requires NoDuplicates(tab) && Represents(tab, m)
    ensures forall i :: 0 <= i < |Bindings(tab)| ==>
              Bindings(tab)[i].0 in m && m[Bindings(tab)[i].0] == Bindings(tab)[i].1
    ensures forall i, j :: 0 <= i < j < |Bindings(tab)| ==> Bindings(tab)[i].0 != Bindings(tab)[j].0
    ensures forall k :: k in m ==> (k, m[k]) in Bindings(tab)
  {
    BindingsFrom(tab);
    forall k | k in m ensures (k, m[k]) in Bindings(tab) {
      var i :| 0 <= i < |tab| && tab[i].Used? && tab[i].key == k;
      assert (tab[i].key, tab[i].value) in Bindings(tab);
    }
    forall i | 0 <= i < |Bindings(tab)| ensures Bindings(tab)[i].0 in m && m[Bindings(tab)[i].0] == Bindings(tab)[i].1 {
      assert Bindings(tab)[i] in Bindings(tab);
    }
  }

  lemma {:induction false} BindingsFrom<K(!new), V(!new)>(tab: seq<Slot<K, V>>)
    ensures forall i :: 0 <= i < |tab| && tab[i].Used? ==> (tab[i].key, tab[i].value) in Bindings(tab)
    ensures forall b :: b in Bindings(tab) ==> exists i :: 0 <= i < |tab| && tab[i].Used? && (tab[i].key, tab[i].value) == b
    ensures NoDuplicates(tab) ==>
              forall i, j :: 0 <= i < j < |Bindings(tab)| ==> Bindings(tab)[i].0 != Bindings(tab)[j].0
  {
    hide NoDuplicates;
    BindingsOfSlots(tab);
    if NoDuplicates(tab) {
      BindingsDistinct(tab);
    }
  }

  lemma {:induction false} BindingsOfSlots<K(!new), V(!new)>(tab: seq<Slot<K, V>>)
    ensures forall i :: 0 <= i < |tab| && tab[i].Used? ==> (tab[i].key, tab[i].value) in Bindings(tab)
    ensures forall b :: b in Bindings(tab) ==> exists i :: 0 <= i < |tab| && tab[i].Used? && (tab[i].key, tab[i].value) == b
  {
    if tab != [] {
      var n := |tab| - 1;
      BindingsOfSlots(tab[..n]);
      forall b | b in Bindings(tab)
        ensures exists i :: 0 <= i < |tab| && tab[i].Used? && (tab[i].key, tab[i].value) == b
      {
        if b in Bindings(tab[..n]) {
          var i :| 0 <= i < n && tab[..n][i].Used? && (tab[..n][i].key, tab[..n][i].value) == b;
          assert tab[i].Used?;
        } else {
          assert tab[n].Used?;
        }
      }
    }
  }

  lemma {:induction false} BindingsDistinct<K(!new), V(!new)>(tab: seq<Slot<K, V>>)
    requires NoDuplicates(tab)
    ensures forall i, j :: 0 <= i < j < |Bindings(tab)| ==> Bindings(tab)[i].0 != Bindings(tab)[j].0
  {
    if tab != [] {
      var n := |tab| - 1;
      BindingsDistinct(tab[..n]);
      BindingsOfSlots(tab[..n]);
      if tab[n].Used? {
        forall j | 0 <= j < |Bindings(tab[..n])| ensures Bindings(tab[..n])[j].0 != tab[n].key {
          assert Bindings(tab[..n])[j] in Bindings(tab[..n]);
        }
      }
    }
  }

  class Dict<K(==, !new), V(!new)> {
    const hash: K -> nat
    var table: array<Slot<K, V>>
    var size: nat
    ghost var model: map<K, V>

    /** Everything but the uniqueness of keys. */
    ghost predicate Shape()
      reads this, table
    {
      && IsPow2(table.Length) && table.Length >= MIN_CAPACITY
      && Hashed(table[..], hash)
      && |UsedSlots(table[..])| <= size && 4 * size < 3 * table.Length
    }

    ghost predicate Valid()
      reads this, table
    {
      Shape() && NoDuplicates(table[..]) && Represents(table[..], model)
    }

    constructor (hash: K -> nat)
      ensures Valid() && fresh(table) && this.hash == hash && size == 0 && model == map[]
      ensures table[..] == seq(MIN_CAPACITY, _ => Empty)
    {
      this.hash := hash;
      table := new Slot<K, V>[MIN_CAPACITY](_ => Empty);
      size, model := 0, map[];
      new;
      assert Pow2(2) == 4;
      assert UsedSlots(table[..]) == {};
    }

    /** get_elem. Holes on the path are passed over; the search ends at the key, or when as many used
        slots as `size` says have been seen. The source neither counts the probes nor tests for a turn on
        which no used slot has been seen: there the search goes on for ever. */
    method GetElem(key: K) returns (r: Search, probes: nat)
      requires Shape() && size > 0
      ensures r.Hit? ==> probes < table.Length && probes == Meets(table[..], hash(key), key, 0)
                         && r.idx < table.Length && r.idx == Walk(table.Length, Home(table[..], hash(key)), probes)
                         && Matches(table[r.idx], hash(key), key)
      ensures r.Hit? <==> exists i :: 0 <= i < table.Length && table[i].Used? && table[i].key == key
      ensures r.Endless? <==> UsedSlots(table[..]) == {}
      ensures r.Miss? && size == |UsedSlots(table[..])| ==> probes < table.Length
    {
      hide Hashed, UsedSlots, Walk, Passed, Meets, Seen, Probed, Home, Next, IsPow2;
      ghost var tab := table[..];
      var h, cap := hash(key), table.Length;
      DivMod(h, cap);
      var idx := h % cap;
      ghost var start, ahead := Home(tab, h), 0;
      var count := 0;
      probes := 0;
      SearchStart(tab, h, key);
      while table[idx].Empty? || table[idx].hash != h || table[idx].key != key
        invariant idx == Walk(cap, start, probes) < cap && count == Seen(tab, start, probes) < size
        invariant Passed(tab, h, key, probes)
        invariant if count == 0 then probes < cap else Probed(tab, idx, ahead).Used?
        decreases size - count, if count == 0 then cap - probes else ahead
      {
        SearchOn(tab, h, key, probes);
        if table[idx].Used? {
          count := count + 1;
        }
        if count == size {
          SearchMissed(tab, hash, key, probes, size);
          return Miss, probes;
        }
        if count == 0 && probes + 1 == cap {
          SeenAll(tab, start);
          NoneStored(tab, key);
          return Endless, probes;
        }
        if table[idx].Used? {
          ahead := NextUsed(tab, Next(cap, idx), idx);
        } else if count > 0 {
          UsedAhead(tab, idx, ahead);
          ahead := ahead - 1;
        }
        idx := Next(cap, idx);
        probes := probes + 1;
      }
      SearchHit(tab, h, key, probes);
      UsedAt(tab, idx);
      r := Hit(idx);
    }

    /** dict_get: the answer of the table, whatever has been put. While the table is a finite map, that of
        the map. */
    method Get(key: K) returns (r: Lookup<V>)
      requires Shape()
      ensures r == Answer(table[..], size, hash(key), key)
      ensures r.Never? <==> size > 0 && UsedSlots(table[..]) == {}
      ensures r.NotFound? <==> size == 0
      ensures Valid() && !r.Never? ==> (r.Found? <==> key in model) && (r.Found? ==> r.value == model[key])
    {
      hide Hashed;
      MeetsStored(table[..], hash, key);
      if size == 0 {
        EmptyTable(table[..], hash, model, key);
        return NotFound;
      }
      var at, _ := GetElem(key);
      match at
      case Endless => r := Never;
      case Miss => r := Unset;
      case Hit(i) => r := Found(i, table[i].value);
    }

    /** The probe loop of dict_put. */
    method FindSlot(key: K) returns (idx: nat, ghost n: nat)
      requires Shape()
      ensures idx < table.Length && LandsAt(table[..], hash(key), key, n)
      ensures idx == Walk(table.Length, hash(key) % table.Length, n)
      ensures table[idx] == Probed(table[..], hash(key) % table.Length, n)
      ensures n < table.Length
    {
      ghost var tab := table[..];
      var h, cap := hash(key), table.Length;
      DivMod(h, cap);
      idx := h % cap;
      ghost var start := idx;
      ghost var ahead := NextEmpty(tab, idx);
      n := 0;
      while table[idx].Used? && (table[idx].hash != h || table[idx].key != key)
        invariant idx == Walk(cap, start, n) < cap
        invariant forall j: nat :: j < n ==> Probed(tab, start, j).Used? && !Matches(Probed(tab, start, j), h, key)
        invariant Probed(tab, idx, ahead).Empty?
        decreases ahead
      {
        assert Probed(tab, start, n) == tab[idx];
        StepAhead(tab, idx, ahead);
        ahead := ahead - 1;
        idx := Next(cap, idx);
        n := n + 1;
      }
      assert Probed(tab, start, n) == tab[idx];
      LandsInFirstTurn(tab, h, key, n);
    }

    /** dict_put on a dynamic table. The binding goes where the probe path first meets a hole or the
        key. A key whose hash is 0 is lost. A key that is stored but displaced, with a hole before it
        on its path, is stored a second time; every other put updates the finite map. */
    method Put(key: K, value: V) returns (idx: nat)
      requires Shape()
      modifies this, table
      ensures table == old(table) || fresh(table)
      ensures size == old(size) + 1 && Shape()
      ensures idx < old(table.Length) && Landing(old(table[..]), hash(key), key, idx)
      ensures (table[..], size) == PutIn(old(table[..]), old(size), hash(key), key, value)
      ensures table[..] == old(table[..])[idx := Stored(hash(key), key, value)]
                           + seq(table.Length - old(table.Length), _ => Empty)
      ensures hash(key) == 0 ==> model == old(model) && (old(Valid()) ==> Valid())
      ensures hash(key) != 0 && old(Valid()) ==>
                (NoDuplicates(table[..]) <==> key !in old(model) || Placed(old(table[..]), hash(key), key))
                && (NoDuplicates(table[..]) ==> Valid() && model == old(model)[key := value])
    {
      hide Hashed, NoDuplicates, Represents, UsedSlots, Probed, Walk, Placed, LandsAt, LandsIn;
      ghost var tab, n := table[..], 0;
      idx, n := FindSlot(key);
      var h := hash(key);
      Landed(tab, h, key, n, idx);
      LandsHere(tab, h, key, n);
      table[idx] := Stored(h, key, value);
      size := size + 1;
      ghost var tab' := table[..];
      assert tab' == tab[idx := Stored(h, key, value)];
      if h != 0 {
        model := model[key := value];
        PutStays(tab, hash, idx, key, value);
        if NoDuplicates(tab) && Represents(tab, old(model)) {
          PutKeeps(tab, old(model), hash, idx, key, value);
        }
      } else {
        ZeroLandsInHole(tab, hash, key, n);
        assert tab' == tab;
      }
      if 4 * size >= 3 * table.Length {
        GrownKeeps(tab', model, hash, table.Length);
        Grow();
      } else {
        assert tab' + seq(0, _ => Empty) == tab';
      }
    }

    /** dict_foreach: the bindings handed to the action, in order. */
    method Foreach() returns (visited: seq<(K, V)>)
      requires Shape()
      ensures visited == Bindings(table[..])
    {
      ghost var tab := table[..];
      BindingsSize(tab);
      visited := [];
      var i, j := 0, 0;
      while i < table.Length && j < size
        invariant 0 <= i <= table.Length && j == |visited|
        invariant visited == Bindings(tab[..i])
      {
        var node := table[i];
        assert tab[..i + 1][..i] == tab[..i];
        if node.Used? {
          visited := visited + [(node.key, node.value)];
          j := j + 1;
        }
        i := i + 1;
      }
      BindingsPrefix(tab, i);
      assert tab[..|tab|] == tab;
    }

    /** grow and rehash_nodes. The probe loop for a node tests slot `i` of the new table, the node's old
        index, and not slot `ni`, where its probe path is: the first test always succeeds, and every
        node keeps its index. */
    method Grow()
      requires IsPow2(table.Length)
      modifies this`table
      ensures fresh(table) && table.Length == 2 * old(table.Length) && IsPow2(table.Length)
      ensures table[..] == old(table[..]) + seq(old(table.Length), _ => Empty)
    {
      var cap, newCap := table.Length, table.Length * 2;
      var base := new Slot<K, V>[newCap](_ => Empty);
      var i := 0;
      while i < cap
        invariant 0 <= i <= cap && table == old(table) && table[..] == old(table[..])
        invariant forall k :: 0 <= k < i ==> base[k] == table[k]
        invariant forall k :: i <= k < newCap ==> base[k] == Empty
      {
        var n := table[i];
        if n.Used? {
          if base[i].Empty? {
            base[i] := n;
          } else {
            assert false;
          }
        }
        i := i + 1;
      }
      ghost var k: nat :| Pow2(k) == cap;
      assert Pow2(k + 1) == newCap;
      table := base;
    }
  }

  /** Growing displaces every stored key whose home in the doubled table is in the new half: the search
      for it ends at once in a hole, so the next put of that key stores it a second time. */
  lemma {:induction false} GrowthDisplaces<K, V>(tab: seq<Slot<K, V>>, h: nat, key: K)
    requires |tab| > 0 && h % (2 * |tab|) >= |tab|
    ensures !Placed(tab + seq(|tab|, _ => Empty), h, key)
    ensures Landing(tab + seq(|tab|, _ => Empty), h, key, h % (2 * |tab|))
  {
    var grown: seq<Slot<K, V>> := tab + seq(|tab|, _ => Empty);
    var home := h % |grown|;
    DivMod(h, |grown|);
    assert grown[home] == Empty && Walk(|grown|, home, 0) == home;
    assert LandsAt(grown, h, key, 0);
    forall n: nat | LandsAt(grown, h, key, n) ensures n == 0 {
      LandsOnce(grown, h, key, 0, n);
    }
  }

  /** The finite map after a run of puts. */
  function Extended<K, V>(m: map<K, V>, bs: seq<(K, V)>): map<K, V> {
    if bs == [] then m else Extended(m, bs[..|bs| - 1])[bs[|bs| - 1].0 := bs[|bs| - 1].1]
  }

  lemma {:induction false} ExtendedKeys<K, V>(m: map<K, V>, bs: seq<(K, V)>, key: K)
    ensures key in Extended(m, bs) <==> key in m || exists i :: 0 <= i < |bs| && bs[i].0 == key
  {
    if bs != [] {
      var n := |bs| - 1;
      ExtendedKeys(m, bs[..n], key);
      if key in m || exists i :: 0 <= i < |bs| && bs[i].0 == key {
        if key !in m && bs[n].0 != key {
          var i :| 0 <= i < |bs| && bs[i].0 == key;
          assert bs[..n][i].0 == key;
        }
      }
    }
  }

  /** The table and the size counter after a run of puts. */
  function AllIn<K(==), V>(tab: seq<Slot<K, V>>, size: nat, hash: K -> nat, bs: seq<(K, V)>): (r: (seq<Slot<K, V>>, nat))
    requires 0 < |tab|
    ensures |r.0| >= |tab| && r.1 == size + |bs|
  {
    if bs == [] then (tab, size)
    else
      var n := |bs| - 1;
      var (before, count) := AllIn(tab, size, hash, bs[..n]);
      PutIn(before, count, hash(bs[n].0), bs[n].0, bs[n].1)
  }

  /** A run of puts, across all growths. If the keys are new and different and have hashes other than 0, the
      dictionary is the finite map of all of them. */
  method PutAll<K(==, !new), V(!new)>(d: Dict<K, V>, bs: seq<(K, V)>)
    requires d.Shape()
    modifies d, d.table
    ensures d.Shape() && (d.table[..], d.size) == AllIn(old(d.table[..]), old(d.size), d.hash, bs)
    ensures old(d.Valid()) && NewKeys(old(d.model), d.hash, bs) ==>
              d.Valid() && d.model == Extended(old(d.model), bs)
  {
    hide Hashed, NoDuplicates, Represents, UsedSlots, PutIn, IsPow2;
    ghost var tab, size, maps := d.table[..], d.size, d.Valid() && NewKeys(d.model, d.hash, bs);
    assert bs[..0] == [];
    var i := 0;
    while i < |bs|
      invariant 0 <= i <= |bs| && d.Shape()
      invariant d.table == old(d.table) || fresh(d.table)
      invariant (d.table[..], d.size) == AllIn(tab, size, d.hash, bs[..i])
      invariant maps ==> d.Valid() && d.model == Extended(old(d.model), bs[..i])
    {
      ExtendedKeys(old(d.model), bs[..i], bs[i].0);
      assert bs[..i + 1][..i] == bs[..i];
      var _ := d.Put(bs[i].0, bs[i].1);
      i := i + 1;
    }
    assert bs[..i] == bs;
  }

  ghost predicate NewKeys<K(!new), V>(m: map<K, V>, hash: K -> nat, bs: seq<(K, V)>) {
    (forall i :: 0 <= i < |bs| ==> bs[i].0 !in m && hash(bs[i].0) != 0)
    && (forall i, j :: 0 <= i < j < |bs| ==> bs[i].0 != bs[j].0)
  }
}
