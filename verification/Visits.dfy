/** A dictionary filled by a run of puts, whatever the keys: which puts are still there when it is visited,
    and in what order. The values are handles: the number of the put. */
module Visits {
  import opened Probe
  import opened Dict

  /** The table and the size counter after putting the keys one after the other. */
  function Filled<K(==)>(hash: K -> nat, keys: seq<K>): (r: (seq<Slot<K, nat>>, nat))
    ensures |r.0| >= MIN_CAPACITY && r.1 == |keys|
  {
    if keys == [] then (seq(MIN_CAPACITY, _ => Empty), 0)
    else
      var n := |keys| - 1;
      var (tab, size) := Filled(hash, keys[..n]);
      PutIn(tab, size, hash(keys[n]), keys[n], n)
  }

  /** The puts, with their numbers for values. */
  function Numbered<K>(keys: seq<K>): (bs: seq<(K, nat)>)
    ensures |bs| == |keys| && forall i :: 0 <= i < |keys| ==> bs[i] == (keys[i], i)
  {
    seq(|keys|, i requires 0 <= i < |keys| => (keys[i], i))
  }

  /** It is the table of the program after these puts. */
  lemma {:induction false} FilledByPuts<K(!new)>(hash: K -> nat, keys: seq<K>)
    ensures Filled(hash, keys) == AllIn(seq(MIN_CAPACITY, _ => Empty), 0, hash, Numbered(keys))
  {
    if keys == [] {
      assert Filled(hash, keys).0 == seq(MIN_CAPACITY, _ => Empty);
    } else {
      var n := |keys| - 1;
      FilledByPuts(hash, keys[..n]);
      assert Numbered(keys)[..n] == Numbered(keys[..n]);
    }
  }

  /** What every run of puts keeps: each used slot holds a put of its own, under the key of that put. */
  ghost predicate Stands<K(!new)>(hash: K -> nat, keys: seq<K>, tab: seq<Slot<K, nat>>) {
    IsPow2(|tab|) && Hashed(tab, hash) && |UsedSlots(tab)| <= |keys| && 4 * |keys| < 3 * |tab|
    && OwnPuts(keys, tab)
  }

  ghost predicate OwnPuts<K>(keys: seq<K>, tab: seq<Slot<K, nat>>) {
    (forall i :: 0 <= i < |tab| && tab[i].Used? ==> tab[i].value < |keys| && tab[i].key == keys[tab[i].value])
    && (forall i, j :: 0 <= i < j < |tab| && tab[i].Used? && tab[j].Used? ==> tab[i].value != tab[j].value)
  }

  /** A put that adds nothing: its hash is 0, or the search for its key ends at that key. */
  predicate Lost<K(==)>(hash: K -> nat, keys: seq<K>, i: nat)
    requires i < |keys|
  {
    var tab := Filled(hash, keys[..i]).0;
    hash(keys[i]) == 0 || tab[LandsIn(tab, hash(keys[i]), keys[i])].Used?
  }

  predicate Fresh<K(==)>(hash: K -> nat, keys: seq<K>) {
    forall i :: 0 <= i < |keys| ==> !Lost(hash, keys, i)
  }

  /** The puts that dict_foreach visits, in slot order. */
  function Visit<K(==)>(hash: K -> nat, keys: seq<K>): seq<nat> {
    VisitOf(Filled(hash, keys).0)
  }

  function Handles<K>(bs: seq<(K, nat)>): (r: seq<nat>)
    ensures |r| == |bs| && forall i :: 0 <= i < |bs| ==> r[i] == bs[i].1
  {
    if bs == [] then [] else Handles(bs[..|bs| - 1]) + [bs[|bs| - 1].1]
  }

  function VisitOf<K>(tab: seq<Slot<K, nat>>): seq<nat> {
    Handles(Bindings(tab))
  }

  lemma {:induction false} VisitMore<K>(tab: seq<Slot<K, nat>>, s: Slot<K, nat>)
    ensures VisitOf(tab + [s]) == VisitOf(tab) + if s.Used? then [s.value] else []
    ensures VisitOf<K>([]) == []
  {
    assert (tab + [s])[..|tab|] == tab;
    var bs := Bindings(tab);
    assert s.Used? ==> (bs + [(s.key, s.value)])[..|bs|] == bs;
  }

  /** In a table that is not full the search for a key ends within one turn. */
  lemma {:induction false} LandsSome<K, V>(tab: seq<Slot<K, V>>, h: nat, key: K)
    requires |tab| > 0 && IsPow2(|tab|) && |UsedSlots(tab)| < |tab|
    ensures var n := Lands(tab, h, key, 0);
            n < |tab| && LandsAt(tab, h, key, n) && LandsIn(tab, h, key) == Walk(|tab|, h % |tab|, n)
  {
    var d := NextEmpty(tab, Home(tab, h));
    LandsStops(tab, h, key, 0, d);
  }

  lemma {:induction false} LandsStops<K, V>(tab: seq<Slot<K, V>>, h: nat, key: K, n: nat, d: nat)
    requires |tab| > 0 && n <= d < |tab| && Probed(tab, Home(tab, h), d).Empty?
    requires forall j: nat :: j < n ==>
               Probed(tab, Home(tab, h), j).Used? && !Matches(Probed(tab, Home(tab, h), j), h, key)
    ensures Lands(tab, h, key, n) <= d && LandsAt(tab, h, key, Lands(tab, h, key, n))
    decreases d - n
  {
    if !(Probed(tab, Home(tab, h), n).Empty? || Matches(Probed(tab, Home(tab, h), n), h, key)) {
      LandsStops(tab, h, key, n + 1, d);
    }
  }

  /** One put. */
  lemma {:induction false} PutStands<K(!new)>(hash: K -> nat, keys: seq<K>, tab: seq<Slot<K, nat>>, key: K)
    requires Stands(hash, keys, tab)
    ensures var tab' := PutIn(tab, |keys|, hash(key), key, |keys|).0;
            Stands(hash, keys + [key], tab')
            && |UsedSlots(tab')| == |UsedSlots(tab)|
                                    + if hash(key) == 0 || tab[LandsIn(tab, hash(key), key)].Used? then 0 else 1
  {
    hide LandsIn, Lands, LandsAt, UsedSlots, Hashed, OwnPuts, Probed, Walk, IsPow2;
    var h, n := hash(key), Lands(tab, hash(key), key, 0);
    LandsSome(tab, h, key);
    var idx := LandsIn(tab, h, key);
    Landed(tab, h, key, n, idx);
    var written := tab[idx := Stored(h, key, |keys|)];
    OneHandleMore(keys, tab, idx, h, key);
    if h == 0 {
      AtTheHole(tab, h, key, n);
      ZeroLandsInHole(tab, hash, key, n);
      assert written == tab;
    } else {
      PutStays(tab, hash, idx, key, |keys|);
    }
    if 4 * (|keys| + 1) >= 3 * |tab| {
      GrownKeeps<K, nat>(written, map[], hash, |tab|);
      GrownOwn(keys + [key], written, |tab|);
      TwiceAsMany(|tab|);
    }
  }

  lemma {:induction false} AtTheHole<K, V>(tab: seq<Slot<K, V>>, h: nat, key: K, n: nat)
    requires |tab| > 0 && LandsIn(tab, h, key) == Walk(|tab|, h % |tab|, n)
    ensures Probed(tab, Home(tab, h), n) == tab[LandsIn(tab, h, key)]
  {
  }

  lemma {:induction false} TwiceAsMany(n: nat)
    requires IsPow2(n)
    ensures IsPow2(2 * n)
  {
    var k: nat :| Pow2(k) == n;
    assert Pow2(k + 1) == 2 * n;
  }

  lemma {:induction false} OneHandleMore<K>(keys: seq<K>, tab: seq<Slot<K, nat>>, idx: nat, h: nat, key: K)
    requires OwnPuts(keys, tab) && idx < |tab|
    ensures OwnPuts(keys + [key], tab[idx := Stored(h, key, |keys|)])
    ensures OwnPuts(keys + [key], tab)
  {
    assert forall i :: 0 <= i < |keys| ==> (keys + [key])[i] == keys[i];
  }

  lemma {:induction false} GrownOwn<K>(keys: seq<K>, tab: seq<Slot<K, nat>>, more: nat)
    requires OwnPuts(keys, tab)
    ensures OwnPuts(keys, tab + seq(more, _ => Empty))
  {
    var tab' := tab + seq(more, _ => Empty);
    assert forall i :: 0 <= i < |tab'| && tab'[i].Used? ==> i < |tab| && tab'[i] == tab[i];
  }

  /** After any run of puts the used slots are as many as the puts exactly when no put was lost. */
  lemma {:induction false} FilledStands<K(!new)>(hash: K -> nat, keys: seq<K>)
    ensures Stands(hash, keys, Filled(hash, keys).0)
    ensures |UsedSlots(Filled(hash, keys).0)| == |keys| <==> Fresh(hash, keys)
  {
    hide PutIn, Stands, UsedSlots, LandsIn;
    if keys == [] {
      NothingStands(hash);
    } else {
      var n := |keys| - 1;
      var before, tab := keys[..n], Filled(hash, keys[..n]).0;
      FilledStands(hash, before);
      PutStands(hash, before, tab, keys[n]);
      assert before + [keys[n]] == keys;
      StandsBound(hash, before, tab);
      FreshMore(hash, keys);
    }
  }

  lemma {:induction false} StandsBound<K(!new)>(hash: K -> nat, keys: seq<K>, tab: seq<Slot<K, nat>>)
    requires Stands(hash, keys, tab)
    ensures |UsedSlots(tab)| <= |keys|
  {
  }

  lemma {:induction false} NothingStands<K(!new)>(hash: K -> nat)
    ensures Stands(hash, [], Filled(hash, []).0) && UsedSlots(Filled(hash, []).0) == {}
  {
    var tab := Filled(hash, []).0;
    assert Pow2(2) == 4;
    assert UsedSlots(tab) == {};
  }

  lemma {:induction false} FreshMore<K(!new)>(hash: K -> nat, keys: seq<K>)
    requires keys != []
    ensures var n := |keys| - 1;
            Fresh(hash, keys) <==> Fresh(hash, keys[..n]) && !Lost(hash, keys, n)
  {
    hide Filled, LandsIn;
    var n := |keys| - 1;
    forall i | 0 <= i < n ensures Lost(hash, keys, i) <==> Lost(hash, keys[..n], i) {
      assert keys[..n][..i] == keys[..i] && keys[..n][i] == keys[i];
    }
  }

  /** Different numbers below `n`. */
  predicate Different(ix: seq<nat>, n: nat) {
    (forall p :: 0 <= p < |ix| ==> ix[p] < n) && (forall p, q :: 0 <= p < q < |ix| ==> ix[p] != ix[q])
  }

  /** The visit meets every put at most once, and all of them exactly when no put was lost. */
  lemma {:induction false} VisitsOnce<K(!new)>(hash: K -> nat, keys: seq<K>)
    ensures Different(Visit(hash, keys), |keys|)
    ensures |Visit(hash, keys)| <= |keys|
    ensures |Visit(hash, keys)| == |keys| <==> Fresh(hash, keys)
  {
    hide Filled, UsedSlots, Fresh;
    var tab := Filled(hash, keys).0;
    FilledStands(hash, keys);
    BindingsSize(tab);
    OwnBindings(keys, tab);
  }

  ghost predicate OwnBound<K>(keys: seq<K>, bs: seq<(K, nat)>) {
    (forall p :: 0 <= p < |bs| ==> bs[p].1 < |keys| && bs[p].0 == keys[bs[p].1])
    && (forall p, q :: 0 <= p < q < |bs| ==> bs[p].1 != bs[q].1)
  }

  lemma {:induction false} OwnBindings<K(!new)>(keys: seq<K>, tab: seq<Slot<K, nat>>)
    requires OwnPuts(keys, tab)
    ensures OwnBound(keys, Bindings(tab))
    decreases |tab|
  {
    if tab != [] {
      var n := |tab| - 1;
      OwnBindings(keys, tab[..n]);
      BindingsOfSlots(tab[..n]);
      forall b | b in Bindings(tab[..n]) ensures tab[n].Used? ==> b.1 != tab[n].value {
        var i :| 0 <= i < n && tab[..n][i].Used? && (tab[..n][i].key, tab[..n][i].value) == b;
        assert tab[i].Used? && tab[i].value == b.1;
      }
      OneBindingMore(keys, Bindings(tab[..n]), tab[n]);
    }
  }

  lemma {:induction false} OneBindingMore<K(!new)>(keys: seq<K>, bs: seq<(K, nat)>, s: Slot<K, nat>)
    requires s.Used? ==> s.value < |keys| && s.key == keys[s.value] && forall b :: b in bs ==> b.1 != s.value
    requires OwnBound(keys, bs)
    ensures OwnBound(keys, bs + if s.Used? then [(s.key, s.value)] else [])
  {
    forall p | 0 <= p < |bs| ensures s.Used? ==> bs[p].1 != s.value {
      assert bs[p] in bs;
    }
  }

  /** What is visited is a key with the number of a put of that key. */
  lemma {:induction false} VisitedPuts<K(!new)>(hash: K -> nat, keys: seq<K>)
    ensures var bs, ix := Bindings(Filled(hash, keys).0), Visit(hash, keys);
            |bs| == |ix|
            && forall p :: 0 <= p < |bs| ==> ix[p] == bs[p].1 < |keys| && bs[p].0 == keys[ix[p]]
  {
    hide Filled, UsedSlots, Bindings;
    FilledStands(hash, keys);
    OwnBindings(keys, Filled(hash, keys).0);
  }

  /** Keys that are all different, with hashes other than 0, are never lost. */
  lemma {:induction false} DistinctFresh<K(!new)>(hash: K -> nat, keys: seq<K>)
    requires forall i :: 0 <= i < |keys| ==> hash(keys[i]) != 0
    requires forall i, j :: 0 <= i < j < |keys| ==> keys[i] != keys[j]
    ensures Fresh(hash, keys)
  {
    hide Filled;
    forall i | 0 <= i < |keys| ensures !Lost(hash, keys, i) {
      var tab, h := Filled(hash, keys[..i]).0, hash(keys[i]);
      FilledStands(hash, keys[..i]);
      LandsSome(tab, h, keys[i]);
      Landed(tab, h, keys[i], Lands(tab, h, keys[i], 0), LandsIn(tab, h, keys[i]));
    }
  }

  /** A put is lost on a key exactly when its hash is 0 or the key still sits on its probe path. */
  lemma {:induction false} LostWhenPlaced<K(!new)>(hash: K -> nat, keys: seq<K>, i: nat)
    requires i < |keys|
    ensures Lost(hash, keys, i) <==>
              hash(keys[i]) == 0 || Placed(Filled(hash, keys[..i]).0, hash(keys[i]), keys[i])
  {
    hide Filled;
    var tab, h := Filled(hash, keys[..i]).0, hash(keys[i]);
    FilledStands(hash, keys[..i]);
    LandsSome(tab, h, keys[i]);
    Landed(tab, h, keys[i], Lands(tab, h, keys[i], 0), LandsIn(tab, h, keys[i]));
  }

  /** A run of puts stores nothing exactly when all the hashes are 0: after such a run, unless it is empty, the
      search for any key goes on for ever. */
  lemma {:induction false} StoresNothing<K(!new)>(hash: K -> nat, keys: seq<K>)
    ensures UsedSlots(Filled(hash, keys).0) == {} <==> forall i :: 0 <= i < |keys| ==> hash(keys[i]) == 0
  {
    hide PutIn, Stands, UsedSlots, LandsIn;
    if keys == [] {
      NothingStands(hash);
    } else {
      var n := |keys| - 1;
      var before, tab := keys[..n], Filled(hash, keys[..n]).0;
      StoresNothing(hash, before);
      FilledStands(hash, before);
      PutStands(hash, before, tab, keys[n]);
      StandsBound(hash, before, tab);
      NoneUsed(tab, LandsIn(tab, hash(keys[n]), keys[n]));
      var now := Filled(hash, keys).0;
      assert UsedSlots(now) == {} <==> |UsedSlots(now)| == 0;
    }
  }

  lemma {:induction false} NoneUsed<K, V>(tab: seq<Slot<K, V>>, i: nat)
    requires i < |tab|
    ensures UsedSlots(tab) == {} ==> tab[i].Empty?
  {
    assert tab[i].Used? ==> i in UsedSlots(tab);
  }

  lemma {:induction false} EndlessGet<K(!new)>(hash: K -> nat, keys: seq<K>, key: K, n: nat)
    requires keys != [] && forall i :: 0 <= i < |keys| ==> hash(keys[i]) == 0
    ensures var (tab, size) := Filled(hash, keys);
            !Matches(Probed(tab, Home(tab, hash(key)), n), hash(key), key)
            && Seen(tab, Home(tab, hash(key)), n + 1) == 0 < size
  {
    StoresNothing(hash, keys);
    var (tab, size) := Filled(hash, keys);
    SearchNeverEnds(tab, size, Home(tab, hash(key)), n, hash(key), key);
  }
}
