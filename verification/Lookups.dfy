/** What dict_get answers after any run of puts, whatever keys are put again. Growing leaves the nodes where
    they are, so a key may be stored twice, and later growths decide which of its slots is met first. */
module Lookups {
  import opened Probe
  import opened Dict
  import opened Visits

  /** The slot that put number `i` went to. */
  function At<K(==)>(hash: K -> nat, keys: seq<K>, i: nat): nat
    requires i < |keys|
  {
    LandsIn(Filled(hash, keys[..i]).0, hash(keys[i]), keys[i])
  }

  /** The key of put number `i` is not put again. */
  predicate LastPut<K(==)>(keys: seq<K>, i: nat) {
    i < |keys| && forall j :: i < j < |keys| ==> keys[j] != keys[i]
  }

  predicate Holds<K(==), V>(tab: seq<Slot<K, V>>, key: K, s: nat) {
    s < |tab| && tab[s].Used? && tab[s].key == key
  }

  /** Probes from `start` until slot `s` is met, from probe `n` on. */
  function Distance(cap: nat, start: nat, s: nat, n: nat): (r: nat)
    requires start < cap && n <= cap
    ensures n <= r <= cap && (r < cap ==> Walk(cap, start, r) == s)
    ensures forall j :: n <= j < r ==> Walk(cap, start, j) != s
    decreases cap - n
  {
    if n == cap || Walk(cap, start, n) == s then n else Distance(cap, start, s, n + 1)
  }

  /** How far slot `s` is from the home of a key. */
  function Away<K, V>(tab: seq<Slot<K, V>>, h: nat, s: nat): nat
    requires 0 < |tab|
  {
    Distance(|tab|, Home(tab, h), s, 0)
  }

  /** One put changes one slot: a hole, or a slot of that key. */
  lemma {:induction false} PutSlots<K(!new)>(hash: K -> nat, keys: seq<K>, key: K)
    ensures var tab, tab', h := Filled(hash, keys).0, Filled(hash, keys + [key]).0, hash(key);
            var idx := LandsIn(tab, h, key);
            && |tab| <= |tab'| && idx < |tab| && (tab[idx].Used? ==> tab[idx].key == key && h != 0)
            && forall s :: 0 <= s < |tab'| ==>
                 tab'[s] == if s == idx && h != 0 then Used(h, key, |keys|) else if s < |tab| then tab[s] else Empty
  {
    hide Filled, LandsIn, Lands, LandsAt, UsedSlots, Hashed, OwnPuts, Probed, Walk, IsPow2;
    var tab, h := Filled(hash, keys).0, hash(key);
    FilledStep(hash, keys, key);
    FilledStands(hash, keys);
    LandsSome(tab, h, key);
    var n := Lands(tab, h, key, 0);
    Landed(tab, h, key, n, LandsIn(tab, h, key));
    if h == 0 {
      AtTheHole(tab, h, key, n);
      ZeroLandsInHole(tab, hash, key, n);
    }
  }

  lemma {:induction false} FilledStep<K(!new)>(hash: K -> nat, keys: seq<K>, key: K)
    ensures var (tab, size) := Filled(hash, keys);
            Filled(hash, keys + [key]) == PutIn(tab, size, hash(key), key, |keys|)
  {
    hide PutIn;
    assert (keys + [key])[..|keys|] == keys;
  }

  lemma {:induction false} AtBefore<K>(hash: K -> nat, keys: seq<K>, n: nat, i: nat)
    requires i < n <= |keys|
    ensures At(hash, keys[..n], i) == At(hash, keys, i)
  {
    assert keys[..n][..i] == keys[..i];
  }

  lemma {:induction false} LastSplit<K>(keys: seq<K>)
    requires keys != []
    ensures keys[..|keys| - 1] + [keys[|keys| - 1]] == keys
  {
  }

  /** Where a key has gone it stays, and the last put of it is there. */
  lemma {:induction false} StaysThere<K(!new)>(hash: K -> nat, keys: seq<K>, i: nat)
    requires i < |keys| && hash(keys[i]) != 0
    ensures Holds(Filled(hash, keys).0, keys[i], At(hash, keys, i))
    ensures LastPut(keys, i) ==> Filled(hash, keys).0[At(hash, keys, i)] == Used(hash(keys[i]), keys[i], i)
    decreases |keys|
  {
    hide Filled, LandsIn;
    var n := |keys| - 1;
    PutSlots(hash, keys[..n], keys[n]);
    LastSplit(keys);
    if i < n {
      AtBefore(hash, keys, n, i);
      StaysThere(hash, keys[..n], i);
    }
  }

  /** A slot that holds a key is one that a put of the key went to. */
  lemma {:induction false} WentThere<K(!new)>(hash: K -> nat, keys: seq<K>, key: K, s: nat) returns (i: nat)
    requires Holds(Filled(hash, keys).0, key, s)
    ensures i < |keys| && keys[i] == key && At(hash, keys, i) == s && hash(key) != 0
    decreases |keys|
  {
    hide LandsIn, PutIn;
    assert keys != [];
    hide Filled;
    var n := |keys| - 1;
    PutSlots(hash, keys[..n], keys[n]);
    LastSplit(keys);
    if s == At(hash, keys, n) && hash(keys[n]) != 0 {
      i := n;
    } else {
      i := WentThere(hash, keys[..n], key, s);
      AtBefore(hash, keys, n, i);
    }
  }

  /** The search meets the nearest of the slots that hold the key. */
  lemma {:induction false} MeetsNearest<K(!new)>(hash: K -> nat, keys: seq<K>, key: K, s: nat)
    requires Holds(Filled(hash, keys).0, key, s)
    ensures var (tab, size) := Filled(hash, keys);
            var h, n := hash(key), Meets(tab, hash(key), key, 0);
            && n <= Away(tab, h, s) < |tab| && Answer(tab, size, h, key).Found? && Holds(tab, key, Answer(tab, size, h, key).idx)
            && Answer(tab, size, h, key).value == tab[Answer(tab, size, h, key).idx].value
            && (s == Answer(tab, size, h, key).idx <==> Away(tab, h, s) == n)
  {
    var tab, h := Filled(hash, keys).0, hash(key);
    FilledStands(hash, keys);
    hide Filled, UsedSlots;
    var home, n := Home(tab, h), Meets(tab, h, key, 0);
    HashedAt(tab, hash, s);
    var j := WalkReaches(|tab|, home, s);
    var d := Distance(|tab|, home, s, 0);
    assert d <= j;
    assert Matches(Probed(tab, home, d), h, key);
    assert n <= d;
    InTable(|tab|, home, n);
  }

  /** After any run of puts the answer for a key is a put of that key, and it is the last one exactly when
      the slot of the last one is nearer to the key's home than every other slot that holds the key. */
  lemma {:induction false} LookupExact<K(!new)>(hash: K -> nat, keys: seq<K>, i: nat)
    requires i < |keys| && LastPut(keys, i) && hash(keys[i]) != 0
    ensures var (tab, size) := Filled(hash, keys);
            var key, h := keys[i], hash(keys[i]);
            var answer := Answer(tab, size, h, key);
            && answer.Found? && answer.value < |keys| && keys[answer.value] == key
            && (answer.value == i
                <==> forall s :: Holds(tab, key, s) && s != At(hash, keys, i) ==>
                       Away(tab, h, At(hash, keys, i)) < Away(tab, h, s))
  {
    hide Filled, Meets, Distance, LandsIn, LastPut, UsedSlots;
    var (tab, size) := Filled(hash, keys);
    var key, h, s := keys[i], hash(keys[i]), At(hash, keys, i);
    StaysThere(hash, keys, i);
    MeetsNearest(hash, keys, key, s);
    FilledStands(hash, keys);
    var met := Answer(tab, size, h, key).idx;
    MeetsNearest(hash, keys, key, met);
    assert OwnPuts(keys, tab);
    forall t | Holds(tab, key, t) ensures Meets(tab, h, key, 0) <= Away(tab, h, t) && (t == met <==> Away(tab, h, t) == Meets(tab, h, key, 0)) {
      MeetsNearest(hash, keys, key, t);
    }
    if met != s {
      assert tab[met].value != tab[s].value;
    }
  }

  /** The same on the puts: exactly when no earlier put of the key went to a slot that is nearer now. */
  lemma {:induction false} LookupByPuts<K(!new)>(hash: K -> nat, keys: seq<K>, i: nat)
    requires i < |keys| && LastPut(keys, i) && hash(keys[i]) != 0
    ensures var (tab, size) := Filled(hash, keys);
            var key, h := keys[i], hash(keys[i]);
            Answer(tab, size, h, key).Found?
            && (Answer(tab, size, h, key).value == i
                <==> forall j :: 0 <= j < i && keys[j] == key ==>
                       Away(tab, h, At(hash, keys, i)) <= Away(tab, h, At(hash, keys, j)))
  {
    hide Filled, Answer, Away, At;
    var (tab, size) := Filled(hash, keys);
    var key, h, s := keys[i], hash(keys[i]), At(hash, keys, i);
    LookupExact(hash, keys, i);
    StaysThere(hash, keys, i);
    MeetsNearest(hash, keys, key, s);
    if forall t :: Holds(tab, key, t) && t != s ==> Away(tab, h, s) < Away(tab, h, t) {
      forall j | 0 <= j < i && keys[j] == key ensures Away(tab, h, s) <= Away(tab, h, At(hash, keys, j)) {
        StaysThere(hash, keys, j);
      }
    }
    if forall j :: 0 <= j < i && keys[j] == key ==> Away(tab, h, s) <= Away(tab, h, At(hash, keys, j)) {
      forall t | Holds(tab, key, t) && t != s ensures Away(tab, h, s) < Away(tab, h, t) {
        var j := WentThere(hash, keys, key, t);
        assert j <= i;
        MeetsNearest(hash, keys, key, t);
        SameAway(hash, keys, key, s, t);
      }
    }
  }

  /** Two slots are not equally far. */
  lemma {:induction false} SameAway<K(!new)>(hash: K -> nat, keys: seq<K>, key: K, s: nat, t: nat)
    requires Holds(Filled(hash, keys).0, key, s) && Holds(Filled(hash, keys).0, key, t) && s != t
    ensures Away(Filled(hash, keys).0, hash(key), s) != Away(Filled(hash, keys).0, hash(key), t)
  {
    MeetsNearest(hash, keys, key, s);
    hide Filled;
  }

  /** While no key is stored twice, every lookup of a key that is stored gives its last put. */
  lemma {:induction false} LookupInMap<K(!new)>(hash: K -> nat, keys: seq<K>, i: nat)
    requires i < |keys| && LastPut(keys, i) && hash(keys[i]) != 0 && NoDuplicates(Filled(hash, keys).0)
    ensures var (tab, size) := Filled(hash, keys);
            Answer(tab, size, hash(keys[i]), keys[i]).Found? && Answer(tab, size, hash(keys[i]), keys[i]).value == i
  {
    hide Filled, Answer, Away, At, LastPut;
    LookupExact(hash, keys, i);
    StaysThere(hash, keys, i);
  }

  /** A key is found with its last put as long as the table has not grown since before that put. */
  lemma {:induction false} LookupSinceGrowth<K(!new)>(hash: K -> nat, keys: seq<K>, i: nat)
    requires i < |keys| && LastPut(keys, i) && hash(keys[i]) != 0
    requires |Filled(hash, keys).0| == |Filled(hash, keys[..i]).0|
    ensures var (tab, size) := Filled(hash, keys);
            Answer(tab, size, hash(keys[i]), keys[i]).Found? && Answer(tab, size, hash(keys[i]), keys[i]).value == i
  {
    hide Filled, Answer, LastPut;
    var tab, before, key, h := Filled(hash, keys).0, Filled(hash, keys[..i]).0, keys[i], hash(keys[i]);
    LookupByPuts(hash, keys, i);
    forall j | 0 <= j < i && keys[j] == key ensures Away(tab, h, At(hash, keys, i)) <= Away(tab, h, At(hash, keys, j)) {
      AtBefore(hash, keys, i, j);
      StaysThere(hash, keys[..i], j);
      LandsNearest(hash, keys[..i], key, At(hash, keys, j));
    }
  }

  /** A put goes to the first slot of its probe path that is a hole or holds the key. */
  lemma {:induction false} LandsNearest<K(!new)>(hash: K -> nat, keys: seq<K>, key: K, s: nat)
    requires Holds(Filled(hash, keys).0, key, s)
    ensures var tab, h := Filled(hash, keys).0, hash(key);
            Away(tab, h, LandsIn(tab, h, key)) <= Away(tab, h, s)
  {
    var tab, h := Filled(hash, keys).0, hash(key);
    FilledStands(hash, keys);
    LandsSome(tab, h, key);
    MeetsNearest(hash, keys, key, s);
    HashedAt(tab, hash, s);
    hide Filled, UsedSlots, Meets;
    var home, n, d := Home(tab, h), Lands(tab, h, key, 0), Away(tab, h, s);
    assert Distance(|tab|, home, LandsIn(tab, h, key), 0) <= n;
    assert Matches(Probed(tab, home, d), h, key);
  }

  /** A put that does not make the table grow changes the answer for its key, and for no other. */
  lemma {:induction false} PutThenGet<K(!new)>(hash: K -> nat, keys: seq<K>, key: K, k: K)
    requires hash(key) != 0 && |Filled(hash, keys + [key]).0| == |Filled(hash, keys).0|
    ensures var (tab, size), (tab', size') := Filled(hash, keys), Filled(hash, keys + [key]);
            var was, now := Answer(tab, size, hash(k), k), Answer(tab', size', hash(k), k);
            if k == key then now.Found? && now.value == |keys|
            else (now.Found? <==> was.Found?) && (now.Found? ==> now == was)
  {
    var all := keys + [key];
    var (tab, size) := Filled(hash, keys);
    var (tab', size') := Filled(hash, all);
    PutSlots(hash, keys, key);
    if k == key {
      assert all[..|keys|] == keys;
      LookupSinceGrowth(hash, all, |keys|);
    } else {
      hide Filled, LandsIn, UsedSlots;
      var home := Home(tab, hash(k));
      forall j: nat ensures Matches(Probed(tab', home, j), hash(k), k) <==> Matches(Probed(tab, home, j), hash(k), k) {
        InTable(|tab|, home, j);
      }
      SameMeets(tab, tab', hash(k), k);
    }
  }

  lemma {:induction false} SameMeets<K, V>(a: seq<Slot<K, V>>, b: seq<Slot<K, V>>, h: nat, key: K)
    requires |a| == |b| > 0
    requires forall j: nat :: Matches(Probed(a, Home(a, h), j), h, key) <==> Matches(Probed(b, Home(b, h), j), h, key)
    ensures Meets(a, h, key, 0) == Meets(b, h, key, 0)
  {
    var m, n := Meets(a, h, key, 0), Meets(b, h, key, 0);
    assert m < |a| ==> Matches(Probed(b, Home(b, h), m), h, key);
    assert n < |b| ==> Matches(Probed(a, Home(a, h), n), h, key);
  }

  // Two inputs: the hash of a number is the number

  function Itself(n: nat): nat { n }

  const NONE: Slot<nat, nat> := Empty

  /** The next put, which lands after `n` probes. */
  lemma {:induction false} PutLands(keys: seq<nat>, key: nat, tab: seq<Slot<nat, nat>>, n: nat, at: nat)
    requires Filled(Itself, keys).0 == tab && key != 0 && n < |tab| && LandsAt(tab, key, key, n)
    requires at == Walk(|tab|, key % |tab|, n) < |tab|
    ensures var written := tab[at := Used(key, key, |keys|)];
            Filled(Itself, keys + [key]).0
            == if 4 * (|keys| + 1) >= 3 * |tab| then written + seq(|tab|, _ => NONE) else written
  {
    FilledStep(Itself, keys, key);
    LandsHere(tab, key, key, n);
  }

  function Four(): seq<Slot<nat, nat>> {
    [NONE, NONE, Used(26, 26, 0), Used(31, 31, 1)]
  }

  function Eight(): seq<Slot<nat, nat>> {
    [Used(62, 62, 2), NONE, Used(26, 26, 0), Used(31, 31, 1), NONE, NONE, NONE, NONE]
  }

  function Twice(): seq<Slot<nat, nat>> {
    [Used(62, 62, 2), NONE, Used(26, 26, 0), Used(31, 31, 1), NONE, NONE, Used(62, 62, 4), Used(31, 31, 3)]
  }

  lemma {:induction false} FillsFour()
    ensures Filled(Itself, [26, 31]).0 == Four()
  {
    hide Filled;
    FillsNone();
    var none := [NONE, NONE, NONE, NONE];
    assert Probed(none, 2, 0) == NONE && LandsAt(none, 26, 26, 0);
    PutLands([], 26, none, 0, 2);
    assert [] + [26] == [26];
    var one := none[2 := Used(26, 26, 0)];
    assert Probed(one, 3, 0) == NONE && LandsAt(one, 31, 31, 0);
    PutLands([26], 31, one, 0, 3);
    assert [26] + [31] == [26, 31] && one[3 := Used(31, 31, 1)] == Four();
  }

  lemma {:induction false} FillsNone()
    ensures Filled(Itself, []).0 == [NONE, NONE, NONE, NONE]
  {
  }

  lemma {:induction false} FillsEight()
    ensures Filled(Itself, [26, 31, 62]).0 == Eight()
  {
    hide Filled;
    FillsFour();
    var tab := Four();
    Steps(4, 2, 3, 0);
    assert Probed(tab, 2, 0) == tab[2] && Probed(tab, 2, 1) == tab[3] && Probed(tab, 2, 2) == tab[0];
    assert LandsAt(tab, 62, 62, 2);
    PutLands([26, 31], 62, tab, 2, 0);
    assert [26, 31] + [62] == [26, 31, 62] && tab[0 := Used(62, 62, 2)] + seq(4, _ => NONE) == Eight();
  }

  /** Two steps of a walk. */
  lemma {:induction false} Steps(cap: nat, a: nat, b: nat, c: nat)
    requires a < cap && Next(cap, a) == b && Next(cap, b) == c
    ensures Walk(cap, a, 0) == a && Walk(cap, a, 1) == b && Walk(cap, a, 2) == c
  {
  }

  lemma {:induction false} FillsTwice()
    ensures Filled(Itself, [26, 31, 62, 31, 62]).0 == Twice()
  {
    hide Filled;
    FillsEight();
    var tab := Eight();
    assert Probed(tab, 7, 0) == NONE && LandsAt(tab, 31, 31, 0);
    PutLands([26, 31, 62], 31, tab, 0, 7);
    assert [26, 31, 62] + [31] == [26, 31, 62, 31];
    var more := tab[7 := Used(31, 31, 3)];
    assert Probed(more, 6, 0) == NONE && LandsAt(more, 62, 62, 0);
    PutLands([26, 31, 62, 31], 62, more, 0, 6);
    assert [26, 31, 62, 31] + [62] == [26, 31, 62, 31, 62] && more[6 := Used(62, 62, 4)] == Twice();
  }

  /** Two keys are stored twice, and every lookup still gives the last put. */
  lemma TwiceAndRight()
    ensures var (tab, size) := Filled(Itself, [26, 31, 62, 31, 62]);
            && !NoDuplicates(tab)
            && Answer(tab, size, 26, 26) == Found(2, 0)
            && Answer(tab, size, 31, 31) == Found(7, 3)
            && Answer(tab, size, 62, 62) == Found(6, 4)
  {
    FillsTwice();
    hide Filled;
    var tab := Twice();
    assert tab[0].key == tab[6].key;
    assert Probed(tab, 2, 0) == tab[2] && Probed(tab, 7, 0) == tab[7] && Probed(tab, 6, 0) == tab[6];
    MeetsFirst(tab, 26, 26, 0);
    MeetsFirst(tab, 31, 31, 0);
    MeetsFirst(tab, 62, 62, 0);
  }

  function Sixteen(): seq<Slot<nat, nat>> {
    [Used(62, 62, 2), NONE, Used(26, 26, 0), Used(31, 31, 1), NONE, NONE, Used(62, 62, 4), Used(31, 31, 5),
     NONE, NONE, NONE, NONE, NONE, NONE, NONE, NONE]
  }

  lemma {:induction false} FillsSixteen()
    ensures Filled(Itself, [26, 31, 62, 31, 62, 31]).0 == Sixteen()
  {
    hide Filled;
    FillsTwice();
    var tab := Twice();
    assert Probed(tab, 7, 0) == tab[7] && LandsAt(tab, 31, 31, 0);
    PutLands([26, 31, 62, 31, 62], 31, tab, 0, 7);
    assert [26, 31, 62, 31, 62] + [31] == [26, 31, 62, 31, 62, 31];
    assert tab[7 := Used(31, 31, 5)] + seq(8, _ => NONE) == Sixteen();
  }

  lemma {:induction false} StaleWalk()
    ensures Walk(16, 14, 0) == 14 && Walk(16, 14, 1) == 7 && Walk(16, 14, 2) == 4 && Walk(16, 14, 3) == 5
    ensures Walk(16, 14, 4) == 10 && Walk(16, 14, 5) == 3 && Walk(16, 14, 6) == 0
  {
    Steps(16, 14, 7, 4);
    StepsOn(16, 14, 2, 4, 5, 10);
    StepsOn(16, 14, 4, 10, 3, 0);
  }

  /** One more put makes the table grow, and the lookup of 62 meets the older of its two slots: the fifth put
      is in slot 6, and the third is what dict_get delivers. */
  lemma Stale()
    ensures var (tab, size) := Filled(Itself, [26, 31, 62, 31, 62, 31]);
            tab[6] == Used(62, 62, 4) && Answer(tab, size, 62, 62) == Found(0, 2)
  {
    FillsSixteen();
    hide Filled, Walk;
    var tab := Sixteen();
    StaleWalk();
    assert Home(tab, 62) == 14;
    forall j: nat | j < 6 ensures !Matches(Probed(tab, 14, j), 62, 62) {
      assert j == 0 || j == 1 || j == 2 || j == 3 || j == 4 || j == 5;
    }
    MeetsFirst(tab, 62, 62, 6);
  }

  lemma {:induction false} StepsOn(cap: nat, start: nat, n: nat, a: nat, b: nat, c: nat)
    requires start < cap && Walk(cap, start, n) == a < cap && Next(cap, a) == b && Next(cap, b) == c
    ensures Walk(cap, start, n + 1) == b && Walk(cap, start, n + 2) == c
  {
  }
}
