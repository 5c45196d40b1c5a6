/** Small objects under the hash of the program: members in slot order, a key that is replaced and a key
    that is stored twice. */
module JsonKeys {
  import opened JsonTree
  import opened JsonBuild
  import opened JsonPrinted
  import opened JsonText
  import opened JsonRoundTrip
  import opened Dict
  import opened Visits

  /** default_hash on the characters of a string. */
  function StringHash(s: string): (h: nat)
    ensures h < 0x1_0000_0000_0000_0000
  {
    if s == [] then 37
    else (s[|s| - 1] as int + 65599 * StringHash(s[..|s| - 1])) % 0x1_0000_0000_0000_0000
  }

  lemma {:induction false} OneChar(c: char)
    requires c < 128 as char
    ensures StringHash([c]) == c as int + 2427163
  {
    assert [c][..0] == [];
    assert StringHash([]) == 37;
  }

  /** A put whose home is a hole goes there. */
  lemma {:induction false} HomeHole<K, V>(tab: seq<Slot<K, V>>, h: nat, key: K)
    requires |tab| > 0 && tab[Home(tab, h)].Empty?
    ensures LandsIn(tab, h, key) == Home(tab, h)
  {
    assert Probed(tab, Home(tab, h), 0) == tab[Home(tab, h)];
  }

  /** A put whose home holds the key replaces it. */
  lemma {:induction false} HomeMatches<K, V>(tab: seq<Slot<K, V>>, h: nat, key: K)
    requires |tab| > 0 && Matches(tab[Home(tab, h)], h, key)
    ensures LandsIn(tab, h, key) == Home(tab, h)
  {
    assert Probed(tab, Home(tab, h), 0) == tab[Home(tab, h)];
  }

  const NONE: Slot<string, nat> := Empty

  lemma {:induction false} Start(hash: string -> nat)
    ensures Filled(hash, []).0 == [NONE, NONE, NONE, NONE]
  {
  }

  /** The next put, when its home `at` is a hole. */
  lemma {:induction false} FilledMore(hash: string -> nat, keys: seq<string>, key: string,
                                      tab: seq<Slot<string, nat>>, at: nat)
    requires Filled(hash, keys).0 == tab && hash(key) != 0
    requires at < |tab| && at == Home(tab, hash(key)) && tab[at] == NONE
    ensures var written := tab[at := Used(hash(key), key, |keys|)];
            Filled(hash, keys + [key]).0
            == if 4 * (|keys| + 1) >= 3 * |tab| then written + seq(|tab|, _ => NONE) else written
    ensures !Lost(hash, keys + [key], |keys|)
  {
    var all := keys + [key];
    assert all[..|keys|] == keys && all[|keys|] == key;
    HomeHole(tab, hash(key), key);
  }

  // "b", then "a"

  function OnlyB(): seq<Slot<string, nat>> {
    [NONE, Used(StringHash("b"), "b", 0), NONE, NONE]
  }

  function BThenA(): seq<Slot<string, nat>> {
    [Used(StringHash("a"), "a", 1), Used(StringHash("b"), "b", 0), NONE, NONE]
  }

  lemma {:induction false} AfterB()
    ensures Filled(StringHash, ["b"]).0 == OnlyB()
  {
    hide Filled, Lost, StringHash;
    OneChar('b');
    Start(StringHash);
    FilledMore(StringHash, [], "b", [NONE, NONE, NONE, NONE], 1);
    assert [] + ["b"] == ["b"];
  }

  lemma {:induction false} AfterBA()
    ensures Filled(StringHash, ["b", "a"]).0 == BThenA()
  {
    hide Filled, Lost, StringHash;
    OneChar('a');
    AfterB();
    FilledMore(StringHash, ["b"], "a", OnlyB(), 0);
    assert ["b"] + ["a"] == ["b", "a"];
  }

  /** The members of an object are visited in slot order, not in the order of the text. */
  lemma SlotOrder()
    ensures Visit(StringHash, ["b", "a"]) == [1, 0]
  {
    hide Filled, StringHash, VisitOf;
    var tab := BThenA();
    AfterBA();
    VisitPart(tab, 0);
    VisitPart(tab, 1);
    VisitPart(tab, 2);
    VisitPart(tab, 3);
    assert tab[..4] == tab;
  }

  lemma {:induction false} VisitPart(tab: seq<Slot<string, nat>>, n: nat)
    requires n < |tab|
    ensures VisitOf(tab[..n + 1]) == VisitOf(tab[..n]) + if tab[n].Used? then [tab[n].value] else []
    ensures n == 0 ==> VisitOf(tab[..n]) == []
  {
    assert tab[..n + 1] == tab[..n] + [tab[n]];
    VisitMore(tab[..n], tab[n]);
  }

  // A key, and the same key again

  /** A key that is put twice while it still sits on its probe path is replaced: the counter is off, the
      object is printed with a comma at the end, and refused. */
  lemma RepeatedKey(hash: string -> nat, fmt: string -> string, key: string)
    requires hash(key) != 0 && Paired(key)
    ensures var m := Member(key, Null);
            Built(hash, Obj([m, m], 2)) == Obj([m], 2)
            && Parse(hash, Stringify(fmt, Obj([m], 2))) == Refused
  {
    hide Parse, Stringify, Kept;
    var m := Member(key, Null);
    KeptTwice(hash, m);
    NullBuilt(hash, m);
    NotBetween(m);
    ParsesText(hash, fmt, Obj([m], 2));
  }

  lemma {:induction false} NullBuilt(hash: string -> nat, m: Member)
    requires m.value == Null
    ensures BuiltMembers(hash, [m, m]) == [m, m]
  {
  }

  lemma {:induction false} NotBetween(m: Member)
    requires Paired(m.key) && m.value == Null
    ensures Lexable(Obj([m], 2)) && !CommasRight(Obj([m], 2))
  {
  }

  lemma {:induction false} KeptTwice(hash: string -> nat, m: Member)
    requires hash(m.key) != 0
    ensures Kept(hash, [m, m]) == [m]
  {
    assert Keys([m, m]) == [m.key, m.key];
    VisitTwice(hash, m.key);
    VisitsOnce(hash, [m.key, m.key]);
    hide Visit;
    var ix := Visit(hash, [m.key, m.key]);
    assert Pick([m, m], ix)[0] == m;
  }

  lemma {:induction false} VisitTwice(hash: string -> nat, key: string)
    requires hash(key) != 0
    ensures |Visit(hash, [key, key])| == 1
  {
    hide Filled, VisitOf, Home, LandsIn;
    var empty, h := [NONE, NONE, NONE, NONE], hash(key);
    var at := Home(empty, h);
    Start(hash);
    FilledMore(hash, [], key, empty, at);
    assert [] + [key] == [key];
    var one := empty[at := Used(h, key, 0)];
    SameHome(empty, one, h);
    HomeMatches(one, h, key);
    FilledAgain(hash, key, one, at);
    OnlyOne(one[at := Used(h, key, 1)], at);
  }

  lemma {:induction false} SameHome(a: seq<Slot<string, nat>>, b: seq<Slot<string, nat>>, h: nat)
    requires |a| == |b| > 0
    ensures Home(a, h) == Home(b, h)
  {
  }

  lemma {:induction false} FilledAgain(hash: string -> nat, key: string, tab: seq<Slot<string, nat>>, at: nat)
    requires Filled(hash, [key]).0 == tab && |tab| == 4 && hash(key) != 0 && LandsIn(tab, hash(key), key) == at
    ensures Filled(hash, [key, key]).0 == tab[at := Used(hash(key), key, 1)]
  {
    hide LandsIn;
    assert [key, key][..1] == [key];
  }

  lemma {:induction false} OnlyOne(tab: seq<Slot<string, nat>>, at: nat)
    requires at < |tab| && tab[at].Used? && forall i :: 0 <= i < |tab| && i != at ==> tab[i] == NONE
    ensures VisitOf(tab) == [tab[at].value]
    decreases |tab|
  {
    hide VisitOf;
    var n := |tab| - 1;
    assert tab == tab[..n] + [tab[n]];
    VisitMore(tab[..n], tab[n]);
    if at == n {
      NoneThere(tab[..n]);
    } else {
      OnlyOne(tab[..n], at);
    }
  }

  lemma {:induction false} NoneThere(tab: seq<Slot<string, nat>>)
    requires forall i :: 0 <= i < |tab| ==> tab[i] == NONE
    ensures VisitOf(tab) == []
  {
    if tab != [] {
      var n := |tab| - 1;
      assert tab == tab[..n] + [tab[n]];
      VisitMore(tab[..n], tab[n]);
      NoneThere(tab[..n]);
    }
  }

  // "a", "b", "c", then "a" again: the homes are 0, 1 and 2 in four slots, 4, 5 and 6 in eight

  function FirstA(): seq<Slot<string, nat>> {
    [Used(StringHash("a"), "a", 0), NONE, NONE, NONE]
  }

  function FirstTwo(): seq<Slot<string, nat>> {
    [Used(StringHash("a"), "a", 0), Used(StringHash("b"), "b", 1), NONE, NONE]
  }

  function FirstThree(): seq<Slot<string, nat>> {
    [Used(StringHash("a"), "a", 0), Used(StringHash("b"), "b", 1), Used(StringHash("c"), "c", 2), NONE,
     NONE, NONE, NONE, NONE]
  }

  lemma {:induction false} AfterA()
    ensures Filled(StringHash, ["a"]).0 == FirstA() && !Lost(StringHash, ["a"], 0)
  {
    hide Filled, Lost, StringHash;
    OneChar('a');
    Start(StringHash);
    FilledMore(StringHash, [], "a", [NONE, NONE, NONE, NONE], 0);
    assert [] + ["a"] == ["a"];
  }

  lemma {:induction false} AfterAB()
    ensures Filled(StringHash, ["a", "b"]).0 == FirstTwo() && !Lost(StringHash, ["a", "b"], 1)
  {
    hide Filled, Lost, StringHash;
    OneChar('b');
    AfterA();
    FilledMore(StringHash, ["a"], "b", FirstA(), 1);
    assert ["a"] + ["b"] == ["a", "b"];
  }

  lemma {:induction false} AfterABC()
    ensures Filled(StringHash, ["a", "b", "c"]).0 == FirstThree() && !Lost(StringHash, ["a", "b", "c"], 2)
  {
    hide Filled, Lost, StringHash;
    OneChar('c');
    AfterAB();
    FilledMore(StringHash, ["a", "b"], "c", FirstTwo(), 2);
    assert ["a", "b"] + ["c"] == ["a", "b", "c"];
    assert FirstTwo()[2 := Used(StringHash("c"), "c", 2)] + seq(4, _ => NONE) == FirstThree();
  }

  lemma {:induction false} AfterABCA()
    ensures !Lost(StringHash, ["a", "b", "c", "a"], 3)
  {
    hide Filled, Lost, StringHash;
    OneChar('a');
    AfterABC();
    FilledMore(StringHash, ["a", "b", "c"], "a", FirstThree(), 4);
    assert ["a", "b", "c"] + ["a"] == ["a", "b", "c", "a"];
  }

  lemma {:induction false} AbcaFresh()
    ensures Fresh(StringHash, ["a", "b", "c", "a"])
  {
    hide Lost, Fresh, StringHash;
    AfterA();
    AfterAB();
    AfterABC();
    AfterABCA();
    assert ["a", "b", "c", "a"][..3] == ["a", "b", "c"] && ["a", "b", "c"][..2] == ["a", "b"];
    assert ["a", "b"][..1] == ["a"] && ["a"][..0] == [];
    FreshMore(StringHash, ["a"]);
    FreshMore(StringHash, ["a", "b"]);
    FreshMore(StringHash, ["a", "b", "c"]);
    FreshMore(StringHash, ["a", "b", "c", "a"]);
    FreshNone(StringHash);
  }

  lemma {:induction false} FreshNone(hash: string -> nat)
    ensures Fresh(hash, [])
  {
  }

  function Abca(): Node {
    Obj([Member("a", Bool(true)), Member("b", Null), Member("c", Null), Member("a", Bool(false))], 4)
  }

  /** A key that growing has displaced is stored a second time: the object holds both bindings, its counter
      is right, and it comes back from its text. */
  lemma StoredTwice(fmt: string -> string)
    ensures Meaning(Built(StringHash, Abca())) == Meaning(Abca()) && ComesBack(StringHash, fmt, Abca())
  {
    hide ComesBack, StringHash, Fresh, Meaning, Built;
    assert Keys(Abca().members) == ["a", "b", "c", "a"];
    AbcaFresh();
    PlainAbca();
    BuiltExact(StringHash, Abca());
    RoundTripExact(StringHash, fmt, Abca());
  }

  lemma {:induction false} PlainAbca()
    ensures Lexable(Abca()) && CommasRight(Abca()) && Height(Abca()) <= MAX_NESTING
    ensures forall i :: 0 <= i < 4 ==> AllFresh(StringHash, Abca().members[i].value)
  {
    var ms := Abca().members;
    assert Paired("a") && Paired("b") && Paired("c");
    UpToHeight(ms, 1);
  }
}
