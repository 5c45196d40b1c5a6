/** From the members a text spells to the objects that are built. An object is a dictionary of node
    pointers: which members are still there, and in what order they are visited, is decided by the table. */
module JsonBuild {
  import opened JsonTree
  import opened Visits

  function Keys(ms: seq<Member>): (ks: seq<string>)
    ensures |ks| == |ms| && forall i :: 0 <= i < |ms| ==> ks[i] == ms[i].key
  {
    seq(|ms|, i requires 0 <= i < |ms| => ms[i].key)
  }

  function Pick<T>(xs: seq<T>, ix: seq<nat>): (r: seq<T>)
    requires Different(ix, |xs|)
    ensures |r| == |ix| && forall p :: 0 <= p < |ix| ==> r[p] == xs[ix[p]]
  {
    if ix == [] then [] else Pick(xs, ix[..|ix| - 1]) + [xs[ix[|ix| - 1]]]
  }

  /** The members an object holds after all of them have been put, in the order of dict_foreach. */
  function Kept(hash: string -> nat, ms: seq<Member>): (r: seq<Member>)
    ensures |r| <= |ms|
  {
    VisitsOnce(hash, Keys(ms));
    Pick(ms, Visit(hash, Keys(ms)))
  }

  /** The node built for a value as it is spelled. */
  function Built(hash: string -> nat, v: Node): Node
    decreases v, 1
  {
    match v
    case Arr(elems) => Arr(BuiltElems(hash, elems))
    case Obj(members, _) => Obj(Kept(hash, BuiltMembers(hash, members)), |members|)
    case _ => v
  }

  function BuiltElems(hash: string -> nat, vs: seq<Node>): (r: seq<Node>)
    ensures |r| == |vs| && forall i :: 0 <= i < |vs| ==> r[i] == Built(hash, vs[i])
    decreases vs, 0
  {
    if vs == [] then [] else [Built(hash, vs[0])] + BuiltElems(hash, vs[1..])
  }

  function BuiltMembers(hash: string -> nat, ms: seq<Member>): (r: seq<Member>)
    ensures |r| == |ms|
    ensures forall i :: 0 <= i < |ms| ==> r[i] == Member(ms[i].key, Built(hash, ms[i].value))
    decreases ms, 0
  {
    if ms == [] then []
    else [Member(ms[0].key, Built(hash, ms[0].value))] + BuiltMembers(hash, ms[1..])
  }

  /** What a tree stands for: objects are the bags of their bindings. With distinct keys that is a finite
      map. */
  datatype Denotation =
    | VNull
    | VBool(b: bool)
    | VInt(n: int)
    | VFloat(literal: string)
    | VStr(s: string)
    | VArr(elems: seq<Denotation>)
    | VObj(bindings: multiset<Binding>)

  datatype Binding = Binding(key: string, value: Denotation)

  function Meaning(v: Node): Denotation
    decreases v, 1
  {
    match v
    case Null => VNull
    case Bool(b) => VBool(b)
    case Int(n) => VInt(n)
    case Float(literal) => VFloat(literal)
    case Str(s) => VStr(s)
    case Arr(elems) => VArr(Meanings(elems))
    case Obj(members, _) => VObj(multiset(Bound(members)))
  }

  function Meanings(vs: seq<Node>): (r: seq<Denotation>)
    ensures |r| == |vs| && forall i :: 0 <= i < |vs| ==> r[i] == Meaning(vs[i])
    decreases vs, 0
  {
    if vs == [] then [] else [Meaning(vs[0])] + Meanings(vs[1..])
  }

  function Bound(ms: seq<Member>): (r: seq<Binding>)
    ensures |r| == |ms| && forall i :: 0 <= i < |ms| ==> r[i] == Binding(ms[i].key, Meaning(ms[i].value))
    decreases ms, 0
  {
    if ms == [] then [] else [Binding(ms[0].key, Meaning(ms[0].value))] + Bound(ms[1..])
  }

  /** In no object is a put lost, whose hash is 0 or whose key still sits on its probe path. */
  predicate AllFresh(hash: string -> nat, v: Node) {
    match v
    case Arr(elems) => forall i :: 0 <= i < |elems| ==> AllFresh(hash, elems[i])
    case Obj(members, _) =>
      Fresh(hash, Keys(members)) && forall i :: 0 <= i < |members| ==> AllFresh(hash, members[i].value)
    case _ => true
  }

  predicate AllKeys(hash: string -> nat, v: Node) {
    match v
    case Arr(elems) => forall i :: 0 <= i < |elems| ==> AllKeys(hash, elems[i])
    case Obj(members, _) =>
      (forall i :: 0 <= i < |members| ==> hash(members[i].key) != 0 && AllKeys(hash, members[i].value))
      && (forall i, j :: 0 <= i < j < |members| ==> members[i].key != members[j].key)
    case _ => true
  }

  /** Distinct keys with hashes other than 0 are enough. */
  lemma {:induction false} KeysFresh(hash: string -> nat, v: Node)
    requires AllKeys(hash, v)
    ensures AllFresh(hash, v)
  {
    match v
    case Arr(elems) =>
      forall i | 0 <= i < |elems| ensures AllFresh(hash, elems[i]) {
        KeysFresh(hash, elems[i]);
      }
    case Obj(members, _) =>
      DistinctFresh(hash, Keys(members));
      forall i | 0 <= i < |members| ensures AllFresh(hash, members[i].value) {
        KeysFresh(hash, members[i].value);
      }
    case _ =>
  }

  /** Members in all the objects of a value. */
  function Count(v: Node): nat
    decreases v, 1
  {
    match v
    case Arr(elems) => ElemsCount(elems)
    case Obj(members, _) => MembersCount(members)
    case _ => 0
  }

  function ElemsCount(vs: seq<Node>): nat
    decreases vs, 0
  {
    if vs == [] then 0 else Count(vs[0]) + ElemsCount(vs[1..])
  }

  function MembersCount(ms: seq<Member>): nat
    decreases ms, 0
  {
    if ms == [] then 0 else 1 + Count(ms[0].value) + MembersCount(ms[1..])
  }

  function Without<T>(xs: seq<T>, i: nat): (r: seq<T>)
    requires i < |xs|
    ensures |r| == |xs| - 1
  {
    xs[..i] + xs[i + 1..]
  }

  lemma {:induction false} CountWithout(ms: seq<Member>, i: nat)
    requires i < |ms|
    ensures MembersCount(ms) == MembersCount(Without(ms, i)) + 1 + Count(ms[i].value)
    decreases i
  {
    hide Count;
    if i == 0 {
      assert Without(ms, 0) == ms[1..];
    } else {
      CountWithout(ms[1..], i - 1);
      assert Without(ms, i)[1..] == Without(ms[1..], i - 1);
    }
  }

  /** Picking different members: all of them, in some order, or fewer. */
  lemma {:induction false} PickCounts(ms: seq<Member>, ix: seq<nat>)
    requires Different(ix, |ms|)
    ensures |ix| <= |ms| && MembersCount(Pick(ms, ix)) + (|ms| - |ix|) <= MembersCount(ms)
    ensures |ix| == |ms| ==> MembersCount(Pick(ms, ix)) == MembersCount(ms)
    decreases |ms|
  {
    hide Count, MembersCount, Different;
    if ms == [] {
      NoneBelow(ix);
      assert Pick(ms, ix) == [] == ms;
    } else {
      var n := |ms| - 1;
      CountWithout(ms, n);
      WithoutLast(ms);
      hide Without, Pick;
      if n in ix {
        var p := PickWithout(ms, ix);
        PickCounts(ms[..n], Without(ix, p));
        CountWithout(Pick(ms, ix), p);
      } else {
        PickFewer(ms, ix);
        PickCounts(ms[..n], ix);
      }
    }
  }

  lemma {:induction false} NoneBelow(ix: seq<nat>)
    requires Different(ix, 0)
    ensures ix == []
  {
    TooMany(0, ix);
  }

  lemma {:induction false} PickFewer<T>(xs: seq<T>, ix: seq<nat>)
    requires xs != [] && Different(ix, |xs|) && |xs| - 1 !in ix
    ensures Different(ix, |xs| - 1) && Pick(xs, ix) == Pick(xs[..|xs| - 1], ix)
  {
  }

  lemma {:induction false} WithoutLast<T>(xs: seq<T>)
    requires xs != []
    ensures Without(xs, |xs| - 1) == xs[..|xs| - 1]
  {
  }

  lemma {:induction false} PickWithout<T>(xs: seq<T>, ix: seq<nat>) returns (p: nat)
    requires xs != [] && |xs| - 1 in ix && Different(ix, |xs|)
    ensures p < |ix| && ix[p] == |xs| - 1 && Different(Without(ix, p), |xs| - 1)
    ensures Without(Pick(xs, ix), p) == Pick(xs[..|xs| - 1], Without(ix, p))
  {
    hide Pick;
    p :| 0 <= p < |ix| && ix[p] == |xs| - 1;
    StillDistinct(ix, p);
    var rest, picked := Without(ix, p), Without(Pick(xs, ix), p);
    forall q | 0 <= q < |rest| ensures rest[q] < |xs| - 1 && picked[q] == xs[..|xs| - 1][rest[q]] {
      assert rest[q] == ix[if q < p then q else q + 1];
    }
  }

  lemma {:induction false} StillDistinct(ix: seq<nat>, p: nat)
    requires p < |ix| && forall p, q :: 0 <= p < q < |ix| ==> ix[p] != ix[q]
    ensures var rest := Without(ix, p);
            (forall q :: 0 <= q < |rest| ==> rest[q] != ix[p])
            && (forall q, r :: 0 <= q < r < |rest| ==> rest[q] != rest[r])
  {
    var rest := Without(ix, p);
    assert forall q :: 0 <= q < |rest| ==> rest[q] == ix[if q < p then q else q + 1];
  }

  /** Picking all of them keeps the bag. */
  lemma {:induction false} PickAll<T>(xs: seq<T>, ix: seq<nat>)
    requires |ix| == |xs| && Different(ix, |xs|)
    ensures multiset(Pick(xs, ix)) == multiset(xs)
    decreases |xs|
  {
    hide Pick, Different;
    if xs == [] {
      assert Pick(xs, ix) == xs;
    } else {
      var n := |xs| - 1;
      LastPicked(n, ix);
      var p := PickWithout(xs, ix);
      PickAll(xs[..n], Without(ix, p));
      BagWithout(Pick(xs, ix), p);
      BagWithout(xs, n);
      WithoutLast(xs);
    }
  }

  lemma {:induction false} BagWithout<T>(xs: seq<T>, i: nat)
    requires i < |xs|
    ensures multiset(xs) == multiset(Without(xs, i)) + multiset{xs[i]}
  {
    assert xs == xs[..i] + [xs[i]] + xs[i + 1..];
  }

  lemma {:induction false} LastPicked(n: nat, ix: seq<nat>)
    requires |ix| == n + 1 && Different(ix, n + 1)
    ensures n in ix
  {
    if n !in ix {
      TooMany(n, ix);
    }
  }

  /** No more than `n` different numbers are below `n`. */
  lemma {:induction false} TooMany(n: nat, ix: seq<nat>)
    requires Different(ix, n)
    ensures |ix| <= n
    decreases n
  {
    if ix != [] {
      assert ix[0] < n;
      if n - 1 in ix {
        var p :| 0 <= p < |ix| && ix[p] == n - 1;
        var rest := Without(ix, p);
        StillDistinct(ix, p);
        assert forall q :: 0 <= q < |rest| ==> rest[q] == ix[if q < p then q else q + 1];
        TooMany(n - 1, rest);
      } else {
        TooMany(n - 1, ix);
      }
    }
  }

  /** Building keeps the depth and what the lexer can produce. */
  lemma {:induction false} BuiltKeeps(hash: string -> nat, v: Node)
    ensures Height(Built(hash, v)) <= Height(v) && (Lexable(v) ==> Lexable(Built(hash, v)))
    decreases v, 1
  {
    hide Kept, ElemsHeight, MembersHeight, Paired;
    match v
    case Arr(elems) => BuiltElemsKeep(hash, elems);
    case Obj(members, _) => BuiltMembersKeep(hash, members);
    case _ =>
  }

  lemma {:induction false} BuiltElemsKeep(hash: string -> nat, vs: seq<Node>)
    ensures forall i :: 0 <= i < |vs| ==> Lexable(vs[i]) ==> Lexable(BuiltElems(hash, vs)[i])
    ensures ElemsHeight(BuiltElems(hash, vs)) <= ElemsHeight(vs)
    decreases vs, 0
  {
    hide Lexable, Height, Built;
    if vs != [] {
      BuiltKeeps(hash, vs[0]);
      BuiltElemsKeep(hash, vs[1..]);
      assert BuiltElems(hash, vs)[1..] == BuiltElems(hash, vs[1..]);
    }
  }

  predicate AllLexable(ms: seq<Member>) {
    forall m :: m in ms ==> Paired(m.key) && Lexable(m.value)
  }

  predicate AllUpTo(ms: seq<Member>, h: nat) {
    forall m :: m in ms ==> Height(m.value) <= h
  }

  lemma {:induction false} UpToHeight(ms: seq<Member>, h: nat)
    ensures AllUpTo(ms, h) <==> MembersHeight(ms) <= h
  {
    hide Height;
    if ms != [] {
      UpToHeight(ms[1..], h);
      assert ms == [ms[0]] + ms[1..];
    }
  }

  lemma {:induction false} BuiltMembersKeep(hash: string -> nat, ms: seq<Member>)
    ensures AllLexable(ms) ==> AllLexable(Kept(hash, BuiltMembers(hash, ms)))
    ensures MembersHeight(Kept(hash, BuiltMembers(hash, ms))) <= MembersHeight(ms)
    decreases ms, 0
  {
    hide Lexable, Height, Built, MembersHeight, Paired;
    var h, built := MembersHeight(ms), BuiltMembers(hash, ms);
    UpToHeight(ms, h);
    forall i | 0 <= i < |ms| ensures Height(built[i].value) <= h && (AllLexable(ms) ==> Lexable(built[i].value)) {
      assert ms[i] in ms;
      BuiltKeeps(hash, ms[i].value);
    }
    assert AllUpTo(built, h) && (AllLexable(ms) ==> AllLexable(built)) by {
      forall m | m in built ensures Height(m.value) <= h && (AllLexable(ms) ==> Paired(m.key) && Lexable(m.value)) {
        var i :| 0 <= i < |built| && built[i] == m;
        assert ms[i] in ms;
      }
    }
    KeptFrom(hash, built);
    UpToHeight(Kept(hash, built), h);
  }

  lemma {:induction false} KeptFrom(hash: string -> nat, ms: seq<Member>)
    ensures forall m :: m in Kept(hash, ms) ==> m in ms
  {
    hide Visit, Keys, Pick;
    VisitsOnce(hash, Keys(ms));
    var ix := Visit(hash, Keys(ms));
    assert forall p :: 0 <= p < |ix| ==> Kept(hash, ms)[p] == ms[ix[p]];
  }

  /** Building never adds members, and loses none exactly when no put is lost. */
  lemma {:induction false} BuiltCounts(hash: string -> nat, v: Node)
    ensures Count(Built(hash, v)) <= Count(v)
    ensures Count(Built(hash, v)) == Count(v) <==> AllFresh(hash, v)
    decreases v, 1
  {
    hide Fresh, Kept;
    match v
    case Arr(elems) => BuiltElemsCount(hash, elems);
    case Obj(members, _) =>
      BuiltMembersCount(hash, members);
      KeptCounts(hash, BuiltMembers(hash, members));
      assert Keys(BuiltMembers(hash, members)) == Keys(members);
    case _ =>
  }

  lemma {:induction false} KeptCounts(hash: string -> nat, ms: seq<Member>)
    ensures MembersCount(Kept(hash, ms)) <= MembersCount(ms)
    ensures MembersCount(Kept(hash, ms)) == MembersCount(ms) <==> Fresh(hash, Keys(ms))
  {
    hide Visit, Fresh, MembersCount, Pick;
    VisitsOnce(hash, Keys(ms));
    PickCounts(ms, Visit(hash, Keys(ms)));
  }

  lemma {:induction false} BuiltElemsCount(hash: string -> nat, vs: seq<Node>)
    ensures ElemsCount(BuiltElems(hash, vs)) <= ElemsCount(vs)
    ensures ElemsCount(BuiltElems(hash, vs)) == ElemsCount(vs) <==> forall i :: 0 <= i < |vs| ==> AllFresh(hash, vs[i])
    decreases vs, 0
  {
    hide AllFresh, Count, Built;
    if vs != [] {
      BuiltCounts(hash, vs[0]);
      BuiltElemsCount(hash, vs[1..]);
      assert BuiltElems(hash, vs)[1..] == BuiltElems(hash, vs[1..]);
    }
  }

  lemma {:induction false} BuiltMembersCount(hash: string -> nat, ms: seq<Member>)
    ensures MembersCount(BuiltMembers(hash, ms)) <= MembersCount(ms)
    ensures MembersCount(BuiltMembers(hash, ms)) == MembersCount(ms)
            <==> forall i :: 0 <= i < |ms| ==> AllFresh(hash, ms[i].value)
    decreases ms, 0
  {
    hide AllFresh, Count, Built;
    if ms != [] {
      BuiltCounts(hash, ms[0].value);
      BuiltMembersCount(hash, ms[1..]);
      assert BuiltMembers(hash, ms)[1..] == BuiltMembers(hash, ms[1..]);
    }
  }

  /** Trees that mean the same have as many members, and are lexable together. */
  lemma {:induction false} MeaningKeeps(v: Node, w: Node)
    requires Meaning(v) == Meaning(w)
    ensures Count(v) == Count(w) && (Lexable(w) ==> Lexable(v))
    decreases v, 1
  {
    match v
    case Arr(elems) => MeaningsKeep(elems, w.elems);
    case Obj(members, _) => BoundKeeps(members, w.members);
    case _ =>
  }

  lemma {:induction false} MeaningsKeep(vs: seq<Node>, ws: seq<Node>)
    requires Meanings(vs) == Meanings(ws)
    ensures ElemsCount(vs) == ElemsCount(ws)
    ensures (forall i :: 0 <= i < |ws| ==> Lexable(ws[i])) ==> forall i :: 0 <= i < |vs| ==> Lexable(vs[i])
    decreases vs, 0
  {
    hide Lexable, Count, Meaning;
    if vs != [] {
      assert |vs| == |Meanings(vs)| == |ws|;
      assert Meanings(vs)[0] == Meanings(ws)[0];
      MeaningKeeps(vs[0], ws[0]);
      assert Meanings(vs)[1..] == Meanings(vs[1..]) && Meanings(ws)[1..] == Meanings(ws[1..]);
      MeaningsKeep(vs[1..], ws[1..]);
    } else {
      assert |ws| == |Meanings(ws)|;
    }
  }

  lemma {:induction false} BoundKeeps(ms: seq<Member>, ns: seq<Member>)
    requires multiset(Bound(ms)) == multiset(Bound(ns))
    ensures MembersCount(ms) == MembersCount(ns)
    ensures AllLexable(ns) ==> AllLexable(ms)
    decreases ms, 0
  {
    hide Lexable, Count, Meaning, Paired, AllLexable, Bound, MembersCount;
    assert |Bound(ms)| == |multiset(Bound(ms))| == |Bound(ns)|;
    if ms == [] {
      NoneLexable();
    } else {
      var j := SameBinding(ms, ns);
      MeaningKeeps(ms[0].value, ns[j].value);
      BoundKeeps(ms[1..], Without(ns, j));
      CountWithout(ns, j);
      CountWithout(ms, 0);
      assert Without(ms, 0) == ms[1..];
      LexableWithout(ns, j);
      LexableWithout(ms, 0);
    }
  }

  lemma {:induction false} NoneLexable()
    ensures AllLexable([])
  {
  }

  lemma {:induction false} LexableWithout(ms: seq<Member>, i: nat)
    requires i < |ms|
    ensures AllLexable(ms) <==> AllLexable(Without(ms, i)) && Paired(ms[i].key) && Lexable(ms[i].value)
  {
    hide Lexable, Paired;
    assert ms == ms[..i] + [ms[i]] + ms[i + 1..];
  }

  lemma {:induction false} SameBinding(ms: seq<Member>, ns: seq<Member>) returns (j: nat)
    requires ms != [] && multiset(Bound(ms)) == multiset(Bound(ns))
    ensures j < |ns| && ns[j].key == ms[0].key && Meaning(ns[j].value) == Meaning(ms[0].value)
    ensures multiset(Bound(ms[1..])) == multiset(Bound(Without(ns, j)))
  {
    hide Meaning, Bound;
    var b := Bound(ms)[0];
    assert b in multiset(Bound(ns));
    j :| 0 <= j < |ns| && Bound(ns)[j] == b;
    BoundWithout(ns, j);
    BoundWithout(ms, 0);
    assert Without(ms, 0) == ms[1..];
    hide Without;
    CancelBag(multiset(Bound(ms[1..])), multiset(Bound(Without(ns, j))), b);
  }

  lemma {:induction false} CancelBag<T>(a: multiset<T>, b: multiset<T>, x: T)
    requires a + multiset{x} == b + multiset{x}
    ensures a == b
  {
    assert a == (a + multiset{x}) - multiset{x} && b == (b + multiset{x}) - multiset{x};
  }

  lemma {:induction false} BoundWithout(ms: seq<Member>, i: nat)
    requires i < |ms|
    ensures Bound(Without(ms, i)) == Without(Bound(ms), i)
    ensures multiset(Bound(ms)) == multiset(Bound(Without(ms, i))) + multiset{Bound(ms)[i]}
  {
    BagWithout(Bound(ms), i);
  }

  /** What is built means what is spelled exactly when no put is lost. */
  lemma {:induction false} BuiltExact(hash: string -> nat, v: Node)
    ensures Meaning(Built(hash, v)) == Meaning(v) <==> AllFresh(hash, v)
  {
    BuiltCounts(hash, v);
    if Meaning(Built(hash, v)) == Meaning(v) {
      MeaningKeeps(Built(hash, v), v);
    }
    if AllFresh(hash, v) {
      BuiltMeans(hash, v);
    }
  }

  lemma {:induction false} BuiltMeans(hash: string -> nat, v: Node)
    requires AllFresh(hash, v)
    ensures Meaning(Built(hash, v)) == Meaning(v)
    decreases v, 1
  {
    hide Fresh, Kept;
    match v
    case Arr(elems) =>
      forall i | 0 <= i < |elems| ensures Meanings(BuiltElems(hash, elems))[i] == Meanings(elems)[i] {
        BuiltMeans(hash, elems[i]);
      }
      assert Meanings(BuiltElems(hash, elems)) == Meanings(elems);
    case Obj(members, _) =>
      var built := BuiltMembers(hash, members);
      forall i | 0 <= i < |members| ensures Bound(built)[i] == Bound(members)[i] {
        BuiltMeans(hash, members[i].value);
      }
      assert Bound(built) == Bound(members);
      assert Keys(built) == Keys(members);
      KeptMeans(hash, built);
    case _ =>
  }

  lemma {:induction false} KeptMeans(hash: string -> nat, ms: seq<Member>)
    requires Fresh(hash, Keys(ms))
    ensures multiset(Bound(Kept(hash, ms))) == multiset(Bound(ms))
  {
    hide Visit, Fresh, Bound, Pick;
    var ix := Visit(hash, Keys(ms));
    VisitsOnce(hash, Keys(ms));
    assert Bound(Kept(hash, ms)) == Pick(Bound(ms), ix);
    PickAll(Bound(ms), ix);
  }
}
