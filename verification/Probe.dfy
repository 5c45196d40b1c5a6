/** The probe sequence of the dictionary, i -> (5 i + 1) mod capacity. */
module Probe {

  function Pow2(k: nat): (p: nat)
    ensures p > 0
  {
    if k == 0 then 1 else 2 * Pow2(k - 1)
  }

  /** idx_iter. */
  function Next(cap: nat, idx: nat): nat
    requires cap > 0
  {
    (5 * idx + 1) % cap
  }

  /** The slot after `n` probes from `start`. */
  function Walk(cap: nat, start: nat, n: nat): nat
    requires cap > 0
  {
    if n == 0 then start else Next(cap, Walk(cap, start, n - 1))
  }

  /** The same without reducing. */
  function Iter(x: int, n: nat): int {
    if n == 0 then x else 5 * Iter(x, n - 1) + 1
  }

  lemma {:induction false} DivMod(z: int, m: nat)
    requires m > 0
    ensures z == m * (z / m) + z % m && 0 <= z % m < m
  {
  }

  /** Two residues that differ by a multiple of the modulus are the same. */
  lemma {:induction false} SameResidue(a: int, b: int, m: nat, q: int)
    requires 0 <= a < m && 0 <= b < m && a == b + m * q
    ensures a == b
  {
    assert q >= 1 ==> m * q >= m;
    assert q <= -1 ==> m * q + m <= 0;
  }

  /** Reducing at every step only takes multiples of the capacity away. */
  lemma {:induction false} WalkIsIter(cap: nat, start: nat, n: nat) returns (q: int)
    requires cap > 0 && start < cap
    ensures Walk(cap, start, n) < cap && Iter(start, n) == Walk(cap, start, n) + cap * q
  {
    if n == 0 {
      q := 0;
    } else {
      var q' := WalkIsIter(cap, start, n - 1);
      var w := Walk(cap, start, n - 1);
      q := Reduced(cap, w, q');
    }
  }

  lemma {:induction false} Reduced(cap: nat, w: nat, q: int) returns (q': int)
    requires cap > 0
    ensures Next(cap, w) < cap && 5 * (w + cap * q) + 1 == Next(cap, w) + cap * q'
  {
    var z := 5 * w + 1;
    DivMod(z, cap);
    q' := 5 * q + z / cap;
    assert cap * q' == 5 * (cap * q) + cap * (z / cap);
  }

  lemma {:induction false} IterAdd(x: int, a: nat, b: nat)
    ensures Iter(x, a + b) == Iter(Iter(x, a), b)
  {
    if b > 0 {
      IterAdd(x, a, b - 1);
    }
  }

  /** 2^k steps are multiplication by 1 + 4 * 2^k * a and addition of 2^k * (2 c + 1). */
  lemma {:induction false} PowSteps(k: nat) returns (a: int, c: int)
    ensures forall x :: Iter(x, Pow2(k)) == (1 + 4 * Pow2(k) * a) * x + Pow2(k) * (2 * c + 1)
  {
    if k == 0 {
      a, c := 1, 0;
      forall x ensures Iter(x, 1) == 5 * x + 1 {
        assert Iter(x, 0) == x;
      }
    } else {
      var p := Pow2(k - 1);
      var a', c' := PowSteps(k - 1);
      var m, d := 1 + 4 * p * a', p * (2 * c' + 1);
      a, c := a' + 2 * p * a' * a', c' + p * a' * (2 * c' + 1);
      forall x ensures Iter(x, 2 * p) == (1 + 4 * (2 * p) * a) * x + 2 * p * (2 * c + 1) {
        IterAdd(x, p, p);
        assert Iter(x, p) == m * x + d;
        assert Iter(Iter(x, p), p) == m * (m * x + d) + d;
        Squared(p, a', c', x);
      }
    }
  }

  lemma {:induction false} Squared(p: int, a: int, c: int, x: int)
    ensures var m, d := 1 + 4 * p * a, p * (2 * c + 1);
            m * (m * x + d) + d
              == (1 + 4 * (2 * p) * (a + 2 * p * a * a)) * x + 2 * p * (2 * (c + p * a * (2 * c + 1)) + 1)
  {
    var m, d, pa, e := 1 + 4 * p * a, p * (2 * c + 1), p * a, 2 * c + 1;
    assert m * (m * x + d) + d == (m * m) * x + (m + 1) * d;
    SquaredFactor(p, a);
    SquaredOffset(p, pa, e, c);
  }

  lemma {:induction false} SquaredFactor(p: int, a: int)
    ensures (1 + 4 * p * a) * (1 + 4 * p * a) == 1 + 4 * (2 * p) * (a + 2 * p * a * a)
  {
    var pa := p * a;
    assert 4 * (2 * p) * (a + 2 * p * a * a) == 8 * pa + 16 * (pa * pa);
  }

  lemma {:induction false} SquaredOffset(p: int, pa: int, e: int, c: int)
    requires e == 2 * c + 1
    ensures (2 + 4 * pa) * (p * e) == 2 * p * (2 * (c + pa * e) + 1)
  {
    assert pa * (p * e) == p * (pa * e);
  }

  /** 2^k steps move every value by an odd multiple of 2^k. */
  lemma {:induction false} HalfTurn(x: int, k: nat) returns (s: int)
    ensures Iter(x, Pow2(k)) == x + Pow2(k) * (1 + 2 * s)
  {
    var a, c := PowSteps(k);
    s := 2 * (a * x) + c;
    Turn(Pow2(k), a, c, x);
  }

  lemma {:induction false} Turn(p: int, a: int, c: int, x: int)
    ensures (1 + 4 * p * a) * x + p * (2 * c + 1) == x + p * (1 + 2 * (2 * (a * x) + c))
  {
    assert (4 * p * a) * x == 4 * (p * (a * x));
    assert p * (1 + 2 * (2 * (a * x) + c)) == p + 4 * (p * (a * x)) + 2 * (p * c);
  }

  /** Within the first 2^k iterates every residue modulo 2^k is met. */
  lemma {:induction false} IterReaches(k: nat, x: int, t: int) returns (n: nat, q: int)
    ensures n < Pow2(k) && Iter(x, n) == t + Pow2(k) * q
  {
    if k == 0 {
      n, q := 0, x - t;
    } else {
      var p := Pow2(k - 1);
      n, q := IterReaches(k - 1, x, t);
      var h, odd := Half(q);
      if !odd {
        Halve(p, h);
        q := h;
      } else {
        var s := HalfTurn(Iter(x, n), k - 1);
        IterAdd(x, n, p);
        Regroup(p, q, 1 + 2 * s, h + 1 + s);
        n, q := n + p, h + 1 + s;
      }
    }
  }

  lemma {:induction false} Half(q: int) returns (h: int, odd: bool)
    ensures q == 2 * h + if odd then 1 else 0
  {
    h, odd := q / 2, q % 2 == 1;
  }

  lemma {:induction false} Regroup(p: int, a: int, b: int, r: int)
    requires a + b == 2 * r
    ensures p * a + p * b == 2 * p * r
  {
    assert p * a + p * b == p * (a + b);
  }

  lemma {:induction false} Halve(p: int, r: int)
    ensures p * (2 * r) == 2 * p * r
  {
  }

  /** No value comes back modulo 2^k in fewer than 2^k steps. */
  lemma {:induction false} NoReturn(k: nat, x: int, d: nat, q: int)
    requires 0 < d < Pow2(k)
    ensures Iter(x, d) != x + Pow2(k) * q
  {
    if Iter(x, d) == x + Pow2(k) * q {
      var p := Pow2(k - 1);
      var s := HalfTurn(x, k - 1);
      Halve(p, q);
      if d < p {
        NoReturn(k - 1, x, d, 2 * q);
      } else if d == p {
        assert p * (1 + 2 * s) == p * (2 * q);
        NotHalf(p, s, q);
      } else {
        IterAdd(x, p, d - p);
        var r := 2 * q - (1 + 2 * s);
        assert p * r == p * (2 * q) - p * (1 + 2 * s);
        NoReturn(k - 1, Iter(x, p), d - p, r);
      }
    }
  }

  lemma {:induction false} NotHalf(p: nat, s: int, q: int)
    requires p > 0
    ensures p * (1 + 2 * s) != p * (2 * q)
  {
    var e := 1 + 2 * s - 2 * q;
    assert p * (1 + 2 * s) - p * (2 * q) == p * e;
    if e > 0 {
      assert p * e >= p;
    } else {
      assert p * (-e) >= p;
    }
  }

  ghost predicate IsPow2(cap: nat) {
    exists k: nat :: Pow2(k) == cap
  }

  /** Every slot is met within `cap` probes. */
  lemma {:induction false} WalkReaches(cap: nat, start: nat, t: nat) returns (n: nat)
    requires IsPow2(cap) && start < cap && t < cap
    ensures n < cap && Walk(cap, start, n) == t
  {
    var k: nat :| Pow2(k) == cap;
    var q, r;
    n, q := IterReaches(k, start, t);
    r := WalkIsIter(cap, start, n);
    assert cap * (q - r) == cap * q - cap * r;
    SameResidue(Walk(cap, start, n), t, cap, q - r);
  }

  /** No slot is met twice within `cap` probes. */
  lemma {:induction false} WalkDistinct(cap: nat, start: nat, i: nat, j: nat)
    requires IsPow2(cap) && start < cap && i < j < cap
    ensures Walk(cap, start, i) != Walk(cap, start, j)
  {
    if Walk(cap, start, i) == Walk(cap, start, j) {
      var k: nat :| Pow2(k) == cap;
      var q := WalkIsIter(cap, start, i);
      var r := WalkIsIter(cap, start, j);
      IterAdd(start, i, j - i);
      assert cap * (r - q) == cap * r - cap * q;
      NoReturn(k, Iter(start, i), j - i, r - q);
    }
  }

  /** Every start reaches every slot. */
  ghost predicate FullPeriod(cap: nat)
    requires cap > 0
  {
    forall start, t :: 0 <= start < cap && 0 <= t < cap ==> Reaches(cap, start, t)
  }

  ghost predicate Reaches(cap: nat, start: nat, t: nat)
    requires cap > 0
  {
    exists n: nat :: Walk(cap, start, n) == t
  }

  lemma {:induction false} OddPart(cap: nat) returns (k: nat, q: nat)
    requires cap > 0
    ensures cap == Pow2(k) * q && q % 2 == 1
  {
    if cap % 2 == 1 {
      k, q := 0, cap;
    } else {
      k, q := OddPart(cap / 2);
      assert cap == 2 * (Pow2(k) * q) == Pow2(k + 1) * q;
      k := k + 1;
    }
  }

  /** Modulo an odd number the probe has a fixed point, and whoever starts there stays. */
  lemma {:induction false} StaysOnFixedPoint(cap: nat, q: nat, m: nat, f: nat, g: int, n: nat) returns (e: int)
    requires cap > 0 && cap == m * q && 4 * f + 1 == q * g
    ensures Walk(cap, f, n) == f + q * e
  {
    if n == 0 {
      e := 0;
    } else {
      var e' := StaysOnFixedPoint(cap, q, m, f, g, n - 1);
      var d := Reduced(cap, Walk(cap, f, n - 1), 0);
      e := g + 5 * e' - m * d;
      FixedStep(q, m, f, g, e', d);
    }
  }

  lemma {:induction false} FixedStep(q: int, m: int, f: int, g: int, e: int, d: int)
    requires 4 * f + 1 == q * g
    ensures 5 * (f + q * e) + 1 - (m * q) * d == f + q * (g + 5 * e - m * d)
  {
    assert (m * q) * d == q * (m * d);
    assert q * (g + 5 * e - m * d) == q * g + 5 * (q * e) - q * (m * d);
  }

  /** A capacity with an odd factor has a start from which some slot is never met. */
  lemma {:induction false} MissesSlot(cap: nat, m: nat, q: nat) returns (f: nat, t: nat)
    requires cap == m * q && m > 0 && q > 1 && q % 2 == 1
    ensures f < cap && t < cap && !Reaches(cap, f, t)
  {
    var g;
    f, g := FixedPoint(q);
    t := 0;
    Multiple(m, q);
    forall n: nat ensures Walk(cap, f, n) != t {
      var e := StaysOnFixedPoint(cap, q, m, f, g, n);
      if Walk(cap, f, n) == t {
        SameResidue(t, f, q, e);
      }
    }
  }

  lemma {:induction false} FixedPoint(q: nat) returns (f: nat, g: int)
    requires q > 1 && q % 2 == 1
    ensures 0 < f < q && 4 * f + 1 == q * g
  {
    var r := q / 4;
    if q == 4 * r + 1 {
      f, g := r, 1;
    } else {
      assert q == 4 * r + 3;
      f, g := 3 * r + 2, 3;
    }
  }

  lemma {:induction false} Multiple(m: nat, q: nat)
    requires m > 0
    ensures q <= m * q
  {
  }

  /** The probe reaches every slot from every start exactly when the capacity is a power of two. */
  lemma {:induction false} FullPeriodExactly(cap: nat)
    requires cap > 0
    ensures FullPeriod(cap) <==> IsPow2(cap)
  {
    var k, q := OddPart(cap);
    assert q == 1 ==> Pow2(k) == cap;
    if IsPow2(cap) {
      forall start, t | 0 <= start < cap && 0 <= t < cap ensures Reaches(cap, start, t) {
        var n := WalkReaches(cap, start, t);
      }
    } else {
      var f, t := MissesSlot(cap, Pow2(k), q);
    }
  }
}
