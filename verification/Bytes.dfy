/** Bytes in memory and on the wire: the host keeps numbers least significant byte first, the
    formats want them most significant byte first. */
module Bytes {

  type byte = x: int | 0 <= x < 256

  function Pow256(k: nat): (p: nat)
    ensures p > 0
  {
    if k == 0 then 1 else 256 * Pow256(k - 1)
  }

  function Reversed<T>(s: seq<T>): (r: seq<T>)
    ensures |r| == |s|
  {
    if s == [] then [] else Reversed(s[1..]) + [s[0]]
  }

  lemma {:induction false} Assoc<T>(a: seq<T>, b: seq<T>, c: seq<T>)
    ensures a + b + c == a + (b + c)
  {
  }

  lemma {:induction false} CancelPrefix<T>(a: seq<T>, b: seq<T>, c: seq<T>)
    ensures a + b == a + c <==> b == c
  {
    assert (a + b)[|a|..] == b && (a + c)[|a|..] == c;
  }

  /** The `k` bytes a little-endian host stores for the unsigned number `n`. */
  function Memory(n: nat, k: nat): (bs: seq<byte>)
    ensures |bs| == k
  {
    if k == 0 then [] else [n % 256] + Memory(n / 256, k - 1)
  }

  /** The unsigned number a little-endian host reads in `bs`. */
  function Number(bs: seq<byte>): nat {
    if bs == [] then 0 else bs[0] + 256 * Number(bs[1..])
  }

  /** hton: the bytes of `n` in the order they are written. */
  function BigEndian(n: nat, k: nat): (bs: seq<byte>)
    ensures |bs| == k
  {
    Reversed(Memory(n, k))
  }

  /** ntoh: the number read from bytes in wire order. */
  function FromBigEndian(bs: seq<byte>): nat {
    Number(Reversed(bs))
  }

  function ToI32(n: nat): int {
    if n < 0x8000_0000 then n else n - 0x1_0000_0000
  }

  function FromI32(i: int): (n: nat)
    ensures n < 0x1_0000_0000 && (IsI32(i) ==> ToI32(n) == i)
  {
    i % 0x1_0000_0000
  }

  predicate IsI32(i: int) {
    -0x8000_0000 <= i < 0x8000_0000
  }

  /** swap_bytes, in place: two cursors closing in on the middle. */
  method SwapBytes(a: array<byte>)
    modifies a
    ensures a[..] == Reversed(old(a[..]))
  {
    ghost var was := a[..];
    var lo, hi := 0, a.Length - 1;
    while lo < a.Length / 2
      invariant 0 <= lo <= a.Length / 2 && hi == a.Length - 1 - lo
      invariant forall k :: 0 <= k < lo ==> a[k] == was[|was| - 1 - k] && a[|was| - 1 - k] == was[k]
      invariant forall k :: lo <= k <= hi ==> a[k] == was[k]
    {
      var tmp := a[lo];
      a[lo] := a[hi];
      a[hi] := tmp;
      lo, hi := lo + 1, hi - 1;
    }
    forall k | 0 <= k < a.Length ensures a[..][k] == Reversed(was)[k] {
      ReversedAt(was, k);
    }
  }

  /** hton on a host variable of `k` bytes. */
  method HostToNet(n: nat, k: nat) returns (bs: seq<byte>)
    ensures bs == BigEndian(n, k)
  {
    var memory := Memory(n, k);
    var a := new byte[k](i requires 0 <= i < k => memory[i]);
    assert a[..] == memory;
    SwapBytes(a);
    bs := a[..];
  }

  /** ntoh on bytes read into a host variable. */
  method NetToHost(bs: seq<byte>) returns (n: nat)
    ensures n == FromBigEndian(bs)
  {
    var a := new byte[|bs|](i requires 0 <= i < |bs| => bs[i]);
    assert a[..] == bs;
    SwapBytes(a);
    n := Number(a[..]);
  }

  lemma {:induction false} ReversedAt<T>(s: seq<T>, k: nat)
    requires k < |s|
    ensures Reversed(s)[k] == s[|s| - 1 - k]
  {
    if k < |s| - 1 {
      ReversedAt(s[1..], k);
    }
  }

  lemma {:induction false} ReversedTwice<T>(s: seq<T>)
    ensures Reversed(Reversed(s)) == s
  {
    forall k | 0 <= k < |s| ensures Reversed(Reversed(s))[k] == s[k] {
      ReversedAt(Reversed(s), k);
      ReversedAt(s, |s| - 1 - k);
    }
  }

  lemma {:induction false} NumberOfMemory(n: nat, k: nat)
    requires n < Pow256(k)
    ensures Number(Memory(n, k)) == n
  {
    if k > 0 {
      NumberOfMemory(n / 256, k - 1);
      assert Memory(n, k)[1..] == Memory(n / 256, k - 1);
    }
  }

  lemma {:induction false} MemoryOfNumber(bs: seq<byte>)
    ensures Number(bs) < Pow256(|bs|)
    ensures Memory(Number(bs), |bs|) == bs
  {
    if bs != [] {
      MemoryOfNumber(bs[1..]);
      assert Number(bs) / 256 == Number(bs[1..]) && Number(bs) % 256 == bs[0];
    }
  }

  /** A number survives the trip through wire order. */
  lemma WireRoundTrip(n: nat, k: nat)
    requires n < Pow256(k)
    ensures FromBigEndian(BigEndian(n, k)) == n
  {
    ReversedTwice(Memory(n, k));
    NumberOfMemory(n, k);
  }

  /** Wire bytes survive the trip through a host number. */
  lemma WireOnto(bs: seq<byte>)
    ensures FromBigEndian(bs) < Pow256(|bs|)
    ensures BigEndian(FromBigEndian(bs), |bs|) == bs
  {
    MemoryOfNumber(Reversed(bs));
    ReversedTwice(bs);
  }

  lemma Widths()
    ensures Pow256(1) == 0x100 && Pow256(2) == 0x1_0000
    ensures Pow256(4) == 0x1_0000_0000 && Pow256(8) == 0x1_0000_0000_0000_0000
  {
    assert Pow256(3) == 0x100_0000;
    assert Pow256(4) == 256 * Pow256(3);
    assert Pow256(5) == 256 * Pow256(4);
    assert Pow256(6) == 256 * Pow256(5);
    assert Pow256(7) == 256 * Pow256(6);
  }
}
