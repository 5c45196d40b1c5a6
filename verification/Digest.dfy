/** The signed hexadecimal digest of the login handshake. */
module Digest {
  import opened Bytes

  /** The two's-complement big-endian number in `bs`. */
  function Signed(bs: seq<byte>): int
    requires bs != []
  {
    if bs[0] < 128 then FromBigEndian(bs) else FromBigEndian(bs) - Pow256(|bs|)
  }

  predicate IsHex(c: char) {
    '0' <= c <= '9' || 'a' <= c <= 'f'
  }

  /** One digit of printf's %02hhx. */
  function HexDigit(n: nat): (c: char)
    requires n < 16
    ensures IsHex(c) && HexValue(c) == n
  {
    if n < 10 then '0' + n as char else 'a' + (n - 10) as char
  }

  /** The sixteen digits. */
  lemma {:induction false} HexDigits(n: nat, c: char)
    requires n < 16
    ensures HexDigit(n) == "0123456789abcdef"[n]
    ensures IsHex(c) <==> c in "0123456789abcdef"
  {
    var digits := "0123456789abcdef";
    if IsHex(c) {
      assert digits[HexValue(c)] == c;
    }
  }

  function HexValue(c: char): (n: nat)
    requires IsHex(c)
    ensures n < 16
  {
    if c <= '9' then c as int - '0' as int else c as int - 'a' as int + 10
  }

  predicate AllHex(s: string) {
    forall i :: 0 <= i < |s| ==> IsHex(s[i])
  }

  /** The number spelled by hexadecimal digits. */
  function HexNumber(s: string): nat
    requires AllHex(s)
  {
    if s == [] then 0 else 16 * HexNumber(s[..|s| - 1]) + HexValue(s[|s| - 1])
  }

  lemma {:induction false} NumberEnd(bs: seq<byte>, b: byte)
    ensures Number(bs + [b]) == Number(bs) + b * Pow256(|bs|)
  {
    if bs != [] {
      NumberEnd(bs[1..], b);
      assert (bs + [b])[1..] == bs[1..] + [b];
      Times256(b, Pow256(|bs| - 1));
    } else {
      assert ([] + [b])[1..] == [];
    }
  }

  lemma {:induction false} Times256(b: nat, p: nat)
    ensures 256 * (b * p) == b * (256 * p)
  {
  }

  lemma {:induction false} FirstByte(bs: seq<byte>)
    requires bs != []
    ensures FromBigEndian(bs) == FromBigEndian(bs[1..]) + bs[0] * Pow256(|bs| - 1)
  {
    NumberEnd(Reversed(bs[1..]), bs[0]);
  }

  lemma {:induction false} LastByte(bs: seq<byte>, b: byte)
    ensures FromBigEndian(bs + [b]) == 256 * FromBigEndian(bs) + b
  {
    ReversedEnd(bs, b);
    assert ([b] + Reversed(bs))[1..] == Reversed(bs);
  }

  lemma {:induction false} ReversedEnd(bs: seq<byte>, b: byte)
    ensures Reversed(bs + [b]) == [b] + Reversed(bs)
  {
    if bs != [] {
      ReversedEnd(bs[1..], b);
      assert (bs + [b])[1..] == bs[1..] + [b];
    } else {
      assert ([] + [b])[1..] == [];
    }
  }

  /** One step of the carry loop. */
  lemma {:induction false} CarryStep(w: nat, carry: nat, h: nat, carry': nat, p: nat, low: nat, was: nat)
    requires w < 256 && h + 256 * carry' == 255 - w + carry
    requires low + carry * p == p - was
    ensures low + h * p + carry' * (256 * p) == 256 * p - (was + w * p)
  {
    assert h * p + carry' * (256 * p) == (h + 256 * carry') * p;
    assert (255 - w + carry) * p == 255 * p - w * p + carry * p;
  }

  /** The carry loop: the bytes are complemented and one is added, from the last byte on. */
  method Negate(hash: array<byte>)
    modifies hash
    ensures var was, p := FromBigEndian(old(hash[..])), Pow256(hash.Length);
            FromBigEndian(hash[..]) == if was == 0 then 0 else p - was
  {
    hide FromBigEndian, Pow256;
    ghost var was := hash[..];
    var carry, i := 1, hash.Length;
    Empty(was[hash.Length..]);
    while i > 0
      invariant 0 <= i <= hash.Length && 0 <= carry <= 1
      invariant hash[..i] == was[..i]
      invariant FromBigEndian(hash[i..]) + carry * Pow256(hash.Length - i)
                == Pow256(hash.Length - i) - FromBigEndian(was[i..])
    {
      ghost var low, p, carry0 := FromBigEndian(hash[i..]), Pow256(hash.Length - i), carry;
      i := i - 1;
      ghost var tail := hash[i + 1..];
      var tmp := 255 - hash[i] as int + carry;
      hash[i] := tmp % 256;
      carry := tmp / 256;
      assert hash[i..][1..] == tail && was[i..][1..] == was[i + 1..];
      FirstByte(hash[i..]);
      FirstByte(was[i..]);
      Power(hash.Length - i);
      CarryStep(was[i], carry0, hash[i], carry, p, low, FromBigEndian(was[i + 1..]));
    }
    assert hash[0..] == hash[..] && was[0..] == was;
    InRange(hash[..]);
    InRange(was);
  }

  lemma {:induction false} Empty(bs: seq<byte>)
    requires bs == []
    ensures FromBigEndian(bs) == 0 && Pow256(0) == 1
  {
  }

  lemma {:induction false} Power(k: nat)
    requires k > 0
    ensures Pow256(k) == 256 * Pow256(k - 1)
  {
  }

  lemma InRange(bs: seq<byte>)
    ensures FromBigEndian(bs) < Pow256(|bs|)
  {
    MemoryOfNumber(Reversed(bs));
  }

  /** hash_to_string: a minus sign when the first bit is set, then two lower-case digits a byte for the
      magnitude of the two's-complement number. */
  method HashToString(hash: array<byte>) returns (text: string)
    requires hash.Length > 0
    modifies hash
    ensures var n, sign := Signed(old(hash[..])), if Signed(old(hash[..])) < 0 then "-" else "";
            sign <= text && |text| == |sign| + 2 * hash.Length && AllHex(text[|sign|..])
            && HexNumber(text[|sign|..]) == if n < 0 then -n else n
  {
    hide FromBigEndian, Pow256;
    ghost var was := hash[..];
    SignBit(was);
    var negative := hash[0] >= 128;
    text := "";
    if negative {
      Negate(hash);
      text := "-";
    }
    assert FromBigEndian(hash[..]) == if negative then -Signed(was) else Signed(was);
    var digits := Hex(hash);
    assert (text + digits)[|text|..] == digits;
    text := text + digits;
  }

  /** The hex loop. */
  method Hex(hash: array<byte>) returns (digits: string)
    ensures AllHex(digits) && |digits| == 2 * hash.Length && HexNumber(digits) == FromBigEndian(hash[..])
  {
    hide FromBigEndian;
    digits := "";
    Empty([]);
    for i := 0 to hash.Length
      invariant AllHex(digits) && |digits| == 2 * i
      invariant HexNumber(digits) == FromBigEndian(hash[..i])
    {
      var hi, lo := HexDigit(hash[i] as int / 16), HexDigit(hash[i] as int % 16);
      TwoDigits(digits, hi, lo);
      LastByte(hash[..i], hash[i]);
      assert hash[..i + 1] == hash[..i] + [hash[i]];
      digits := digits + [hi, lo];
    }
    assert hash[..hash.Length] == hash[..];
  }

  lemma {:induction false} TwoDigits(s: string, hi: char, lo: char)
    requires AllHex(s) && IsHex(hi) && IsHex(lo)
    ensures AllHex(s + [hi, lo])
    ensures HexNumber(s + [hi, lo]) == 256 * HexNumber(s) + 16 * HexValue(hi) + HexValue(lo)
  {
    var all := s + [hi, lo];
    assert all[..|all| - 1] == s + [hi] && (s + [hi])[..|s|] == s;
  }

  /** The first bit is the sign. */
  lemma {:induction false} SignBit(bs: seq<byte>)
    requires bs != []
    ensures Signed(bs) < 0 <==> bs[0] >= 128
    ensures bs[0] >= 128 ==> FromBigEndian(bs) > 0
  {
    hide FromBigEndian, Pow256;
    InRange(bs);
    FirstByte(bs);
    if bs[0] >= 128 {
      Positive(bs[0], Pow256(|bs| - 1));
    }
  }

  lemma {:induction false} Positive(b: nat, p: nat)
    requires b > 0 && p > 0
    ensures b * p > 0
  {
  }

  /** The length and the value leave no choice: the text is determined by the number. */
  lemma {:induction false} HexUnique(a: string, b: string)
    requires AllHex(a) && AllHex(b) && |a| == |b| && HexNumber(a) == HexNumber(b)
    ensures a == b
  {
    if a != [] {
      var n := |a| - 1;
      HexUnique(a[..n], b[..n]);
      HexSame(a[n], b[n]);
      assert a == a[..n] + [a[n]] && b == b[..n] + [b[n]];
    }
  }

  lemma {:induction false} HexSame(a: char, b: char)
    requires IsHex(a) && IsHex(b) && HexValue(a) == HexValue(b)
    ensures a == b
  {
  }
}
