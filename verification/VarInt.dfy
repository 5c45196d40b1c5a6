/** VarInts: seven bits a byte, the lowest first, the high bit set on all bytes but the last. */
module VarInt {
  import opened Bytes
  import opened ByteBuffer

  /** The bytes handed over for `n` when `room` bytes of the scratch array are left and `behind` is the
      byte behind that array: an encoding that has no end in the array is taken one byte too long. */
  function Encoded(n: int, behind: byte, room: nat): (bs: seq<byte>)
    ensures 1 <= |bs| <= room + 1
    decreases room
  {
    if room == 0 then [behind]
    else if 0 <= n < 128 then [n]
    else [n % 128 + 128] + Encoded(n / 128, behind, room - 1)
  }

  const ROOM := 4

  function Spell(n: int, behind: byte): (bs: seq<byte>)
    ensures 1 <= |bs| <= ROOM + 1
  {
    Encoded(n, behind, ROOM)
  }

  predicate Encodable(n: int) {
    0 <= n < 0x1000_0000
  }

  function Pow128(k: nat): (p: nat)
    ensures p > 0
  {
    if k == 0 then 1 else 128 * Pow128(k - 1)
  }

  lemma Powers()
    ensures Pow128(1) == 0x80 && Pow128(2) == 0x4000 && Pow128(3) == 0x20_0000
    ensures Pow128(4) == 0x1000_0000 && Pow128(5) == 0x8_0000_0000
  {
    assert Pow128(2) == 128 * Pow128(1);
    assert Pow128(3) == 128 * Pow128(2);
    assert Pow128(4) == 128 * Pow128(3);
  }

  /** The number spelled by seven-bit groups. */
  function Value(bs: seq<byte>): nat {
    if bs == [] then 0 else bs[0] % 128 + 128 * Value(bs[1..])
  }

  /** All bytes but the last say that another one follows; the last does not. */
  predicate Ends(bs: seq<byte>) {
    bs != [] && bs[|bs| - 1] < 128 && forall i :: 0 <= i < |bs| - 1 ==> bs[i] >= 128
  }

  /** encode_varint, into an array of four bytes and the byte behind it. */
  method Encode(n: int, buf: array<byte>) returns (size: nat)
    requires buf.Length == ROOM + 1
    modifies buf
    ensures buf[ROOM] == old(buf[ROOM]) && 1 <= size <= ROOM + 1
    ensures buf[..size] == Spell(n, old(buf[ROOM]))
  {
    hide Encoded;
    ghost var behind := buf[ROOM];
    var i, m := 0, n;
    while i < ROOM
      invariant 0 <= i <= ROOM && buf[ROOM] == behind
      invariant Spell(n, behind) == buf[..i] + Encoded(m, behind, ROOM - i)
    {
      ghost var before := buf[..i];
      EncodedStep(m, behind, ROOM - i);
      buf[i] := m % 128;
      if !(0 <= m < 128) {
        buf[i] := buf[i] + 128;
      } else {
        break;
      }
      Assoc(before, [buf[i]], Encoded(m / 128, behind, ROOM - i - 1));
      assert buf[..i + 1] == before + [buf[i]];
      i := i + 1;
      m := m / 128;
    }
    size := i + 1;
    EncodedStep(m, behind, 0);
    assert buf[..size] == buf[..i] + [buf[i]];
  }

  lemma {:induction false} EncodedStep(n: int, behind: byte, room: nat)
    ensures Encoded(n, behind, room)
            == if room == 0 then [behind]
               else if 0 <= n < 128 then [n]
               else [n % 128 + 128] + Encoded(n / 128, behind, room - 1)
  {
  }

  /** The encoder stays inside its array exactly for the numbers of four groups; then the encoding is
      the shortest one and does not depend on what lies behind. */
  lemma {:induction false} EncodedMinimal(n: int, behind: byte, room: nat)
    requires room > 0 || n != 0
    ensures 0 <= n < Pow128(room) <==> |Encoded(n, behind, room)| <= room
    ensures 0 <= n < Pow128(room) ==> Shortest(Encoded(n, behind, room), n)
    decreases room
  {
    if room == 0 {
    } else if 0 <= n < 128 {
      PowerGrows(room);
      ValueOfOne(n);
    } else {
      hide Shortest, Pow128;
      EncodedMinimal(n / 128, behind, room - 1);
      PowerStep(n, room);
      if 0 <= n < Pow128(room) {
        OneGroupMore(Encoded(n / 128, behind, room - 1), n);
      }
    }
  }

  /** An encoding of `n` from which no byte can be left out. */
  predicate Shortest(bs: seq<byte>, n: nat) {
    Ends(bs) && Value(bs) == n < Pow128(|bs|) && (|bs| > 1 ==> Pow128(|bs| - 1) <= n)
  }

  lemma {:induction false} OneGroupMore(rest: seq<byte>, n: nat)
    requires n >= 128 && Shortest(rest, n / 128)
    ensures Shortest([n % 128 + 128] + rest, n)
  {
    hide Value, Ends, Pow128;
    EndsSome(rest);
    EndsWithFirst([n % 128 + 128] + rest);
    assert ([n % 128 + 128] + rest)[1..] == rest;
    ValueStep(n % 128 + 128, rest);
    PowerStep(n, |rest| + 1);
    PowerStep(n, |rest|);
    PowerOne();
  }

  lemma {:induction false} EndsSome(bs: seq<byte>)
    requires Ends(bs)
    ensures |bs| > 0
  {
  }

  lemma PowerOne()
    ensures Pow128(0) == 1 && Pow128(1) == 128
  {
    assert Pow128(1) == 128 * Pow128(0);
  }

  lemma {:induction false} PowerStep(n: int, k: nat)
    requires k > 0
    ensures Pow128(k) == 128 * Pow128(k - 1)
    ensures 0 <= n < Pow128(k) <==> 0 <= n / 128 < Pow128(k - 1)
    ensures Pow128(k) <= n <==> Pow128(k - 1) <= n / 128
  {
    var p := Pow128(k - 1);
    assert Pow128(k) == 128 * p;
  }

  lemma {:induction false} PowerGrows(k: nat)
    requires k > 0
    ensures Pow128(k) >= 128 == Pow128(1)
  {
    PowerOne();
    assert Pow128(k) == 128 * Pow128(k - 1);
  }

  lemma {:induction false} ValueOfOne(b: byte)
    ensures Value([b]) == b % 128
  {
    assert [b][1..] == [];
  }

  lemma {:induction false} ValueStep(b: byte, rest: seq<byte>)
    ensures Value([b] + rest) == b % 128 + 128 * Value(rest)
  {
    assert ([b] + rest)[1..] == rest;
  }

  lemma {:induction false} EndsWithFirst(bs: seq<byte>)
    requires |bs| > 1
    ensures Ends(bs) <==> bs[0] >= 128 && Ends(bs[1..])
  {
    if bs[0] >= 128 && Ends(bs[1..]) {
      forall i | 0 <= i < |bs| - 1 ensures bs[i] >= 128 {
        assert i > 0 ==> bs[i] == bs[1..][i - 1];
      }
    }
    if Ends(bs) {
      forall i | 0 <= i < |bs[1..]| - 1 ensures bs[1..][i] >= 128 {
        assert bs[1..][i] == bs[i + 1];
      }
    }
  }

  /** The encoding of a number below 2^28 has k bytes with 128^(k-1) <= n < 128^k, at most four, whatever
      lies behind the array; any other number takes in the byte behind. */
  lemma Minimal(n: int, behind: byte)
    ensures Encodable(n) <==> |Spell(n, behind)| <= ROOM
    ensures Encodable(n) ==> Shortest(Spell(n, behind), n)
  {
    Powers();
    EncodedMinimal(n, behind, ROOM);
  }

  /** For such a number the byte behind the array does not matter. */
  lemma {:induction false} SpellSame(n: int, a: byte, b: byte)
    requires Encodable(n)
    ensures Spell(n, a) == Spell(n, b)
  {
    Powers();
    EncodedSame(n, a, b, ROOM);
  }

  lemma {:induction false} EncodedSame(n: int, a: byte, b: byte, room: nat)
    requires room > 0 && 0 <= n < Pow128(room)
    ensures Encoded(n, a, room) == Encoded(n, b, room)
    decreases room
  {
    if n >= 128 {
      assert Pow128(room) == 128 * Pow128(room - 1);
      assert Pow128(0) == 1;
      EncodedSame(n / 128, a, b, room - 1);
    }
  }

  /** What bytebuf_read_varint makes of the content of a ring: too few bytes (0 is returned), no end within
      five bytes (-1), a byte fetched behind the array, or a number. */
  datatype Reading = Short | Endless | Outside | Read(n: int, used: nat)

  function Scan(content: seq<byte>, read: nat, cap: nat, i: nat): (r: Reading)
    requires i < 5
    ensures r.Read? ==> i < r.used <= |content|
    decreases 5 - i
  {
    match PeekByte(content, read, cap, i)
    case NoByte => Short
    case Overrun => Outside
    case Byte(b) =>
      if b < 128 then Read(ToI32(Value(content[..i + 1]) % 0x1_0000_0000), i + 1)
      else if i == 4 then Endless
      else Scan(content, read, cap, i + 1)
  }

  /** bytebuf_read_varint. The buffer changes only when a number is read. */
  method ReadVarint(b: Buffer) returns (r: Reading)
    requires b.Valid()
    modifies b
    ensures b.Valid() && r == Scan(old(b.Content()), old(b.readHead), b.buf.Length, 0)
    ensures b.Cursors() == if r.Read? then AfterRead(old(b.Cursors()), b.buf.Length, r.used) else old(b.Cursors())
    ensures r.Read? ==> b.readHead == Wrap(b.buf.Length, old(b.readHead) + r.used)
    ensures b.Content() == if r.Read? then old(b.Content())[r.used..] else old(b.Content())
  {
    hide Ring, Value, HeadsFit;
    ghost var content, head, cap := b.Content(), b.readHead, b.buf.Length;
    var res, shift, i, done := 0, 1, 0, false;
    ValueNothing(content[..0]);
    while !done
      invariant 0 <= i <= 5 && (!done ==> i < 5)
      invariant b.Valid() && b.Cursors() == old(b.Cursors()) && b.Content() == content && i <= |content|
      invariant shift == Pow128(i) && res == Value(content[..i]) % 0x1_0000_0000
      invariant Scan(content, head, cap, 0)
                == if done then Read(ToI32(res), i) else Scan(content, head, cap, i)
      decreases 5 - i, !done
    {
      var peeked := b.PeekAt(i);
      if peeked.NoByte? {
        return Short;
      } else if peeked.Overrun? {
        return Outside;
      }
      ValueOneMore(content, i);
      AddMod(Value(content[..i]), peeked.b % 128 * shift);
      res := (res + peeked.b % 128 * shift) % 0x1_0000_0000;
      i := i + 1;
      shift := shift * 128;
      if peeked.b < 128 {
        done := true;
      } else if 7 * i >= 32 {
        return Endless;
      }
    }
    r := Read(ToI32(res), i);
    var _ := b.RegisterRead(i);
  }

  lemma {:induction false} ValueNothing(bs: seq<byte>)
    ensures bs == [] ==> Value(bs) == 0
  {
  }

  lemma {:induction false} AddMod(a: nat, b: nat)
    ensures (a % 0x1_0000_0000 + b) % 0x1_0000_0000 == (a + b) % 0x1_0000_0000
  {
  }

  lemma {:induction false} ValueOneMore(bs: seq<byte>, i: nat)
    requires i < |bs|
    ensures Value(bs[..i + 1]) == Value(bs[..i]) + bs[i] % 128 * Pow128(i)
    decreases i
  {
    if i > 0 {
      ValueOneMore(bs[1..], i - 1);
      assert bs[..i + 1][1..] == bs[1..][..i] && bs[..i][1..] == bs[1..][..i - 1];
      Distribute(bs[i] % 128, Pow128(i - 1));
    } else {
      assert bs[..1][1..] == [];
    }
  }

  lemma {:induction false} Distribute(a: nat, p: nat)
    ensures 128 * (a * p) == a * (128 * p)
  {
  }

  /** Bytes that end are read as their number, unless the ring ends inside them. */
  lemma {:induction false} ScansEnds(bs: seq<byte>, rest: seq<byte>, read: nat, cap: nat, i: nat)
    requires Ends(bs) && i < |bs| <= 5 && read < cap && read + i <= cap
    ensures Scan(bs + rest, read, cap, i)
            == if read + |bs| <= cap then Read(ToI32(Value(bs) % 0x1_0000_0000), |bs|) else Outside
    decreases |bs| - i
  {
    assert (bs + rest)[i] == bs[i];
    if i == |bs| - 1 {
      assert (bs + rest)[..i + 1] == bs;
    } else if read + i < cap {
      ScansEnds(bs, rest, read, cap, i + 1);
    }
  }

  /** A number below 2^28 comes back, and uses up just its own bytes, exactly when they do not run past the
      end of the array. */
  lemma RoundTrip(n: int, behind: byte, rest: seq<byte>, read: nat, cap: nat)
    requires Encodable(n) && read < cap
    ensures Scan(Spell(n, behind) + rest, read, cap, 0)
            == if read + |Spell(n, behind)| <= cap then Read(n, |Spell(n, behind)|) else Outside
  {
    hide Spell, Value, Scan, Pow128;
    Minimal(n, behind);
    ScansEnds(Spell(n, behind), rest, read, cap, 0);
  }

  /** Any other number comes back only when the byte behind the array happens to hold its top bits. */
  lemma RoundTripOther(n: int, behind: byte, rest: seq<byte>, read: nat, cap: nat)
    requires IsI32(n) && !Encodable(n) && read + ROOM + 1 <= cap
    ensures Scan(Spell(n, behind) + rest, read, cap, 0) == Read(n, ROOM + 1)
            <==> behind < 128 && behind % 16 == (n / 0x1000_0000) % 16
  {
    hide Spell, Value;
    var bs := Spell(n, behind);
    FifthByte(n, behind);
    if behind < 128 {
      ScansEnds(bs, rest, read, cap, 0);
      TopBits(n, behind);
    } else {
      ScansOn(bs, rest, read, cap, 0);
    }
  }

  lemma {:induction false} ScansOn(bs: seq<byte>, rest: seq<byte>, read: nat, cap: nat, i: nat)
    requires |bs| == 5 && (forall k :: 0 <= k < 5 ==> bs[k] >= 128)
    requires i < 5 && read + 5 <= cap
    ensures Scan(bs + rest, read, cap, i) == Endless
    decreases 5 - i
  {
    assert (bs + rest)[i] == bs[i];
    if i < 4 {
      ScansOn(bs, rest, read, cap, i + 1);
    }
  }

  lemma {:induction false} FifthByte(n: int, behind: byte)
    requires IsI32(n) && !Encodable(n)
    ensures var bs := Spell(n, behind);
            |bs| == 5 && bs[4] == behind && (forall i :: 0 <= i < 4 ==> bs[i] >= 128)
            && Value(bs) == n % 0x1000_0000 + 0x1000_0000 * (behind % 128)
  {
    hide Value, Spell, Encoded;
    var n1, n2, n3 := n / 128, n / 128 / 128, n / 128 / 128 / 128;
    NoneLast(n, behind);
    FiveGroups(Spell(n, behind));
    FourGroups(n, n % 128, n1 % 128, n2 % 128, n3 % 128, n3 / 128);
    Group(n % 128);
    Group(n1 % 128);
    Group(n2 % 128);
    Group(n3 % 128);
  }

  lemma {:induction false} Group(d: nat)
    requires d < 128
    ensures (d + 128) % 128 == d
  {
  }

  lemma {:induction false} NoneLast(n: int, behind: byte)
    requires IsI32(n) && !Encodable(n)
    ensures Spell(n, behind) == [n % 128 + 128, n / 128 % 128 + 128, n / 128 / 128 % 128 + 128,
                                  n / 128 / 128 / 128 % 128 + 128, behind]
  {
    var n1, n2, n3 := n / 128, n / 128 / 128, n / 128 / 128 / 128;
    assert !(0 <= n < 128) && !(0 <= n1 < 128) && !(0 <= n2 < 128) && !(0 <= n3 < 128);
    assert Encoded(n3, behind, 1) == [n3 % 128 + 128, behind];
    assert Encoded(n2, behind, 2) == [n2 % 128 + 128, n3 % 128 + 128, behind];
    assert Encoded(n1, behind, 3) == [n1 % 128 + 128, n2 % 128 + 128, n3 % 128 + 128, behind];
  }

  lemma {:induction false} FiveGroups(bs: seq<byte>)
    requires |bs| == 5
    ensures Value(bs) == (bs[0] as int) % 128 + 128 * ((bs[1] as int) % 128) + 0x4000 * ((bs[2] as int) % 128)
                         + 0x20_0000 * ((bs[3] as int) % 128) + 0x1000_0000 * ((bs[4] as int) % 128)
  {
    hide Value;
    ValueFrom(bs, 0);
    ValueFrom(bs, 1);
    ValueFrom(bs, 2);
    ValueFrom(bs, 3);
    ValueFrom(bs, 4);
    ValueNothing(bs[5..]);
    assert bs[0..] == bs;
  }

  lemma {:induction false} ValueFrom(bs: seq<byte>, k: nat)
    requires k < |bs|
    ensures Value(bs[k..]) == bs[k] % 128 + 128 * Value(bs[k + 1..])
  {
    assert bs[k..][1..] == bs[k + 1..];
  }

  lemma {:induction false} FourGroups(n: int, d0: nat, d1: nat, d2: nat, d3: nat, q: int)
    requires d0 < 128 && d1 < 128 && d2 < 128 && d3 < 128
    requires n == d0 + 128 * (d1 + 128 * (d2 + 128 * (d3 + 128 * q)))
    ensures n % 0x1000_0000 == d0 + 128 * d1 + 0x4000 * d2 + 0x20_0000 * d3
  {
    assert n == d0 + 128 * d1 + 0x4000 * d2 + 0x20_0000 * d3 + 0x1000_0000 * q;
  }

  lemma {:induction false} TopBits(n: int, g: nat)
    requires IsI32(n) && g < 128
    ensures ToI32((n % 0x1000_0000 + 0x1000_0000 * g) % 0x1_0000_0000) == n
            <==> g % 16 == (n / 0x1000_0000) % 16
  {
    var low, hi, r, a := n % 0x1000_0000, n / 0x1000_0000, g % 16, g / 16;
    assert n == low + 0x1000_0000 * hi && -8 <= hi < 8;
    assert low + 0x1000_0000 * g == low + 0x1000_0000 * r + 0x1_0000_0000 * a;
    Whole(low + 0x1000_0000 * r, a);
    assert hi % 16 == if hi < 0 then hi + 16 else hi;
  }

  lemma {:induction false} Whole(n: nat, a: nat)
    requires n < 0x1_0000_0000
    ensures (n + 0x1_0000_0000 * a) % 0x1_0000_0000 == n
  {
  }

  /** A truncated encoding reads as too short. */
  lemma {:induction false} Truncated(n: int, behind: byte, k: nat, read: nat, cap: nat)
    requires Encodable(n) && k < |Spell(n, behind)| && read + k <= cap
    ensures Scan(Spell(n, behind)[..k], read, cap, 0) == Short
  {
    Minimal(n, behind);
    ScansPart(Spell(n, behind), k, read, cap, 0);
  }

  lemma {:induction false} ScansPart(bs: seq<byte>, k: nat, read: nat, cap: nat, i: nat)
    requires Ends(bs) && i <= k < |bs| <= 5 && read + k <= cap
    ensures Scan(bs[..k], read, cap, i) == Short
    decreases k - i
  {
    if i < k {
      assert bs[..k][i] == bs[i];
      ScansPart(bs, k, read, cap, i + 1);
    }
  }

  /** More bytes behind do not change what is read, except where there were too few. */
  lemma {:induction false} ScanMore(content: seq<byte>, more: seq<byte>, read: nat, cap: nat, i: nat)
    requires i < 5
    ensures Scan(content, read, cap, i) != Short ==>
              Scan(content + more, read, cap, i) == Scan(content, read, cap, i)
    decreases 5 - i
  {
    if i < |content| {
      assert (content + more)[i] == content[i] && (content + more)[..i + 1] == content[..i + 1];
      if content[i] >= 128 && i < 4 && read + i < cap {
        ScanMore(content, more, read, cap, i + 1);
      }
    }
  }

  function EncodeAll(ns: seq<int>): seq<byte> {
    if ns == [] then [] else Spell(ns[0], 0) + EncodeAll(ns[1..])
  }

  /** Numbers read one after the other as long as they come. */
  function ReadAll(content: seq<byte>): seq<int> {
    match Scan(content, 0, |content|, 0)
    case Read(n, used) => [n] + ReadAll(content[used..])
    case _ => []
  }

  /** A prefix code: encodings need no separators. */
  lemma {:induction false} ReadsAll(ns: seq<int>)
    requires forall n :: n in ns ==> Encodable(n)
    ensures ReadAll(EncodeAll(ns)) == ns
  {
    if ns != [] {
      var head, rest := Spell(ns[0], 0), EncodeAll(ns[1..]);
      RoundTrip(ns[0], 0, rest, 0, |head + rest|);
      assert (head + rest)[|head|..] == rest;
      ReadsAll(ns[1..]);
    }
  }

  /** bytebuf_write_varint, through a scratch array with `behind` behind it. */
  method WriteVarint(b: Buffer, n: int, behind: byte) returns (ok: bool)
    requires b.Valid()
    modifies b, b.buf
    ensures b.Valid() && ok == old(b.Fits(|Spell(n, behind)|))
    ensures ok ==> b.Cursors() == AfterWrite(old(b.Cursors()), b.buf.Length, |Spell(n, behind)|)
    ensures ok ==> b.Content() == old(b.Content()) + AsStored(Spell(n, behind), b.buf.Length - old(b.writeHead))
    ensures !ok ==> b.Cursors() == old(b.Cursors()) && b.Content() == old(b.Content())
  {
    hide Spell, AsStored, Ring;
    var scratch := new byte[ROOM + 1](_ => behind);
    var size := Encode(n, scratch);
    ok := b.Write(scratch[..size]);
  }

  /** bytebuf_prepend_varint. */
  method PrependVarint(b: Buffer, n: int, behind: byte) returns (ok: bool)
    requires b.Valid()
    modifies b, b.buf
    ensures b.Valid() && ok == old(b.Fits(|Spell(n, behind)|))
    ensures ok ==> b.Cursors() == AfterPrepend(old(b.Cursors()), b.buf.Length, |Spell(n, behind)|)
    ensures ok ==> b.Content() == AsStored(Spell(n, behind), b.buf.Length - b.readHead) + old(b.Content())
    ensures !ok ==> b.Cursors() == old(b.Cursors()) && b.Content() == old(b.Content())
  {
    hide Spell, AsStored, Ring;
    var scratch := new byte[ROOM + 1](_ => behind);
    var size := Encode(n, scratch);
    ok := b.Prepend(scratch[..size]);
  }
}
