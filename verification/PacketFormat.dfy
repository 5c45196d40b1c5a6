/** What the receiver makes of the bytes of a packet, whoever has spelled them: which numbers it reads, when it waits,
    and what it refuses. */
module PacketFormat {
  import opened Bytes
  import opened ByteBuffer
  import opened VarInt
  import opened Framing

  /** A number in one to five bytes: each byte but the last is 128 or more. */
  predicate IsNumber(bs: seq<byte>) {
    1 <= |bs| <= 5 && bs[|bs| - 1] < 128 && forall i :: 0 <= i < |bs| - 1 ==> bs[i] >= 128
  }

  /** The number, as 32 bits with a sign. */
  function Meant(bs: seq<byte>): int {
    var n := Value(bs) % 4294967296;
    if n < 2147483648 then n else n - 4294967296
  }

  /** A number is read when it is there. */
  lemma {:induction false} ScansNumber(bs: seq<byte>, rest: seq<byte>, read: nat, cap: nat)
    requires IsNumber(bs) && read + |bs| <= cap
    ensures Scan(bs + rest, read, cap, 0) == Read(Meant(bs), |bs|)
  {
    hide Value, Scan;
    ScansEnds(bs, rest, read, cap, 0);
  }

  lemma {:induction false} ScansShort(content: seq<byte>, read: nat, cap: nat, i: nat)
    requires i <= |content| < 5 && read + 5 <= cap && forall k :: 0 <= k < |content| ==> content[k] >= 128
    ensures Scan(content, read, cap, i) == Short
    decreases 5 - i
  {
    if i < |content| {
      ScansShort(content, read, cap, i + 1);
    }
  }

  /** A number that has no end among the first five bytes is refused, fewer bytes of it are waited for. */
  lemma {:induction false} ScansNothing(content: seq<byte>, read: nat, cap: nat)
    requires read + 5 <= cap && forall i :: 0 <= i < |content| && i < 5 ==> content[i] >= 128
    ensures Scan(content, read, cap, 0) == if |content| < 5 then Short else Endless
  {
    if |content| < 5 {
      ScansShort(content, read, cap, 0);
    } else {
      ScansOn(content[..5], content[5..], read, cap, 0);
      assert content[..5] + content[5..] == content;
    }
  }

  /** A whole packet. On a compressed connection a mark comes before the identifier, and a packet whose mark is above
      0 is refused. An identifier that runs past the length is refused as well; what follows it, up to the length,
      is the payload. */
  lemma {:induction false} ReadsPacket(length: seq<byte>, mark: seq<byte>, id: seq<byte>, tail: seq<byte>, read: nat,
                                       cap: nat, compression: bool)
    requires IsNumber(length) && IsNumber(id) && (if compression then IsNumber(mark) else mark == [])
    requires read + |length| + |mark| + |id| < cap
    requires 0 <= Meant(length) <= |mark + id + tail|
    ensures var n := Meant(length);
            var k := n - |mark| - |id|;
            Decode(State(length + (mark + id + tail), read, 0), cap, compression)
            == if (compression && Meant(mark) > 0) || k < 0 then Failed
               else Got(Packet(Meant(id), tail[..k]), State(tail[k..], (read + |length| + n) % cap, 0))
  {
    hide Scan, Meant, IsNumber, Turn, DecodeBody;
    var all := mark + id + tail;
    ScansNumber(length, all, read, cap);
    assert (length + all)[|length|..] == all;
    TurnIs(cap, read + |length|);
    ReadsBody(Meant(length), mark, id, tail, read + |length|, cap, compression);
  }

  lemma {:induction false} TurnIs(cap: nat, pos: nat)
    requires 0 < cap
    ensures Turn(cap, pos) == pos % cap && (pos < cap ==> Turn(cap, pos) == pos)
  {
    if pos < cap {
      TurnSmall(cap, pos);
    }
  }

  lemma {:induction false} ReadsBody(n: int, mark: seq<byte>, id: seq<byte>, tail: seq<byte>, read: nat, cap: nat,
                                     compression: bool)
    requires IsNumber(id) && (if compression then IsNumber(mark) else mark == [])
    requires read + |mark| + |id| < cap
    requires 0 <= n <= |mark + id + tail|
    ensures var k := n - |mark| - |id|;
            DecodeBody(State(mark + id + tail, read, n), cap, compression)
            == if (compression && Meant(mark) > 0) || k < 0 then Failed
               else Got(Packet(Meant(id), tail[..k]), State(tail[k..], (read + n) % cap, 0))
  {
    hide Scan, Meant, IsNumber, Turn;
    var all, k := mark + id + tail, n - |mark| - |id|;
    if compression {
      Assoc(mark, id, tail);
      ScansNumber(mark, id + tail, read, cap);
    }
    assert all[|mark|..] == id + tail;
    TurnIs(cap, read + |mark|);
    TurnIs(cap, read + n);
    ScansNumber(id, tail, read + |mark|, cap);
    if k >= 0 {
      assert all[|mark| + |id|..n] == tail[..k];
      assert all[n..] == tail[k..];
    }
  }

  /** A packet that is not there yet, or whose length is negative, is waited for, and its length is kept. */
  lemma {:induction false} WaitsForPacket(length: seq<byte>, rest: seq<byte>, read: nat, cap: nat, compression: bool)
    requires IsNumber(length) && read + |length| < cap
    requires Meant(length) < 0 || |rest| < Meant(length)
    ensures Decode(State(length + rest, read, 0), cap, compression)
            == Again(State(rest, read + |length|, Meant(length)))
  {
    hide Scan, Meant, IsNumber, Turn;
    ScansNumber(length, rest, read, cap);
    assert (length + rest)[|length|..] == rest;
    TurnIs(cap, read + |length|);
  }

  /** A length that has not ended after five bytes is refused; fewer bytes of it are waited for. */
  lemma {:induction false} LengthWithoutEnd(content: seq<byte>, read: nat, cap: nat, compression: bool)
    requires read + 5 <= cap
    requires forall i :: 0 <= i < |content| && i < 5 ==> content[i] >= 128
    ensures Decode(State(content, read, 0), cap, compression)
            == if |content| < 5 then Again(State(content, read, 0)) else Failed
  {
    hide Scan;
    ScansNothing(content, read, cap);
  }
}
