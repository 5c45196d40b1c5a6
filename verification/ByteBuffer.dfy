/** The fixed byte buffer: a ring over an array, refined against a queue of bytes. */
module ByteBuffer {
  import opened Bytes

  /** Positions are kept below the capacity; sums of two of them wrap at most once. */
  function Wrap(cap: nat, pos: nat): nat
    requires 0 < cap && pos < 2 * cap
  {
    if pos < cap then pos else pos - cap
  }

  lemma {:induction false} WrapIsMod(cap: nat, pos: nat)
    requires 0 < cap && pos < 2 * cap
    ensures pos % cap == Turn(cap, pos) == Wrap(cap, pos)
  {
    if pos >= cap {
      SubMod(pos, cap);
    } else {
      SmallMod(pos, cap);
    }
  }

  lemma {:induction false} SmallMod(a: nat, m: nat)
    requires a < m
    ensures a % m == a
  {
  }

  lemma {:induction false} SubMod(a: nat, m: nat)
    requires 0 < m <= a < 2 * m
    ensures a % m == a - m
  {
    var q, r := a / m, a % m;
    assert a == m * q + r && 0 <= r < m;
    assert q >= 2 ==> m * q >= 2 * m;
    assert q <= 0 ==> m * q <= 0;
  }

  /** The `n` bytes of the ring from `start` on. */
  function Ring(cells: seq<byte>, start: nat, n: nat): (r: seq<byte>)
    requires start <= |cells| && n <= |cells|
    ensures |r| == n
  {
    if start + n <= |cells| then cells[start..start + n] else cells[start..] + cells[..start + n - |cells|]
  }

  /** The two cursors and the number of bytes held. */
  datatype Heads = Heads(read: nat, write: nat, size: nat)

  predicate HeadsFit(h: Heads, cap: nat) {
    0 < cap && h.read < cap && h.write < cap && h.size <= cap && h.write == Wrap(cap, h.read + h.size)
  }

  function Min(a: nat, b: nat): nat { if a < b then a else b }

  /** bytebuf_register_read. */
  function AfterRead(h: Heads, cap: nat, n: nat): (r: Heads)
    requires HeadsFit(h, cap)
    ensures HeadsFit(r, cap)
  {
    var k := Min(n, h.size);
    Heads(Wrap(cap, h.read + k), h.write, h.size - k)
  }

  /** bytebuf_register_write. */
  function AfterWrite(h: Heads, cap: nat, n: nat): (r: Heads)
    requires HeadsFit(h, cap) && h.size + n <= cap
    ensures HeadsFit(r, cap)
  {
    Heads(h.read, Wrap(cap, h.write + n), h.size + n)
  }

  /** bytebuf_unread. */
  function AfterUnread(h: Heads, cap: nat, n: nat): (r: Heads)
    requires HeadsFit(h, cap)
    ensures HeadsFit(r, cap)
  {
    if n == 0 then h
    else if n >= cap - h.size then Heads(h.write, h.write, cap)
    else Heads(if h.read >= n then h.read - n else h.read - n + cap, h.write, h.size + n)
  }

  /** bytebuf_prepend. */
  function AfterPrepend(h: Heads, cap: nat, n: nat): (r: Heads)
    requires HeadsFit(h, cap) && h.size + n <= cap
    ensures HeadsFit(r, cap)
  {
    Heads(if h.read >= n then h.read - n else h.read - n + cap, h.write, h.size + n)
  }

  /** bytebuf_unwrite. */
  function AfterUnwrite(h: Heads, cap: nat, n: nat): (r: Heads)
    requires HeadsFit(h, cap)
    ensures HeadsFit(r, cap)
  {
    if n == 0 then h
    else if n >= h.size then Heads(h.read, h.read, 0)
    else Heads(h.read, if h.write >= n then h.write - n else h.write - n + cap, h.size - n)
  }

  /** Unread undoes the last read, unwrite the last write. */
  lemma {:induction false} Undone(h: Heads, cap: nat, n: nat)
    requires HeadsFit(h, cap)
    ensures n <= h.size ==> AfterUnread(AfterRead(h, cap, n), cap, n) == h
    ensures h.size + n <= cap ==> AfterUnwrite(AfterWrite(h, cap, n), cap, n) == h
  {
  }

  /** Data that wrap after `room` bytes, as they are stored, are what they were only if they repeat there. */
  predicate Intact(data: seq<byte>, room: nat) {
    |data| <= room || data[room..] == data[..|data| - room]
  }

  /** What write_at_position leaves in the ring for `data` when `room` bytes are left before the end
      of the array: the part that wraps is copied from the start of the data again. */
  function AsStored(data: seq<byte>, room: nat): (r: seq<byte>)
    ensures |r| == |data|
  {
    if |data| <= room then data else data[..room] + data[..|data| - room]
  }

  /** The data are stored as they are exactly when they do not wrap, or repeat after the wrap. */
  lemma {:induction false} StoredFaithfully(data: seq<byte>, room: nat)
    ensures AsStored(data, room) == data <==> Intact(data, room)
  {
    if |data| > room {
      assert data == data[..room] + data[room..];
      CancelPrefix(data[..room], data[room..], data[..|data| - room]);
    }
  }

  /** A stretch of the array: start and length. */
  datatype Region = Region(start: nat, size: nat)

  /** What get_regions at offset 0 yields: two heads at the same place make the second region the
      whole array. */
  function ReadRegions(h: Heads, cap: nat): seq<Region>
    requires HeadsFit(h, cap)
  {
    if h.size == 0 then []
    else if h.read < h.write then [Region(h.read, h.write - h.read)]
    else
      [Region(h.read, cap - h.read)]
      + if cap - h.read >= h.size then [] else [Region(0, if h.read == h.write then cap else h.write)]
  }

  function WriteRegions(h: Heads, cap: nat): seq<Region>
    requires HeadsFit(h, cap)
  {
    if h.size == cap then []
    else if h.write < h.read then [Region(h.write, h.read - h.write)]
    else
      [Region(h.write, cap - h.write)]
      + if cap - h.write >= cap - h.size then [] else [Region(0, if h.read == h.write then cap else h.read)]
  }

  function RegionBytes(cells: seq<byte>, rs: seq<Region>): seq<byte>
    requires forall i :: 0 <= i < |rs| ==> rs[i].start + rs[i].size <= |cells|
  {
    if rs == [] then [] else cells[rs[0].start..rs[0].start + rs[0].size] + RegionBytes(cells, rs[1..])
  }

  predicate InBounds(rs: seq<Region>, cap: nat) {
    |rs| <= 2 && forall i :: 0 <= i < |rs| ==> 0 < rs[i].size && rs[i].start + rs[i].size <= cap
  }

  predicate Disjoint(rs: seq<Region>) {
    |rs| == 2 ==> rs[0].start + rs[0].size <= rs[1].start || rs[1].start + rs[1].size <= rs[0].start
  }

  /** The regions are in bounds; they do not overlap and hold exactly the readable bytes, in order,
      except for a full buffer whose heads are not at 0. */
  lemma {:induction false} ReadRegionsExact(h: Heads, cells: seq<byte>)
    requires HeadsFit(h, |cells|)
    ensures InBounds(ReadRegions(h, |cells|), |cells|)
    ensures (Disjoint(ReadRegions(h, |cells|))
             && RegionBytes(cells, ReadRegions(h, |cells|)) == Ring(cells, h.read, h.size))
            <==> !(h.size == |cells| && h.read != 0)
  {
    RegionsSum(cells, ReadRegions(h, |cells|));
  }

  /** The same for the free space, which is wrong for an empty buffer whose heads are not at 0. */
  lemma {:induction false} WriteRegionsExact(h: Heads, cells: seq<byte>)
    requires HeadsFit(h, |cells|)
    ensures InBounds(WriteRegions(h, |cells|), |cells|)
    ensures (Disjoint(WriteRegions(h, |cells|))
             && RegionBytes(cells, WriteRegions(h, |cells|)) == Ring(cells, h.write, |cells| - h.size))
            <==> !(h.size == 0 && h.read != 0)
  {
    RegionsSum(cells, WriteRegions(h, |cells|));
  }

  lemma {:induction false} RegionsSum(cells: seq<byte>, rs: seq<Region>)
    requires InBounds(rs, |cells|)
    ensures RegionBytes(cells, rs)
              == if rs == [] then []
                 else if |rs| == 1 then cells[rs[0].start..rs[0].start + rs[0].size]
                 else cells[rs[0].start..rs[0].start + rs[0].size] + cells[rs[1].start..rs[1].start + rs[1].size]
  {
    if rs != [] {
      var rest := rs[1..];
      if rest != [] {
        assert RegionBytes(cells, rest[1..]) == [];
      }
    }
  }

  /** What peek_byte finds: it does not wrap, and past the end of the array it reads what lies
      behind the buffer. */
  datatype Peeked = NoByte | Byte(b: byte) | Overrun

  function PeekByte(content: seq<byte>, read: nat, cap: nat, index: nat): Peeked {
    if index >= |content| then NoByte
    else if read + index >= cap then Overrun
    else Byte(content[index])
  }

  class Buffer {
    const buf: array<byte>
    var readHead: nat
    var writeHead: nat
    var size: nat

    ghost predicate Valid()
      reads this
    {
      HeadsFit(Cursors(), buf.Length)
    }

    function Cursors(): Heads
      reads this
    {
      Heads(readHead, writeHead, size)
    }

    ghost function Content(): (s: seq<byte>)
      requires Valid()
      reads this, buf
      ensures |s| == size
    {
      Ring(buf[..], readHead, size)
    }

    /** bytebuf_create_fixed. */
    constructor (capacity: nat)
      requires capacity > 0
      ensures Valid() && fresh(buf) && buf.Length == capacity && Content() == [] && Cursors() == Heads(0, 0, 0)
    {
      buf := new byte[capacity];
      readHead, writeHead, size := 0, 0, 0;
    }

    /** memcpy. */
    method Copy(at: nat, data: seq<byte>)
      requires at + |data| <= buf.Length
      modifies buf
      ensures buf[..] == old(buf[..at]) + data + old(buf[at + |data|..])
    {
      var i := 0;
      while i < |data|
        invariant 0 <= i <= |data|
        invariant forall k :: 0 <= k < i ==> buf[at + k] == data[k]
        invariant forall k :: 0 <= k < at || at + i <= k < buf.Length ==> buf[k] == old(buf[k])
      {
        buf[at + i] := data[i];
        i := i + 1;
      }
    }

    /** write_at_position. The source pointer stays where it is when the position wraps. */
    method WriteAt(data: seq<byte>, start: nat)
      requires start < buf.Length && |data| <= buf.Length
      modifies buf
      ensures buf[..] == Overlaid(old(buf[..]), start, data)
    {
      hide Overlaid;
      var position, left := start, |data|;
      ghost var cells, room := buf[..], buf.Length - start;
      OverlaidInParts(cells, start, data);
      while left > 0
        invariant 0 <= left <= |data| && position < buf.Length
        invariant left == |data| ==> position == start && buf[..] == cells
        invariant 0 < left < |data| ==> position == 0 && left == |data| - room
                                        && buf[..] == cells[..start] + data[..room]
        invariant left == 0 ==> buf[..] == Overlaid(cells, start, data)
      {
        var writable := Min(buf.Length - position, left);
        Copy(position, data[..writable]);
        left := left - writable;
        WrapIsMod(buf.Length, position + writable);
        position := (position + writable) % buf.Length;
      }
    }

    /** ensure_capacity on a fixed buffer: too small, and the program aborts. */
    predicate Fits(n: nat)
      reads this
    {
      size + n <= buf.Length
    }

    method RegisterWrite(n: nat)
      requires Valid() && Fits(n)
      modifies this
      ensures Cursors() == AfterWrite(old(Cursors()), buf.Length, n)
    {
      WrapIsMod(buf.Length, writeHead + n);
      writeHead := (writeHead + n) % buf.Length;
      size := size + n;
    }

    method RegisterRead(n: nat) returns (k: nat)
      requires Valid()
      modifies this
      ensures k == Min(n, old(size)) && Cursors() == AfterRead(old(Cursors()), buf.Length, n)
      ensures Content() == old(Content())[k..]
    {
      k := Min(n, size);
      RingSplit(buf[..], readHead, k, size - k);
      WrapIsMod(buf.Length, readHead + k);
      readHead := (readHead + k) % buf.Length;
      size := size - k;
    }

    /** bytebuf_write: the data go to the end, as write_at_position stores them. */
    method Write(data: seq<byte>) returns (ok: bool)
      requires Valid()
      modifies this, buf
      ensures Valid() && ok == old(Fits(|data|)) == (old(size) + |data| <= buf.Length)
      ensures writeHead < buf.Length
      ensures ok ==> Cursors() == AfterWrite(old(Cursors()), buf.Length, |data|)
      ensures ok ==> writeHead == Wrap(buf.Length, old(writeHead) + |data|) && size == old(size) + |data|
      ensures ok ==> readHead == old(readHead)
      ensures ok ==> Content() == old(Content()) + AsStored(data, buf.Length - old(writeHead))
      ensures !ok ==> Cursors() == old(Cursors()) && buf[..] == old(buf[..])
    {
      hide Overlaid, AsStored, Ring;
      ok := Fits(|data|);
      if ok {
        OverlayAfter(buf[..], readHead, size, data);
        WriteAt(data, writeHead);
        RegisterWrite(|data|);
      }
    }

    /** bytebuf_prepend. */
    method Prepend(data: seq<byte>) returns (ok: bool)
      requires Valid()
      modifies this, buf
      ensures Valid() && ok == old(Fits(|data|)) == (old(size) + |data| <= buf.Length)
      ensures ok ==> Cursors() == AfterPrepend(old(Cursors()), buf.Length, |data|)
      ensures ok ==> Content() == AsStored(data, buf.Length - readHead) + old(Content())
      ensures !ok ==> Cursors() == old(Cursors()) && buf[..] == old(buf[..])
    {
      hide Overlaid, AsStored, Ring;
      ok := Fits(|data|);
      if ok {
        ghost var h, was, cells := Cursors(), Content(), buf[..];
        ghost var h' := AfterPrepend(h, |cells|, |data|);
        OverlayBefore(cells, h'.read, data, h.read, h.size);
        readHead := if readHead >= |data| then readHead - |data| else readHead - |data| + buf.Length;
        WriteAt(data, readHead);
        size := size + |data|;
        assert Cursors() == h' && Valid() && h'.size == h.size + |data|;
        assert Content() == Ring(Overlaid(cells, h'.read, data), h'.read, h.size + |data|);
      }
    }

    /** bytebuf_read_const. */
    method ReadConst(n: nat) returns (out: seq<byte>)
      requires Valid() && n <= size
      ensures out == Content()[..n]
    {
      RingSplit(buf[..], readHead, n, size - n);
      var toRead := Min(n, buf.Length - readHead);
      out := buf[readHead..readHead + toRead];
      if toRead < n {
        out := out + buf[..n - toRead];
      }
    }

    /** bytebuf_read: the prefix is taken off. */
    method Read(n: nat) returns (out: seq<byte>)
      requires Valid()
      modifies this
      ensures Valid() && Cursors() == AfterRead(old(Cursors()), buf.Length, n)
      ensures out == old(Content())[..Min(n, old(size))] && Content() == old(Content())[|out|..]
      ensures readHead == Wrap(buf.Length, old(readHead) + |out|)
    {
      var k := Min(n, size);
      out := ReadConst(k);
      k := RegisterRead(k);
    }

    /** bytebuf_peek. */
    method Peek(n: nat) returns (out: seq<byte>)
      requires Valid()
      ensures out == Content()[..Min(n, size)]
    {
      out := ReadConst(Min(n, size));
    }

    /** peek_byte; it reports where it would read outside the array. */
    method PeekAt(index: nat) returns (r: Peeked)
      requires Valid()
      ensures r == PeekByte(Content(), readHead, buf.Length, index)
    {
      if index >= size {
        return NoByte;
      }
      RingAt(buf[..], readHead, size, index);
      r := if readHead + index >= buf.Length then Overrun else Byte(buf[readHead + index]);
    }

    /** bytebuf_unwrite. */
    method Unwrite(n: nat)
      requires Valid()
      modifies this
      ensures Valid() && Cursors() == AfterUnwrite(old(Cursors()), buf.Length, n)
      ensures Content() == old(Content())[..if n < old(size) then old(size) - n else 0]
    {
      hide Ring;
      RingSplit(buf[..], readHead, if n < size then size - n else 0, if n < size then n else size);
      if n == 0 {
        return;
      }
      if n >= size {
        size := 0;
        writeHead := readHead;
        return;
      }
      size := size - n;
      writeHead := if writeHead >= n then writeHead - n else writeHead - n + buf.Length;
    }

    /** bytebuf_unread: bytes before the read head become readable again, at most as many as there is
        room for. */
    method Unread(n: nat)
      requires Valid()
      modifies this
      ensures Valid() && Cursors() == AfterUnread(old(Cursors()), buf.Length, n)
      ensures size == old(size) + Min(n, buf.Length - old(size))
      ensures Content()[size - old(size)..] == old(Content())
    {
      hide Ring;
      UnreadBehind(Cursors(), buf[..], n);
      if n == 0 {
        return;
      }
      if n >= buf.Length - size {
        size := buf.Length;
        readHead := writeHead;
      } else {
        size := size + n;
        readHead := if readHead >= n then readHead - n else readHead - n + buf.Length;
      }
    }

    /** get_read_region_size. */
    function ReadRegionSize(start: nat): nat
      requires Valid() && start < buf.Length
      reads this
    {
      if size == 0 then 0
      else if readHead == writeHead then buf.Length - start
      else if readHead > writeHead then
        if start >= readHead then buf.Length - start else if start < writeHead then writeHead - start else 0
      else if start >= writeHead || start < readHead then 0 else writeHead - start
    }

    /** get_write_region_size. */
    function WriteRegionSize(start: nat): nat
      requires Valid() && start < buf.Length
      reads this
    {
      if size == buf.Length then 0
      else if readHead == writeHead then buf.Length - start
      else if readHead > writeHead then
        if start >= readHead || start < writeHead then 0 else readHead - start
      else if start >= writeHead then buf.Length - start else if start < readHead then readHead - start else 0
    }

    /** get_regions at offset 0. */
    method GetRegions(writable: bool) returns (rs: seq<Region>)
      requires Valid()
      ensures rs == if writable then WriteRegions(Cursors(), buf.Length) else ReadRegions(Cursors(), buf.Length)
    {
      hide Ring, RegionBytes, Content;
      var wanted := if writable then buf.Length - size else size;
      var start := if writable then writeHead else readHead;
      ghost var all := if writable then WriteRegions(Cursors(), buf.Length) else ReadRegions(Cursors(), buf.Length);
      var total := 0;
      rs := [];
      while |rs| < 2 && total < wanted
        invariant |rs| <= 2 && rs <= all && start < buf.Length
        invariant |rs| == 0 ==> total == 0 && start == if writable then writeHead else readHead
        invariant |rs| == 1 ==> total == rs[0].size && start == Wrap(buf.Length, rs[0].start + rs[0].size)
        invariant |rs| == 2 ==> rs == all
        decreases 2 - |rs|
      {
        var n := if writable then WriteRegionSize(start) else ReadRegionSize(start);
        rs := rs + [Region(start, n)];
        WrapIsMod(buf.Length, start + n);
        start := (start + n) % buf.Length;
        total := total + n;
      }
    }

    /** bytebuf_write_buffer: the read regions of `src` are written one after the other. */
    method WriteBuffer(src: Buffer) returns (ok: bool)
      requires Valid() && src.Valid() && src != this && src.buf != buf
      modifies this, buf
      ensures Valid() && InBounds(ReadRegions(src.Cursors(), src.buf.Length), src.buf.Length)
      ensures var rs := ReadRegions(src.Cursors(), src.buf.Length);
              (ok <==> old(Fits(|RegionBytes(src.buf[..], rs)|)))
              && (ok ==> Advanced(old(Cursors()), |RegionBytes(src.buf[..], rs)|))
              && (ok ==> Content() == old(Content()) + Arrived(src.buf[..], rs, old(writeHead), buf.Length))
    {
      var rs := src.GetRegions(false);
      ReadRegionsExact(src.Cursors(), src.buf[..]);
      ok := WriteRegionsOf(src.buf[..], rs);
    }

    /** `n` bytes have been written since. */
    ghost predicate Advanced(h: Heads, n: nat)
      reads this
    {
      readHead == h.read && size == h.size + n && buf.Length > 0 && writeHead == Turn(buf.Length, h.write + n)
    }

    method WriteRegionsOf(cells: seq<byte>, rs: seq<Region>) returns (ok: bool)
      requires Valid() && InBounds(rs, |cells|)
      modifies this, buf
      ensures Valid() && (ok <==> old(Fits(|RegionBytes(cells, rs)|)))
      ensures ok ==> Content() == old(Content()) + Arrived(cells, rs, old(writeHead), buf.Length)
      ensures ok ==> Advanced(old(Cursors()), |RegionBytes(cells, rs)|)
    {
      hide Content, Ring, RegionBytes, Arrived, AsStored, AfterWrite, Piece, Wrap, Turn;
      ghost var h := Cursors();
      ghost var before, all := Content(), Arrived(cells, rs, writeHead, buf.Length);
      ghost var total, done := size + |RegionBytes(cells, rs)|, all[..0];
      var i := 0;
      ok := true;
      assert before + done == before && done + all == all && rs[0..] == rs;
      while i < |rs| && ok
        invariant 0 <= i <= |rs| && Valid()
        invariant writeHead < buf.Length && size <= buf.Length && (ok ==> readHead == h.read)
        invariant ok ==> Content() == before + done && done + Arrived(cells, rs[i..], writeHead, buf.Length) == all
        invariant ok ==> size + |RegionBytes(cells, rs[i..])| == total
        invariant !ok ==> total > buf.Length
      {
        ghost var head := writeHead;
        var data := Piece(cells, rs[i]);
        ArrivedOn(before, done, cells, rs, i, head, buf.Length);
        ok := Write(data);
        if ok {
          WrapIsMod(buf.Length, head + |data|);
          done := done + AsStored(data, buf.Length - head);
        }
        i := i + 1;
      }
      ArrivedNothing(cells, rs[i..], writeHead, buf.Length);
      if ok {
        HeadsAdvance(h, Cursors(), buf.Length, |RegionBytes(cells, rs)|);
      }
    }
  }

  function Turn(cap: nat, pos: nat): (r: nat)
    requires 0 < cap
    ensures r < cap
  {
    pos % cap
  }

  lemma {:induction false} TurnTurn(cap: nat, a: nat, b: nat)
    requires 0 < cap
    ensures Turn(cap, Turn(cap, a) + b) == Turn(cap, a + b)
  {
    var q, r := a / cap, a % cap;
    var q', r' := (r + b) / cap, (r + b) % cap;
    assert a == cap * q + r && r + b == cap * q' + r';
    assert a + b == cap * q + cap * q' + r';
    Split(cap, q, q');
    ModUnique(a + b, cap, q + q', r');
  }

  lemma {:induction false} HeadsAdvance(h: Heads, h': Heads, cap: nat, n: nat)
    requires HeadsFit(h, cap) && HeadsFit(h', cap) && h'.read == h.read && h'.size == h.size + n
    ensures h'.write == Turn(cap, h.write + n)
  {
    hide Turn, Wrap;
    WrapIsMod(cap, h.read + h.size);
    WrapIsMod(cap, h.read + h.size + n);
    TurnTurn(cap, h.read + h.size, n);
  }

  lemma {:induction false} Split(c: nat, a: nat, b: nat)
    ensures c * (a + b) == c * a + c * b
  {
  }

  lemma {:induction false} ModUnique(n: nat, cap: nat, q: nat, r: nat)
    requires 0 < cap && r < cap && n == cap * q + r
    ensures n % cap == r
  {
    var q', r' := n / cap, n % cap;
    assert n == cap * q' + r' && 0 <= r' < cap;
    Split(cap, q, 1);
    Split(cap, q', 1);
    if q < q' {
      Monotone(cap, q + 1, q');
    } else if q' < q {
      Monotone(cap, q' + 1, q);
    }
  }

  lemma {:induction false} Monotone(c: nat, a: nat, b: nat)
    requires a <= b
    ensures c * a <= c * b
  {
  }

  lemma {:induction false} TurnSmall(cap: nat, a: nat)
    requires a < cap
    ensures Turn(cap, a) == a
  {
    SmallMod(a, cap);
  }

  function Piece(cells: seq<byte>, r: Region): (s: seq<byte>)
    requires r.start + r.size <= |cells|
    ensures |s| == r.size
  {
    cells[r.start..r.start + r.size]
  }

  /** What arrives in a ring of capacity `cap` with its write head at `head` when the regions are
      written one after the other. */
  function Arrived(cells: seq<byte>, rs: seq<Region>, head: nat, cap: nat): (s: seq<byte>)
    requires forall i :: 0 <= i < |rs| ==> rs[i].start + rs[i].size <= |cells|
    requires head < cap
    ensures |s| == |RegionBytes(cells, rs)|
  {
    if rs == [] then []
    else AsStored(Piece(cells, rs[0]), cap - head) + Arrived(cells, rs[1..], Turn(cap, head + rs[0].size), cap)
  }

  /** No region wraps in the destination, or what wraps repeats what came before. */
  predicate LandStraight(cells: seq<byte>, rs: seq<Region>, head: nat, cap: nat)
    requires forall i :: 0 <= i < |rs| ==> rs[i].start + rs[i].size <= |cells|
    requires head < cap
  {
    rs == []
    || (Intact(Piece(cells, rs[0]), cap - head) && LandStraight(cells, rs[1..], Turn(cap, head + rs[0].size), cap))
  }

  lemma {:induction false} ArrivedStep(cells: seq<byte>, rs: seq<Region>, i: nat, head: nat, cap: nat)
    requires InBounds(rs, |cells|) && i < |rs| && head < cap
    ensures Arrived(cells, rs[i..], head, cap)
              == AsStored(Piece(cells, rs[i]), cap - head)
                 + Arrived(cells, rs[i + 1..], Turn(cap, head + rs[i].size), cap)
    ensures |RegionBytes(cells, rs[i..])| == rs[i].size + |RegionBytes(cells, rs[i + 1..])|
  {
    hide AsStored, Turn;
    assert rs[i..][1..] == rs[i + 1..];
  }

  lemma {:induction false} ArrivedOn(before: seq<byte>, done: seq<byte>, cells: seq<byte>, rs: seq<Region>, i: nat, head: nat, cap: nat)
    requires InBounds(rs, |cells|) && i < |rs| && head < cap
    ensures var stored := AsStored(Piece(cells, rs[i]), cap - head);
            before + done + stored == before + (done + stored)
            && done + Arrived(cells, rs[i..], head, cap)
               == done + stored + Arrived(cells, rs[i + 1..], Turn(cap, head + rs[i].size), cap)
    ensures |RegionBytes(cells, rs[i..])| == rs[i].size + |RegionBytes(cells, rs[i + 1..])|
  {
    var stored := AsStored(Piece(cells, rs[i]), cap - head);
    ArrivedStep(cells, rs, i, head, cap);
    Assoc(before, done, stored);
    Assoc(done, stored, Arrived(cells, rs[i + 1..], Turn(cap, head + rs[i].size), cap));
  }

  lemma {:induction false} ArrivedNothing(cells: seq<byte>, rs: seq<Region>, head: nat, cap: nat)
    requires InBounds(rs, |cells|) && head < cap
    ensures rs == [] ==> Arrived(cells, rs, head, cap) == [] == RegionBytes(cells, rs)
  {
  }

  lemma {:induction false} ArrivesStraight(cells: seq<byte>, rs: seq<Region>, head: nat, cap: nat)
    requires InBounds(rs, |cells|) && head < cap
    ensures Arrived(cells, rs, head, cap) == RegionBytes(cells, rs) <==> LandStraight(cells, rs, head, cap)
  {
    if rs != [] {
      var data, next := Piece(cells, rs[0]), Turn(cap, head + rs[0].size);
      var stored, rest := AsStored(data, cap - head), Arrived(cells, rs[1..], next, cap);
      StoredFaithfully(data, cap - head);
      ArrivesStraight(cells, rs[1..], next, cap);
      hide AsStored, Turn;
      assert (stored + rest)[..|data|] == stored && (data + RegionBytes(cells, rs[1..]))[..|data|] == data;
      CancelPrefix(data, rest, RegionBytes(cells, rs[1..]));
    }
  }

  /** bytebuf_write_buffer appends exactly the content of the source when its heads are not at one
      place other than 0 and its regions land straight. */
  lemma {:induction false} ArrivesWhole(h: Heads, cells: seq<byte>, head: nat, cap: nat)
    requires HeadsFit(h, |cells|) && head < cap
    ensures InBounds(ReadRegions(h, |cells|), |cells|)
    ensures Arrived(cells, ReadRegions(h, |cells|), head, cap) == Ring(cells, h.read, h.size)
            <==> !(h.size == |cells| && h.read != 0) && LandStraight(cells, ReadRegions(h, |cells|), head, cap)
  {
    var rs := ReadRegions(h, |cells|);
    ReadRegionsExact(h, cells);
    ArrivesStraight(cells, rs, head, cap);
    FullTwice(h, cells);
  }

  /** A full buffer with its heads inside the array is read past its content. */
  lemma {:induction false} FullTwice(h: Heads, cells: seq<byte>)
    requires HeadsFit(h, |cells|) && InBounds(ReadRegions(h, |cells|), |cells|)
    ensures |RegionBytes(cells, ReadRegions(h, |cells|))|
            == if h.size == |cells| then 2 * |cells| - h.read - (if h.read == 0 then |cells| else 0) else h.size
    ensures h.size == |cells| && h.read != 0 ==> |RegionBytes(cells, ReadRegions(h, |cells|))| > h.size
    ensures !(h.size == |cells| && h.read != 0) ==> Disjoint(ReadRegions(h, |cells|))
  {
    RegionsSum(cells, ReadRegions(h, |cells|));
  }

  lemma {:induction false} RingAt(cells: seq<byte>, start: nat, n: nat, i: nat)
    requires start < |cells| && n <= |cells| && i < n
    ensures Ring(cells, start, n)[i] == cells[Wrap(|cells|, start + i)]
  {
  }

  /** A stretch of the ring is a first part followed by the rest. */
  lemma {:induction false} RingSplit(cells: seq<byte>, start: nat, a: nat, b: nat)
    requires start < |cells| && a + b <= |cells|
    ensures Ring(cells, start, a + b) == Ring(cells, start, a) + Ring(cells, Wrap(|cells|, start + a), b)
    ensures Ring(cells, start, a + b)[..a] == Ring(cells, start, a)
    ensures Ring(cells, start, a + b)[a..] == Ring(cells, Wrap(|cells|, start + a), b)
  {
  }

  /** After an unread, what was readable is still the end of what is. */
  lemma {:induction false} UnreadBehind(h: Heads, cells: seq<byte>, n: nat)
    requires HeadsFit(h, |cells|)
    ensures var after := AfterUnread(h, |cells|, n);
            after.size == h.size + Min(n, |cells| - h.size)
            && Ring(cells, after.read, after.size)[after.size - h.size..] == Ring(cells, h.read, h.size)
  {
    hide Ring;
    var after := AfterUnread(h, |cells|, n);
    RingSplit(cells, after.read, after.size - h.size, h.size);
    assert Wrap(|cells|, after.read + (after.size - h.size)) == h.read || h.size == 0;
    RingNothing(cells, Wrap(|cells|, after.read + (after.size - h.size)), h.read);
  }

  lemma {:induction false} RingNothing(cells: seq<byte>, a: nat, b: nat)
    requires a <= |cells| && b <= |cells|
    ensures Ring(cells, a, 0) == [] == Ring(cells, b, 0)
  {
  }

  /** Writing behind a stretch of the ring extends it. */
  lemma {:induction false} OverlayAfter(cells: seq<byte>, read: nat, n: nat, data: seq<byte>)
    requires read < |cells| && n + |data| <= |cells|
    ensures var write := Wrap(|cells|, read + n);
            Ring(Overlaid(cells, write, data), read, n + |data|)
              == Ring(cells, read, n) + AsStored(data, |cells| - write)
  {
    var write := Wrap(|cells|, read + n);
    var cells' := Overlaid(cells, write, data);
    RingSplit(cells', read, n, |data|);
    OverlaidRing(cells, write, data);
    OverlaidElsewhere(cells, write, data, read, n);
  }

  /** Writing before a stretch of the ring puts the data in front of it. */
  lemma {:induction false} OverlayBefore(cells: seq<byte>, head: nat, data: seq<byte>, read: nat, n: nat)
    requires read < |cells| && n + |data| <= |cells|
    requires head == if read >= |data| then read - |data| else read - |data| + |cells|
    ensures head < |cells|
    ensures Ring(Overlaid(cells, head, data), head, n + |data|)
              == AsStored(data, |cells| - head) + Ring(cells, read, n)
  {
    var cells' := Overlaid(cells, head, data);
    RingSplit(cells', head, |data|, n);
    OverlaidRing(cells, head, data);
    OverlaidElsewhere(cells, head, data, read, n);
  }

  /** The data go down in one piece, or in two when they wrap. */
  lemma {:induction false} OverlaidInParts(cells: seq<byte>, start: nat, data: seq<byte>)
    requires start < |cells| && |data| <= |cells|
    ensures var room := |cells| - start;
            if |data| <= room then
              data[..|data|] == data && cells[..start] + data + cells[start + |data|..] == Overlaid(cells, start, data)
            else
              var once := cells[..start] + data[..room];
              cells[..start] + data[..room] + cells[start + room..] == once
              && once[..0] + data[..|data| - room] + once[|data| - room..] == Overlaid(cells, start, data)
    ensures data == [] ==> Overlaid(cells, start, data) == cells
  {
  }

  lemma {:induction false} OverlaidRing(cells: seq<byte>, start: nat, data: seq<byte>)
    requires start < |cells| && |data| <= |cells|
    ensures Ring(Overlaid(cells, start, data), start, |data|) == AsStored(data, |cells| - start)
  {
  }

  /** The part of the ring that is not written stays. */
  lemma {:induction false} OverlaidElsewhere(cells: seq<byte>, start: nat, data: seq<byte>, read: nat, n: nat)
    requires start < |cells| && read < |cells| && n + |data| <= |cells|
    requires start == Wrap(|cells|, read + n) || read == Wrap(|cells|, start + |data|)
    ensures Ring(Overlaid(cells, start, data), read, n) == Ring(cells, read, n)
  {
    var cells' := Overlaid(cells, start, data);
    forall i | 0 <= i < n ensures Ring(cells', read, n)[i] == Ring(cells, read, n)[i] {
      OverlaidApart(cells, start, data, read, n, i);
    }
  }

  lemma {:induction false} OverlaidApart(cells: seq<byte>, start: nat, data: seq<byte>, read: nat, n: nat, i: nat)
    requires start < |cells| && read < |cells| && n + |data| <= |cells| && i < n
    requires start == Wrap(|cells|, read + n) || read == Wrap(|cells|, start + |data|)
    ensures Ring(Overlaid(cells, start, data), read, n)[i] == Ring(cells, read, n)[i]
  {
    var cells' := Overlaid(cells, start, data);
    RingAt(cells', read, n, i);
    RingAt(cells, read, n, i);
    hide Ring;
    var at, room := Wrap(|cells|, read + i), |cells| - start;
    if |data| <= room {
      assert at < start || start + |data| <= at;
      assert cells' == cells[..start] + data + cells[start + |data|..];
    } else {
      assert |data| - room <= at < start;
      assert cells' == data[..|data| - room] + cells[|data| - room..start] + data[..room];
    }
  }

  /** The array once `data` has been written at `start`. */
  function Overlaid(cells: seq<byte>, start: nat, data: seq<byte>): (r: seq<byte>)
    requires start < |cells| && |data| <= |cells|
    ensures |r| == |cells|
  {
    var room := |cells| - start;
    if |data| <= room then cells[..start] + data + cells[start + |data|..]
    else data[..|data| - room] + cells[|data| - room..start] + data[..room]
  }
}
