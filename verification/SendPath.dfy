/** The sending half of a connection: frames are queued in a ring and pushed into a socket that takes as much
    as it likes. The socket is any sequence of answers. */
module SendPath {
  import opened Bytes
  import opened Wrappers
  import opened ByteBuffer
  import opened Framing
  import opened Inbound
  import opened Outbound
  import opened Receiver
  import opened VarInt

  const MAX_PACKET_SIZE := 2097151

  /** What queueing a frame adds to the send buffer when its write head is at `head`. The scratch buffer of
      capacity `scratch` holds the `k` bytes of the header at its end and the rest at its start; when it is
      full, the second region is all of it. */
  function Landed(frame: seq<byte>, k: nat, scratch: nat, head: nat, cap: nat): (s: seq<byte>)
    requires k <= |frame| <= scratch && head < cap
    ensures |s| == if |frame| == scratch then |frame| + k else |frame|
  {
    AsStored(frame[..k], cap - head)
    + AsStored(if |frame| == scratch then frame[k..] + frame[..k] else frame[k..], cap - Turn(cap, head + k))
  }

  predicate LandsIntact(frame: seq<byte>, k: nat, scratch: nat, head: nat, cap: nat) {
    k <= |frame| < scratch && head < cap && Intact(frame[..k], cap - head) && Intact(frame[k..], cap - Turn(cap, head + k))
  }

  /** The frame of a packet reaches the queue as it is. */
  predicate Lands(p: Packet, head: nat, cap: nat, compression: bool, behind: byte) {
    LandsIntact(Frame(p, compression, behind), |Frame(p, compression, behind)| - |Inner(p, behind)|,
                MAX_PACKET_SIZE, head, cap)
  }

  lemma {:induction false} LandsIs(p: Packet, head: nat, cap: nat, compression: bool, behind: byte)
    requires head < cap
    ensures var frame, k := Frame(p, compression, behind), |Frame(p, compression, behind)| - |Inner(p, behind)|;
            0 < k <= |frame| && (Lands(p, head, cap, compression, behind) ==> |frame| < MAX_PACKET_SIZE)
            && (|frame| <= MAX_PACKET_SIZE ==>
                  |Landed(frame, k, MAX_PACKET_SIZE, head, cap)| == (if |frame| == MAX_PACKET_SIZE then |frame| + k else |frame|)
                  && (Landed(frame, k, MAX_PACKET_SIZE, head, cap) == frame <==> Lands(p, head, cap, compression, behind)))
  {
    hide Frame, Inner, Landed;
    FrameParts(p, compression, behind);
    var frame, k := Frame(p, compression, behind), |Frame(p, compression, behind)| - |Inner(p, behind)|;
    if |frame| <= MAX_PACKET_SIZE {
      LandsExactly(frame, k, MAX_PACKET_SIZE, head, cap);
    }
  }

  /** So do the frames of all packets, when the write head starts at `head`. */
  predicate AllLand(ps: seq<Packet>, head: nat, cap: nat, compression: bool, behind: byte)
    requires 0 < cap
  {
    ps == []
    || (AllLand(ps[..|ps| - 1], head, cap, compression, behind)
        && Lands(ps[|ps| - 1], HeadAfter(ps[..|ps| - 1], head, cap, compression, behind), cap, compression, behind))
  }

  /** Where the write head is once the frames of all packets have been written. */
  function HeadAfter(ps: seq<Packet>, head: nat, cap: nat, compression: bool, behind: byte): nat
    requires 0 < cap
  {
    if ps == [] then head
    else Turn(cap, HeadAfter(ps[..|ps| - 1], head, cap, compression, behind) + |Frame(ps[|ps| - 1], compression, behind)|)
  }

  /** The queue gets the frame exactly when the scratch buffer is not full and neither the header nor the
      rest is cut by the end of the ring, or the cut does not show. */
  lemma {:induction false} LandsExactly(frame: seq<byte>, k: nat, scratch: nat, head: nat, cap: nat)
    requires 0 < k <= |frame| <= scratch && head < cap
    ensures Landed(frame, k, scratch, head, cap) == frame <==> LandsIntact(frame, k, scratch, head, cap)
  {
    hide Turn, AsStored;
    if |frame| < scratch {
      var next := Turn(cap, head + k);
      StoredFaithfully(frame[..k], cap - head);
      StoredFaithfully(frame[k..], cap - next);
      var a, b := AsStored(frame[..k], cap - head), AsStored(frame[k..], cap - next);
      assert frame == frame[..k] + frame[k..];
      assert (a + b)[..k] == a && (a + b)[k..] == b;
    }
  }

  /** A frame that is cut by the end of the ring, and shows it. */
  lemma CutFrame(frame: seq<byte>, cap: nat)
    requires |frame| == 3 && frame[1] != frame[2] && cap >= 3
    ensures !LandsIntact(frame, 1, MAX_PACKET_SIZE, cap - 2, cap)
    ensures Landed(frame, 1, MAX_PACKET_SIZE, cap - 2, cap) == [frame[0], frame[1], frame[1]]
  {
    TurnSmall(cap, cap - 1);
    assert frame[1..][1..] == [frame[2]] && frame[1..][..1] == [frame[1]];
  }

  /** The regions of the scratch buffer of send_packet. */
  lemma {:induction false} FrameRegions(frame: seq<byte>, k: nat, cells: seq<byte>, head: nat, cap: nat)
    requires 0 < k < |frame| <= |cells| && head < cap
    requires Ring(cells, |cells| - k, |frame|) == frame
    ensures var h := Heads(|cells| - k, Wrap(|cells|, |frame| - k), |frame|);
            HeadsFit(h, |cells|) && InBounds(ReadRegions(h, |cells|), |cells|)
            && Arrived(cells, ReadRegions(h, |cells|), head, cap) == Landed(frame, k, |cells|, head, cap)
  {
    hide AsStored, Turn, Ring, RegionBytes, Landed, Arrived, ReadRegions;
    var second := Region(0, if |frame| == |cells| then |cells| else |frame| - k);
    var first := Region(|cells| - k, k);
    TwoRegions(k, |frame|, |cells|);
    RingHalves(cells, k, frame);
    ArrivedTwo(cells, first, second, head, cap);
    LandedIs(frame, k, |cells|, head, cap, Piece(cells, second));
  }

  lemma {:induction false} LandedIs(frame: seq<byte>, k: nat, scratch: nat, head: nat, cap: nat, second: seq<byte>)
    requires k <= |frame| <= scratch && head < cap
    requires second == if |frame| == scratch then frame[k..] + frame[..k] else frame[k..]
    ensures Landed(frame, k, scratch, head, cap)
            == AsStored(frame[..k], cap - head) + AsStored(second, cap - Turn(cap, head + k))
  {
  }

  lemma {:induction false} TwoRegions(k: nat, size: nat, scratch: nat)
    requires 0 < k < size <= scratch
    ensures var h := Heads(scratch - k, Wrap(scratch, size - k), size);
            HeadsFit(h, scratch)
            && ReadRegions(h, scratch)
               == [Region(scratch - k, k), Region(0, if size == scratch then scratch else size - k)]
  {
  }

  lemma {:induction false} ArrivedTwo(cells: seq<byte>, a: Region, b: Region, head: nat, cap: nat)
    requires InBounds([a, b], |cells|) && head < cap
    requires a.start + a.size <= |cells| && b.start + b.size <= |cells|
    ensures Arrived(cells, [a, b], head, cap)
            == AsStored(Piece(cells, a), cap - head) + AsStored(Piece(cells, b), cap - Turn(cap, head + a.size))
  {
    hide AsStored, Turn, RegionBytes, Arrived;
    var rs := [a, b];
    ArrivedStep(cells, rs, 0, head, cap);
    ArrivedStep(cells, rs, 1, Turn(cap, head + a.size), cap);
    ArrivedNothing(cells, rs[2..], Turn(cap, Turn(cap, head + a.size) + b.size), cap);
    assert rs[0..] == rs && rs[2..] == [];
    var s := AsStored(Piece(cells, b), cap - Turn(cap, head + a.size));
    assert s + [] == s;
  }

  lemma {:induction false} RingHalves(cells: seq<byte>, k: nat, frame: seq<byte>)
    requires k <= |frame| <= |cells| && Ring(cells, |cells| - k, |frame|) == frame
    ensures cells[|cells| - k..|cells| - k + k] == frame[..k] && cells[0..0 + |frame| - k] == frame[k..]
    ensures |frame| == |cells| ==> cells[0..0 + |cells|] == frame[k..] + frame[..k]
  {
  }

  /** The regions handed to the socket start with the content; they hold more only when the buffer is full
      with its heads inside the array. */
  lemma {:induction false} RegionsStart(h: Heads, cells: seq<byte>, n: nat)
    requires HeadsFit(h, |cells|)
    ensures InBounds(ReadRegions(h, |cells|), |cells|)
    ensures var bytes := RegionBytes(cells, ReadRegions(h, |cells|));
            (|bytes| > h.size <==> h.size == |cells| && h.read != 0)
            && h.size <= |bytes|
            && (n <= h.size ==> bytes[..n] == Ring(cells, h.read, h.size)[..n])
  {
    hide RegionBytes;
    ReadRegionsExact(h, cells);
    FullTwice(h, cells);
    if h.size == |cells| && h.read != 0 {
      FullStart(h, cells);
    }
  }

  lemma {:induction false} FullStart(h: Heads, cells: seq<byte>)
    requires HeadsFit(h, |cells|) && h.size == |cells| && h.read != 0
    requires InBounds(ReadRegions(h, |cells|), |cells|)
    ensures var bytes := RegionBytes(cells, ReadRegions(h, |cells|));
            |bytes| >= |cells| && bytes[..|cells|] == Ring(cells, h.read, |cells|)
  {
    assert ReadRegions(h, |cells|) == [Region(h.read, |cells| - h.read), Region(0, |cells|)];
    RegionsSum(cells, ReadRegions(h, |cells|));
    hide RegionBytes, ReadRegions;
    assert (cells[h.read..] + cells)[..|cells|] == cells[h.read..] + cells[..h.read];
  }

  /** The socket takes `n` bytes off the queue. */
  lemma {:induction false} TakenOff(accepted: seq<byte>, content: seq<byte>, bytes: seq<byte>, n: nat)
    requires n <= |bytes| && |content| <= |bytes| && bytes[..|content|] == content
    ensures n <= |content| ==> accepted + bytes[..n] + content[n..] == accepted + content
    ensures |content| < n ==> |accepted + bytes[..n]| > |accepted + content|
  {
    if n <= |content| {
      assert bytes[..n] == content[..n] && content == content[..n] + content[n..];
      Assoc(accepted, content[..n], content[n..]);
    }
  }

  /** Two streams stay equal exactly as long as what is added to them is. */
  lemma {:induction false} Kept(queued: seq<byte>, framed: seq<byte>, a: seq<byte>, b: seq<byte>)
    requires |queued| >= |framed| && |a| >= |b|
    ensures queued + a == framed + b <==> queued == framed && a == b
  {
    if queued + a == framed + b {
      assert (queued + a)[..|queued|] == queued && (framed + b)[..|framed|] == framed;
      assert (queued + a)[|queued|..] == a && (framed + b)[|framed|..] == b;
    }
  }

  /** What becomes of a packet that is sent with `size` bytes queued. */
  function Shape(p: Packet, compression: bool, threshold: nat, behind: byte, size: nat, cap: nat): Built {
    var inner, frame := |Inner(p, behind)|, |Frame(p, compression, behind)|;
    if inner > MAX_PACKET_SIZE then TooLarge
    else if compression && inner >= threshold then LeftToZlib
    else if frame > MAX_PACKET_SIZE then TooLarge
    else if size + frame + (if frame == MAX_PACKET_SIZE then frame - inner else 0) > cap then TooLarge
    else Framed
  }

  /** A packet of up to 2097140 bytes is queued if there is room for its frame, and the frame of none that is queued
      has more than 2097151. */
  lemma {:induction false} QueuedSizes(p: Packet, compression: bool, threshold: nat, behind: byte, size: nat, cap: nat)
    ensures var inner, frame := |Inner(p, behind)|, |Frame(p, compression, behind)|;
            var r := Shape(p, compression, threshold, behind, size, cap);
            && (inner <= 2097140 && size + frame <= cap && (compression ==> inner < threshold) ==> r == Framed)
            && (r == Framed ==> frame <= 2097151 && size + frame <= cap && (compression ==> inner < threshold))
  {
    hide Spell;
  }

  /** What it adds to the queue. */
  function Adds(p: Packet, compression: bool, behind: byte, head: nat, cap: nat): seq<byte>
    requires head < cap
  {
    var frame, inner := Frame(p, compression, behind), Inner(p, behind);
    if |inner| <= |frame| <= MAX_PACKET_SIZE then Landed(frame, |frame| - |inner|, MAX_PACKET_SIZE, head, cap) else []
  }

  /** Where the write head of a queue is. */
  function Head(x: Outlet, cap: nat): (head: nat)
    requires Fits(x, cap)
    ensures head < cap
  {
    Wrap(cap, x.read + |x.queue|)
  }

  /** The queue with a packet added. */
  function Queued(x: Outlet, p: Packet, compression: bool, behind: byte, cap: nat): Outlet
    requires Fits(x, cap)
  {
    x.(queue := x.queue + Adds(p, compression, behind, Head(x, cap), cap))
  }

  /** send_packet: the frame joins the queue, which is handed to the socket unless the connection waits. */
  function Passed(x: Outlet, p: Packet, compression: bool, behind: byte, answers: nat -> Response, cap: nat): Outlet
    requires Fits(x, cap)
  {
    var y := Queued(x, p, compression, behind, cap);
    if Fits(y, cap) then Flushed(y, answers, cap) else y
  }

  lemma {:induction false} AddsWhat(p: Packet, compression: bool, behind: byte, head: nat, cap: nat)
    requires head < cap && |Frame(p, compression, behind)| <= MAX_PACKET_SIZE
    ensures var frame, k := Frame(p, compression, behind), |Frame(p, compression, behind)| - |Inner(p, behind)|;
            0 < k <= |frame| && Adds(p, compression, behind, head, cap) == Landed(frame, k, MAX_PACKET_SIZE, head, cap)
  {
    hide Frame, Inner, Landed;
    FrameParts(p, compression, behind);
  }

  lemma {:induction false} QueuedWhere(h: Heads, x: Outlet, cap: nat)
    requires HeadsFit(h, cap) && x.read == h.read && |x.queue| == h.size
    ensures Fits(x, cap) && Head(x, cap) == h.write
  {
  }

  lemma {:induction false} QueuedFits(x: Outlet, p: Packet, compression: bool, threshold: nat, behind: byte, cap: nat)
    requires Fits(x, cap) && Shape(p, compression, threshold, behind, |x.queue|, cap) == Framed
    ensures Fits(Queued(x, p, compression, behind, cap), cap)
  {
    hide Frame, Inner, Landed, Wrap;
    FrameParts(p, compression, behind);
  }

  /** The bytes of the regions are those that are offered. */
  lemma {:induction false} RegionsOffer(h: Heads, cells: seq<byte>)
    requires HeadsFit(h, |cells|)
    ensures InBounds(ReadRegions(h, |cells|), |cells|)
    ensures RegionBytes(cells, ReadRegions(h, |cells|)) == Offered(Ring(cells, h.read, h.size), h.read, |cells|)
  {
    ReadRegionsExact(h, cells);
    if h.size == |cells| && h.read != 0 {
      RegionsSum(cells, ReadRegions(h, |cells|));
      var ring := cells[h.read..] + cells[..h.read];
      assert ring[..|cells| - h.read] == cells[h.read..] && cells == cells[..h.read] + cells[h.read..];
      Assoc(cells[h.read..], cells[..h.read], cells[h.read..]);
    }
  }

  class Connection {
    const send: Buffer
    const compression: bool
    const answers: nat -> Response
    var pendingSend: bool
    var open: bool
    /** The socket has last answered that it is closed or broken. */
    var failed: bool
    /** What the socket has taken so far. */
    var accepted: seq<byte>
    /** What sendmsg has reported so far. */
    var log: seq<Receipt>
    /** All frames so far, and what they left in the queue. */
    ghost var framed: seq<byte>
    ghost var queued: seq<byte>
    /** Every frame has landed intact; the socket has never taken more than there was. */
    ghost var intact: bool
    ghost var exact: bool

    ghost function Snapshot(): (x: Outlet)
      requires send.Valid()
      reads this, send, send.buf
      ensures Fits(x, send.buf.Length)
    {
      Outlet(send.Content(), send.readHead, accepted, pendingSend, open, failed, log)
    }

    ghost predicate Conserved()
      reads this`framed, this`queued, this`intact, this`exact, this`accepted, send, send.buf
    {
      send.Valid()
      && |queued| >= |framed| && (queued == framed <==> intact)
      && (if exact then accepted + send.Content() == queued else |accepted| + send.size > |queued|)
    }

    lemma ConservedValid()
      requires Conserved()
      ensures send.Valid()
    {
    }

    /** No wake-up is lost: who has something to send waits for the socket, unless it has failed. */
    ghost predicate Valid()
      reads this, send, send.buf
    {
      Conserved() && (send.size > 0 ==> pendingSend || failed)
    }

    /** What the socket took and what is queued is all that was framed exactly when every frame landed intact
        and the bytes are as many: never fewer, and more when the socket has been given more than there was. */
    lemma Conservation()
      requires Conserved()
      ensures accepted + send.Content() == framed <==> intact && |accepted| + send.size == |framed|
      ensures |accepted| + send.size >= |framed|
      ensures intact ==> (exact <==> |accepted| + send.size == |framed|)
    {
      assert |accepted + send.Content()| == |accepted| + send.size;
    }

    /** A fresh connection waits for the socket to be writable. */
    constructor (capacity: nat, compression: bool, answers: nat -> Response)
      requires capacity > 0
      ensures this.compression == compression && this.answers == answers
      ensures send.Valid() && Snapshot() == Outlet([], 0, [], true, true, false, [])
      ensures Valid() && fresh(send) && fresh(send.buf) && open && pendingSend && intact && exact
      ensures accepted == framed == [] && send.size == 0 && send.buf.Length == capacity
    {
      send := new Buffer(capacity);
      this.compression, this.answers := compression, answers;
      pendingSend, open, failed, log := true, true, false, [];
      accepted, framed, queued := [], [], [];
      intact, exact := true, true;
    }

    /** What the socket takes leaves the queue. */
    method Took(bytes: seq<byte>, n: nat)
      requires Conserved() && 0 < n <= |bytes| && 0 < send.size <= |bytes|
      requires bytes[..send.size] == send.Content()
      modifies this`accepted, this`exact, send
      ensures Conserved() && send.Valid() && accepted == old(accepted) + bytes[..n] && send.size < old(send.size)
      ensures exact <==> old(exact) && n <= old(send.size)
      ensures send.writeHead == old(send.writeHead)
      ensures var k := Least(n, old(send.size));
              send.Content() == old(send.Content())[k..] && send.readHead == Wrap(send.buf.Length, old(send.readHead) + k)
    {
      hide Ring, HeadsFit, Wrap, Buffer.Content;
      ghost var content, before := send.Content(), accepted;
      TakenOff(accepted, content, bytes, n);
      exact := exact && n <= send.size;
      var k := send.RegisterRead(n);
      assert send.Content() == content[k..];
      accepted := accepted + bytes[..n];
      assert exact ==> accepted + send.Content() == before + content;
    }

    /** sock_send_buf. */
    method SockSend() returns (code: IoCode)
      requires Conserved() && send.size > 0
      modifies this, send
      ensures send.Valid() && (Snapshot(), code) == Pushed(old(Snapshot()), answers, send.buf.Length)
      ensures Conserved() && framed == old(framed) && queued == old(queued) && intact == old(intact)
      ensures pendingSend == old(pendingSend) && open == old(open)
      ensures failed <==> code == IocClosed || code == IocError
      ensures if code == IocOk then send.size < old(send.size)
              else accepted == old(accepted) && send.Cursors() == old(send.Cursors())
      ensures old(accepted) <= accepted && (exact ==> old(exact))
      ensures exact != old(exact) ==> old(send.size) == send.buf.Length && old(send.readHead) != 0
      ensures send.writeHead == old(send.writeHead)
    {
      hide Ring, HeadsFit, Buffer.Content, Wrap, Offered, Conserved, Answered;
      ConservedValid();
      var receipt := HandOver();
      failed := receipt == Gone || receipt == Torn;
      log := log + [receipt];
      code := match receipt
        case Took(_) => IocOk
        case Later => IocAgain
        case Gone => IocClosed
        case Torn => IocError;
    }

    /** The regions of the queue are handed to the system, and what it takes leaves the queue. */
    method HandOver() returns (receipt: Receipt)
      requires Conserved() && send.Valid() && send.size > 0
      modifies this`accepted, this`exact, send
      ensures send.Valid() && Conserved()
      ensures receipt == Answered(answers(|log|), old(send.Content()), old(send.readHead), send.buf.Length)
      ensures match receipt
              case Took(bs) =>
                var k := Least(|bs|, old(send.size));
                && send.Content() == old(send.Content())[k..] && send.readHead == Wrap(send.buf.Length, old(send.readHead) + k)
                && accepted == old(accepted) + bs && send.size < old(send.size)
              case _ => accepted == old(accepted) && exact == old(exact) && send.Cursors() == old(send.Cursors())
                        && send.Content() == old(send.Content())
      ensures exact ==> old(exact)
      ensures exact != old(exact) ==> old(send.size) == send.buf.Length && old(send.readHead) != 0
      ensures send.writeHead == old(send.writeHead)
    {
      hide Ring, RegionBytes, ReadRegions, HeadsFit, Buffer.Content, Wrap, Offered, Conserved, Answered;
      var rs := send.GetRegions(false);
      ContentStarts(send);
      var bytes := RegionBytes(send.buf[..], rs);
      receipt := Ask(bytes);
      if receipt.Took? {
        Took(bytes, |receipt.bs|);
      }
    }

    /** sendmsg. */
    method Ask(bytes: seq<byte>) returns (receipt: Receipt)
      requires send.Valid() && send.size > 0 && bytes == Offered(send.Content(), send.readHead, send.buf.Length)
      ensures receipt == Answered(answers(|log|), send.Content(), send.readHead, send.buf.Length)
      ensures receipt.Took? ==> 0 < |receipt.bs| <= |bytes| && receipt.bs == bytes[..|receipt.bs|]
    {
      hide Ring, Buffer.Content, HeadsFit, Offered;
      match answers(|log|)
      case Accept(n) => receipt := if n == 0 then Gone else Receipt.Took(bytes[..Min(n, |bytes|)]);
      case Retry => receipt := Later;
      case Closed => receipt := Gone;
      case Reset => receipt := Torn;
    }

    /** Sending moves no write head; it is exact unless the buffer was full. */
    ghost predicate Drained(head: nat, size: nat, whole: bool)
      reads this, send
    {
      send.writeHead == head && send.size <= size && (size < send.buf.Length ==> exact == whole)
    }

    /** empty_buffer. */
    method EmptyBuffer() returns (code: IoCode)
      requires Conserved()
      modifies this, send
      ensures Conserved() && framed == old(framed) && queued == old(queued) && intact == old(intact)
      ensures (Snapshot(), code) == Emptied(old(Snapshot()), answers, send.buf.Length)
      ensures open == old(open) && old(accepted) <= accepted && (exact ==> old(exact))
      ensures Drained(old(send.writeHead), old(send.size), old(exact))
      ensures code == IocOk ==> send.size == 0 && pendingSend == old(pendingSend)
      ensures code == IocAgain ==> pendingSend
      ensures code == IocClosed || code == IocError ==> failed && pendingSend == old(pendingSend)
    {
      hide Ring, HeadsFit, Pushed, Conserved, Buffer.Content, Emptied;
      ConservedValid();
      code := IocOk;
      ghost var all := Emptied(Snapshot(), answers, send.buf.Length);
      while send.size > 0 && code == IocOk
        invariant Conserved() && send.Valid()
        invariant if code == IocOk then Emptied(Snapshot(), answers, send.buf.Length) == all else (Snapshot(), code) == all
        invariant framed == old(framed) && queued == old(queued) && intact == old(intact)
        invariant open == old(open) && old(accepted) <= accepted && (exact ==> old(exact))
        invariant Drained(old(send.writeHead), old(send.size), old(exact))
        invariant code == IocAgain ==> pendingSend
        invariant code != IocAgain ==> pendingSend == old(pendingSend)
        invariant code == IocClosed || code == IocError ==> failed
        decreases if code == IocOk then send.size + 1 else 0
      {
        EmptiedOn(Snapshot(), answers, send.buf.Length);
        code := SockSend();
        if code == IocAgain {
          pendingSend := true;
        }
      }
      EmptiedOn(Snapshot(), answers, send.buf.Length);
    }

    /** EPOLLOUT in handle_connection_io. */
    method OnWritable()
      requires Valid() && open
      modifies this, send
      ensures Valid() && Snapshot() == Written(old(Snapshot()), answers, send.buf.Length)
      ensures framed == old(framed) && intact == old(intact) && (exact ==> old(exact))
      ensures old(accepted) <= accepted
      ensures Drained(old(send.writeHead), old(send.size), old(exact))
      ensures open && !failed && !pendingSend ==> send.size == 0
      ensures !open ==> failed
    {
      hide Ring, HeadsFit, Emptied;
      if pendingSend {
        pendingSend := false;
        var code := EmptyBuffer();
        if code == IocClosed || code == IocError {
          open := false;
        }
      }
    }

    /** send_packet up to the queue. `behind` is the byte behind its scratch arrays; a frame that does not
        fit ends the program. */
    method Queue(p: Packet, threshold: nat, behind: byte) returns (r: Built)
      requires Conserved()
      modifies this`framed, this`queued, this`intact, send, send.buf
      ensures r == Shape(p, compression, threshold, behind, old(send.size), send.buf.Length)
      ensures r == Framed ==>
                send.Valid() && Snapshot() == Queued(old(Snapshot()), p, compression, behind, send.buf.Length)
      ensures r == Framed ==>
                Conserved() && framed == old(framed) + Frame(p, compression, behind)
                && (intact <==> old(intact) && Lands(p, old(send.writeHead), send.buf.Length, compression, behind))
                && exact == old(exact)
                && (Lands(p, old(send.writeHead), send.buf.Length, compression, behind) ==>
                      send.writeHead == Turn(send.buf.Length, old(send.writeHead) + |Frame(p, compression, behind)|)
                      && send.size == old(send.size) + |Frame(p, compression, behind)|)
    {
      hide Ring, HeadsFit, Spell, Turn, Lands, Frame, Inner, Body, Buffer.Content, Queued, Conserved;
      var scratch := new Buffer(MAX_PACKET_SIZE);
      r := Build(scratch, p, compression, threshold, behind);
      if r != Framed {
        return;
      }
      FrameParts(p, compression, behind);
      var ok := Enqueue(scratch, p, behind);
      if !ok {
        return TooLarge;
      }
    }

    /** The framed packet is copied into the queue. */
    method Enqueue(scratch: Buffer, ghost p: Packet, ghost behind: byte) returns (ok: bool)
      requires Conserved() && scratch.Valid() && scratch != send && scratch.buf != send.buf
      requires scratch.buf.Length == MAX_PACKET_SIZE && |Frame(p, compression, behind)| <= MAX_PACKET_SIZE
      requires scratch.Content() == Frame(p, compression, behind) && scratch.size == |Frame(p, compression, behind)|
      requires |Inner(p, behind)| <= |Frame(p, compression, behind)|
      requires scratch.readHead == MAX_PACKET_SIZE - (|Frame(p, compression, behind)| - |Inner(p, behind)|)
      modifies this`framed, this`queued, this`intact, send, send.buf
      ensures var frame, inner := |Frame(p, compression, behind)|, |Inner(p, behind)|;
              ok <==> old(send.size) + frame + (if frame == MAX_PACKET_SIZE then frame - inner else 0) <= send.buf.Length
      ensures ok ==> send.Valid() && Snapshot() == Queued(old(Snapshot()), p, compression, behind, send.buf.Length)
      ensures ok ==>
                Conserved() && framed == old(framed) + Frame(p, compression, behind)
                && (intact <==> old(intact) && Lands(p, old(send.writeHead), send.buf.Length, compression, behind))
                && exact == old(exact)
                && (Lands(p, old(send.writeHead), send.buf.Length, compression, behind) ==>
                      send.writeHead == Turn(send.buf.Length, old(send.writeHead) + |Frame(p, compression, behind)|)
                      && send.size == old(send.size) + |Frame(p, compression, behind)|)
    {
      hide Ring, HeadsFit, Spell, Turn, Landed, Lands, LandsIntact, Frame, Inner, Body, Arrived, ReadRegions, RegionBytes,
           Buffer.Content, Head, Adds;
      ConservedValid();
      ghost var frame, head, cap := Frame(p, compression, behind), send.writeHead, send.buf.Length;
      ghost var k := |frame| - |Inner(p, behind)|;
      SizeFits(send.Cursors(), cap);
      FrameParts(p, compression, behind);
      FrameInScratch(scratch, frame, k, head, cap);
      QueuedWhere(send.Cursors(), Snapshot(), cap);
      AddsWhat(p, compression, behind, head, cap);
      ghost var content, landed := send.Content(), Landed(frame, k, MAX_PACKET_SIZE, head, cap);
      ok := send.WriteBuffer(scratch);
      if !ok {
        return;
      }
      LandsIs(p, head, cap, compression, behind);
      Kept(queued, framed, landed, frame);
      Assoc(accepted, content, landed);
      intact := intact && landed == frame;
      framed, queued := framed + frame, queued + landed;
    }

    /** send_packet: the frame is queued, and sent unless the socket is known not to be writable. */
    method SendPacket(p: Packet, threshold: nat, behind: byte) returns (r: Built)
      requires Valid() && open
      modifies this, send, send.buf
      ensures r == Shape(p, compression, threshold, behind, old(send.size), send.buf.Length)
      ensures r == Framed ==>
                send.Valid() && Snapshot() == Passed(old(Snapshot()), p, compression, behind, answers, send.buf.Length)
      ensures r == Framed ==>
                Valid() && open && old(accepted) <= accepted && (exact ==> old(exact))
                && framed == old(framed) + Frame(p, compression, behind)
                && (intact <==> old(intact) && Lands(p, old(send.writeHead), send.buf.Length, compression, behind))
                && (Lands(p, old(send.writeHead), send.buf.Length, compression, behind) ==>
                      Drained(Turn(send.buf.Length, old(send.writeHead) + |Frame(p, compression, behind)|),
                              old(send.size) + |Frame(p, compression, behind)|, old(exact)))
    {
      hide Ring, HeadsFit, Spell, Turn, Landed, Lands, Frame, Inner, Body, Buffer.Content, Emptied, Queued, Shape;
      r := Queue(p, threshold, behind);
      if r == Framed && !pendingSend {
        ghost var frames, whole, head, size, x := framed, intact, send.writeHead, send.size, Snapshot();
        var code := IocOk;
        var again := true;
        while again
          invariant Conserved() && framed == frames && intact == whole && open && (exact ==> old(exact))
          invariant old(accepted) <= accepted
          invariant Drained(head, size, old(exact))
          invariant if again then Snapshot() == x else (Snapshot(), code) == Emptied(x, answers, send.buf.Length)
          invariant !again ==> send.size == 0 || code == IocAgain || failed
          decreases again
        {
          code := EmptyBuffer();
          again := code == IocOk && send.size > 0;
        }
        if code == IocAgain {
          pendingSend := true;
        }
      }
    }
  }

  lemma {:induction false} ContentStarts(b: Buffer)
    requires b.Valid()
    ensures InBounds(ReadRegions(b.Cursors(), b.buf.Length), b.buf.Length)
    ensures var bytes := RegionBytes(b.buf[..], ReadRegions(b.Cursors(), b.buf.Length));
            (|bytes| > b.size <==> b.size == b.buf.Length && b.readHead != 0)
            && b.size <= |bytes| && bytes[..b.size] == b.Content() && bytes == Offered(b.Content(), b.readHead, b.buf.Length)
  {
    hide RegionBytes, ReadRegions, Ring;
    RegionsOffer(b.Cursors(), b.buf[..]);
    RegionsStart(b.Cursors(), b.buf[..], b.size);
    var content := b.Content();
    assert content[..b.size] == content;
  }

  lemma {:induction false} FrameParts(p: Packet, compression: bool, behind: byte)
    ensures 0 < |Inner(p, behind)| < |Frame(p, compression, behind)|
  {
  }

  lemma {:induction false} FrameInScratch(scratch: Buffer, frame: seq<byte>, k: nat, head: nat, cap: nat)
    requires scratch.Valid() && scratch.Content() == frame && scratch.size == |frame| && head < cap
    requires 0 < k < |frame| <= scratch.buf.Length && scratch.readHead == scratch.buf.Length - k
    ensures InBounds(ReadRegions(scratch.Cursors(), scratch.buf.Length), scratch.buf.Length)
    ensures Arrived(scratch.buf[..], ReadRegions(scratch.Cursors(), scratch.buf.Length), head, cap)
            == Landed(frame, k, scratch.buf.Length, head, cap)
  {
    hide Ring, Arrived, Landed, ReadRegions;
    FrameRegions(frame, k, scratch.buf[..], head, cap);
  }

  datatype Event = Send(p: Packet) | Writable

  /** The packets of a run. */
  function Sent(events: seq<Event>): seq<Packet> {
    if events == [] then []
    else
      var n := |events| - 1;
      Sent(events[..n]) + if events[n].Send? then [events[n].p] else []
  }

  /** Their frames. */
  function FramesOf(ps: seq<Packet>, compression: bool, behind: byte): seq<byte> {
    if ps == [] then []
    else FramesOf(ps[..|ps| - 1], compression, behind) + Frame(ps[|ps| - 1], compression, behind)
  }

  lemma {:induction false} OneMore(ps: seq<Packet>, p: Packet, head: nat, cap: nat, compression: bool, behind: byte)
    requires 0 < cap
    ensures FramesOf(ps + [p], compression, behind) == FramesOf(ps, compression, behind) + Frame(p, compression, behind)
    ensures AllLand(ps + [p], head, cap, compression, behind)
            <==> AllLand(ps, head, cap, compression, behind)
                 && Lands(p, HeadAfter(ps, head, cap, compression, behind), cap, compression, behind)
    ensures HeadAfter(ps + [p], head, cap, compression, behind)
            == Turn(cap, HeadAfter(ps, head, cap, compression, behind) + |Frame(p, compression, behind)|)
  {
    hide Turn, Frame, Lands;
    assert (ps + [p])[..|ps|] == ps;
  }

  lemma {:induction false} SentMore(events: seq<Event>, n: nat)
    requires n < |events|
    ensures Sent(events[..n + 1]) == Sent(events[..n]) + if events[n].Send? then [events[n].p] else []
  {
    assert events[..n + 1][..n] == events[..n];
  }

  /** A connection when a run begins. */
  datatype Outset = Outset(head: nat, size: nat, intact: bool, exact: bool)

  /** After the packets `ps` have been sent: what has been framed, whether it landed, and where the write head
      is and how much room is taken if it did. */
  ghost predicate Tallied(c: Connection, ps: seq<Packet>, behind: byte, from: Outset)
    reads c, c.send, c.send.buf
  {
    && c.Valid() && c.framed == FramesOf(ps, c.compression, behind) && c.send.buf.Length > 0
    && var landed := AllLand(ps, from.head, c.send.buf.Length, c.compression, behind);
       && (c.intact <==> from.intact && landed)
       && (landed ==>
             c.send.writeHead == HeadAfter(ps, from.head, c.send.buf.Length, c.compression, behind)
             && c.send.size <= from.size + |c.framed|
             && (from.exact && from.size + |c.framed| < c.send.buf.Length ==> c.exact))
  }

  /** One packet or one writable event, unless the packet does not fit. */
  function Handled(x: Outlet, e: Event, compression: bool, threshold: nat, behind: byte, answers: nat -> Response, cap: nat)
    : (r: Option<Outlet>)
    requires Fits(x, cap)
    ensures r.Some? ==> Fits(r.value, cap)
  {
    match e
    case Writable => Some(Written(x, answers, cap))
    case Send(p) =>
      if Shape(p, compression, threshold, behind, |x.queue|, cap) == Framed
      then
        QueuedFits(x, p, compression, threshold, behind, cap);
        Some(Passed(x, p, compression, behind, answers, cap))
      else None
  }

  method HandleOne(c: Connection, e: Event, threshold: nat, behind: byte, ghost ps: seq<Packet>, ghost from: Outset)
    returns (over: bool, ghost sent: seq<Packet>)
    requires Tallied(c, ps, behind, from) && c.open
    modifies c, c.send, c.send.buf
    ensures sent == ps + if e.Send? then [e.p] else []
    ensures var r := Handled(old(c.Snapshot()), e, c.compression, threshold, behind, c.answers, c.send.buf.Length);
            (over <==> r == None) && (!over ==> c.send.Valid() && Some(c.Snapshot()) == r)
    ensures !over ==> Tallied(c, sent, behind, from) && old(c.accepted) <= c.accepted
  {
    hide Frame, Lands, Turn, Ring, HeadsFit, Buffer.Content, AllLand, HeadAfter, FramesOf, Shape, Passed, Written;
    over := false;
    match e {
      case Send(p) =>
        OneMore(ps, p, from.head, c.send.buf.Length, c.compression, behind);
        var r := c.SendPacket(p, threshold, behind);
        over := r != Framed;
        sent := ps + [p];
      case Writable =>
        sent := ps + [];
        assert sent == ps;
        c.OnWritable();
    }
  }

  /** A run of events until a packet does not fit or the connection is closed: how far it gets, and the
      connection then. */
  datatype Ran = Ran(x: Outlet, n: nat, over: bool)

  function Runs(x: Outlet, events: seq<Event>, compression: bool, threshold: nat, behind: byte, answers: nat -> Response,
                cap: nat): Ran
    requires Fits(x, cap)
    decreases |events|
  {
    if events == [] || !x.open then Ran(x, 0, false)
    else match Handled(x, events[0], compression, threshold, behind, answers, cap)
      case None => Ran(x, 0, true)
      case Some(y) =>
        var r := Runs(y, events[1..], compression, threshold, behind, answers, cap);
        r.(n := r.n + 1)
  }

  lemma {:induction false} RunsOn(x: Outlet, events: seq<Event>, n: nat, compression: bool, threshold: nat, behind: byte,
                                  answers: nat -> Response, cap: nat)
    requires Fits(x, cap) && n <= |events|
    ensures Runs(x, events[n..], compression, threshold, behind, answers, cap)
            == if n == |events| || !x.open then Ran(x, 0, false)
               else match Handled(x, events[n], compression, threshold, behind, answers, cap)
                 case None => Ran(x, 0, true)
                 case Some(y) =>
                   var r := Runs(y, events[n + 1..], compression, threshold, behind, answers, cap);
                   r.(n := r.n + 1)
  {
    hide Handled;
    if n < |events| {
      assert events[n..][1..] == events[n + 1..];
    }
  }

  /** Any interleaving of packets and writable events, with any answers of the socket, until a packet does
      not fit or the connection is closed. The bytes are conserved exactly when all frames land intact, as
      the write head at the start and the packets decide, and the bytes taken and queued are as many as were
      framed, which is certain while the frames leave room in the queue. No wake-up is lost. */
  method Drive(c: Connection, events: seq<Event>, threshold: nat, behind: byte) returns (n: nat, over: bool)
    requires c.Valid() && c.open && c.framed == []
    modifies c, c.send, c.send.buf
    ensures n <= |events| && (over || n == |events| || !c.open)
    ensures var r := Runs(old(c.Snapshot()), events, c.compression, threshold, behind, c.answers, c.send.buf.Length);
            n == r.n && over == r.over && (!over ==> c.send.Valid() && c.Snapshot() == r.x)
    ensures !over ==>
              var ps := Sent(events[..n]);
              var frames := FramesOf(ps, c.compression, behind);
              var landed := AllLand(ps, old(c.send.writeHead), c.send.buf.Length, c.compression, behind);
              c.Valid()
              && (c.accepted + c.send.Content() == frames
                  <==> old(c.intact) && landed && |c.accepted| + c.send.size == |frames|)
              && |c.accepted| + c.send.size >= |frames|
              && (old(c.intact && c.exact) && landed && old(c.send.size) + |frames| < c.send.buf.Length ==>
                    c.accepted + c.send.Content() == frames)
              && (c.open && c.send.size > 0 ==> c.pendingSend || c.failed)
  {
    hide Frame, Lands, Turn, Ring, HeadsFit, Buffer.Content, AllLand, HeadAfter, FramesOf, Sent, Handled, Runs;
    n, over := 0, false;
    ghost var ps, from := [], Outset(c.send.writeHead, c.send.size, c.intact, c.exact);
    ghost var cap, compression, answers := c.send.buf.Length, c.compression, c.answers;
    ghost var all := Runs(c.Snapshot(), events, compression, threshold, behind, answers, cap);
    SizeFits(c.send.Cursors(), cap);
    Nothing(from.head, cap, compression, behind);
    assert events[..0] == [] && events[0..] == events;
    while n < |events| && c.open
      invariant n <= |events| && ps == Sent(events[..n]) && Tallied(c, ps, behind, from)
      invariant var r := Runs(c.Snapshot(), events[n..], compression, threshold, behind, answers, cap);
                all == Ran(r.x, r.n + n, r.over)
    {
      SentMore(events, n);
      RunsOn(c.Snapshot(), events, n, compression, threshold, behind, answers, cap);
      over, ps := HandleOne(c, events[n], threshold, behind, ps, from);
      if over {
        return;
      }
      n := n + 1;
    }
    RunsOn(c.Snapshot(), events, n, compression, threshold, behind, answers, cap);
    c.Conservation();
  }

  lemma {:induction false} Nothing(head: nat, cap: nat, compression: bool, behind: byte)
    requires 0 < cap
    ensures Sent([]) == [] && FramesOf([], compression, behind) == []
    ensures AllLand([], head, cap, compression, behind) && HeadAfter([], head, cap, compression, behind) == head
  {
  }
}
