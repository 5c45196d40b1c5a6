/** The receiving half of a connection, from the socket to the handlers, and the scratch buffer of
    send_packet at the other end. */
module Receiver {
  import opened Bytes
  import opened ByteBuffer
  import opened VarInt
  import opened Framing
  import opened Inbound

  datatype Built = Framed | TooLarge | LeftToZlib

  /** send_packet up to the queueing: the identifier and the payload are written, the mark and the length put
      in front. A buffer that is too small ends the program; zlib takes over at the threshold. */
  method Build(scratch: Buffer, p: Packet, compression: bool, threshold: nat, behind: byte) returns (r: Built)
    requires scratch.Valid() && scratch.Cursors() == Heads(0, 0, 0)
    modifies scratch, scratch.buf
    ensures scratch.Valid()
    ensures r == if |Inner(p, behind)| > scratch.buf.Length then TooLarge
                 else if compression && |Inner(p, behind)| >= threshold then LeftToZlib
                 else if |Frame(p, compression, behind)| > scratch.buf.Length then TooLarge
                 else Framed
    ensures r == Framed ==>
              var size, cap := |Frame(p, compression, behind)|, scratch.buf.Length;
              scratch.Content() == Frame(p, compression, behind)
              && scratch.size == size && scratch.readHead == cap - (size - |Inner(p, behind)|)
  {
    hide Spell, Ring, Turn, Buffer.Content;
    var cap := scratch.buf.Length;
    var ok := WriteVarint(scratch, p.id, behind);
    if !ok {
      return TooLarge;
    }
    assert scratch.Content() == [] + Spell(p.id, behind) == Spell(p.id, behind);
    ok := scratch.Write(p.payload);
    if !ok {
      return TooLarge;
    }
    assert scratch.Content() == Inner(p, behind);
    if compression {
      if scratch.size >= threshold {
        return LeftToZlib;
      }
      ok := PrependVarint(scratch, 0, behind);
      if !ok {
        return TooLarge;
      }
    }
    assert scratch.Content() == Body(p, compression, behind);
    ok := PrependVarint(scratch, scratch.size, behind);
    r := if ok then Framed else TooLarge;
  }

  datatype Code = Ok | TryAgain | Error

  lemma {:induction false} ReadOn(cap: nat, read: nat, a: nat, b: nat)
    requires 0 < cap && b <= cap
    ensures Wrap(cap, Turn(cap, read + a) + b) == Turn(cap, read + a + b)
  {
    WrapIsMod(cap, Turn(cap, read + a) + b);
    TurnTurn(cap, read + a, b);
  }

  lemma {:induction false} Slices(s: seq<byte>, a: nat, b: nat, end: nat)
    requires a + b <= end <= |s|
    ensures s[a..][b..] == s[a + b..] && s[a + b..][..end - a - b] == s[a + b..end]
    ensures s[a + b..][end - a - b..] == s[end..]
  {
  }

  lemma {:induction false} IdResult(s: State, mark: nat, cap: nat, r: Reading)
    requires 0 < cap && 0 <= s.total <= |s.content| && mark <= |s.content|
    requires r == Scan(s.content[mark..], Turn(cap, s.read + mark), cap, 0)
    ensures DecodeId(s, mark, cap)
            == if r.Read? && mark + r.used <= s.total
               then Got(Packet(r.n, s.content[mark + r.used..s.total]),
                        State(s.content[s.total..], Turn(cap, s.read + s.total), 0))
               else Failed
  {
  }

  lemma {:induction false} SizeFits(h: Heads, cap: nat)
    requires HeadsFit(h, cap)
    ensures 0 < cap && h.size <= cap && h.read < cap && h.write < cap
  {
  }

  lemma {:induction false} FreeRegions(h: Heads, cap: nat)
    requires HeadsFit(h, cap) && h.size < cap
    ensures var rs := WriteRegions(h, cap);
            1 <= |rs| <= 2 && rs[0].start == h.write && 0 < rs[0].size <= cap - h.write
            && (|rs| == 1 ==> rs[0].size == cap - h.size)
            && (|rs| == 2 ==> rs[0].size == cap - h.write && rs[1].start == 0
                              && (h.size != 0 || h.read == 0 ==> rs[0].size + rs[1].size == cap - h.size)
                              && rs[1].size > 0 && cap - h.size <= rs[0].size + rs[1].size && rs[1].size <= cap)
            && (|rs| == 2 && h.size == 0 && h.read != 0 ==> rs[0].size + rs[1].size == 2 * cap - h.read)
            && (|rs| == 1 && h.size == 0 ==> h.read == 0)
  {
  }

  /** Bytes laid down at the write head, and on from the start of the array, extend the content. */
  lemma {:induction false} Scattered(cells: seq<byte>, h: Heads, a: seq<byte>, b: seq<byte>)
    requires HeadsFit(h, |cells|) && h.size + |a| + |b| <= |cells|
    requires |a| <= |cells| - h.write && (b != [] ==> |a| == |cells| - h.write)
    ensures var once := cells[..h.write] + a + cells[h.write + |a|..];
            Ring(once, h.read, h.size + |a|) == Ring(cells, h.read, h.size) + a
            && (b != [] ==> Ring(once[..0] + b + once[|b|..], h.read, h.size + |a| + |b|)
                            == Ring(cells, h.read, h.size) + (a + b))
  {
    hide Ring;
    var once := cells[..h.write] + a + cells[h.write + |a|..];
    assert once == Overlaid(cells, h.write, a);
    OverlayAfter(cells, h.read, h.size, a);
    if b != [] {
      OverlayAfter(once, h.read, h.size + |a|, b);
      assert once[..0] + b + once[|b|..] == Overlaid(once, 0, b);
      Assoc(Ring(cells, h.read, h.size), a, b);
    }
  }

  /** The receiving half of a connection; `total` is the cached length of the packet being received. The
      system does what `answers` says, one answer each time it is asked. */
  class Receiver {
    const recv: Buffer
    const compression: bool
    const answers: nat -> Answer
    var total: int
    var pendingRecv: bool
    var open: bool
    /** The socket has answered that it is closed or broken. */
    var failed: bool
    /** What has been handed to the handlers. */
    var delivered: seq<Packet>
    /** What the peer has sent and the socket has not given out yet. */
    var wire: seq<byte>
    /** What recvmsg has reported so far. */
    var log: seq<Reply>

    ghost predicate Valid()
      reads recv
    {
      recv.Valid()
    }

    ghost function Now(): (s: State)
      requires Valid()
      reads this`total, recv, recv.buf
      ensures s.read < recv.buf.Length
    {
      State(recv.Content(), recv.readHead, total)
    }

    ghost function Snapshot(): (x: Inlet)
      requires Valid()
      reads this, recv, recv.buf
      ensures Sized(x, recv.buf.Length)
    {
      Inlet(Now(), wire, pendingRecv, open, failed, delivered, log)
    }

    /** A connection that has just been accepted. */
    constructor (recv: Buffer, compression: bool, wire: seq<byte>, answers: nat -> Answer)
      requires recv.Valid()
      ensures this.recv == recv && this.compression == compression && this.answers == answers && Valid()
      ensures Snapshot() == Inlet(State(recv.Content(), recv.readHead, 0), wire, true, true, false, [], [])
    {
      this.recv, this.compression, total, this.wire, this.answers := recv, compression, 0, wire, answers;
      pendingRecv, open, failed, delivered, log := true, true, false, [], [];
    }

    /** sock_recv_buf: the operating system lays the bytes into the free regions. An empty buffer with its
        heads inside the array offers more room than it has; a system that uses it writes over what it has
        written, and `ok` is lost. */
    method SockRecv() returns (code: IoCode, ok: bool)
      requires Valid() && recv.size < recv.buf.Length
      modifies this`wire, this`log, recv, recv.buf
      ensures Valid()
      ensures Snapshot() == First(old(Snapshot()), answers, recv.buf.Length).(pending := pendingRecv)
      ensures ok <==> !Lost(Snapshot())
      ensures log != [] && code == match log[|log| - 1]
                                   case Bytes(_) => IocOk
                                   case TooMuch => IocOk
                                   case Wait => IocAgain
                                   case Eof => IocClosed
                                   case Fault => IocError
    {
      hide Ring, RegionBytes, WriteRegions, Given, HeadsFit, Buffer.Content;
      var rs := recv.GetRegions(true);
      FreeRegions(recv.Cursors(), recv.buf.Length);
      SizeFits(recv.Cursors(), recv.buf.Length);
      ghost var x := Snapshot();
      GivenReports(answers(|x.log|), x.s, x.wire, recv.buf.Length);
      var reply := Ask(rs[0].size + if |rs| == 1 then 0 else rs[1].size);
      if reply.Bytes? {
        Lay(reply.bs, rs);
        wire := wire[|reply.bs|..];
      }
      log := log + [reply];
      ok := reply != TooMuch;
      code := match reply
        case Bytes(_) => IocOk
        case TooMuch => IocOk
        case Wait => IocAgain
        case Eof => IocClosed
        case Fault => IocError;
    }

    /** The bytes that came in join the buffer. */
    method Lay(data: seq<byte>, rs: seq<Region>)
      requires Valid() && recv.size + |data| <= recv.buf.Length
      requires 1 <= |rs| <= 2 && rs[0].start == recv.writeHead && rs[0].size <= recv.buf.Length - recv.writeHead
      requires |rs| == 2 ==> rs[0].size == recv.buf.Length - recv.writeHead && rs[1].start == 0
      requires |data| <= rs[0].size || |rs| == 2
      modifies recv, recv.buf
      ensures Valid() && recv.Content() == old(recv.Content()) + data && recv.readHead == old(recv.readHead)
    {
      hide Ring, Wrap;
      Scatter(data, rs);
      recv.RegisterWrite(|data|);
    }

    /** recvmsg. */
    method Ask(room: nat) returns (reply: Reply)
      requires Valid() && recv.size < recv.buf.Length && room == Room(Now(), recv.buf.Length)
      ensures reply == Given(answers(|log|), Now(), wire, recv.buf.Length)
    {
      hide Ring, Buffer.Content;
      match answers(|log|)
      case NothingYet => reply := Wait;
      case HungUp => reply := Eof;
      case Broken => reply := Fault;
      case Data(n) =>
        var k := Min(n, Min(room, |wire|));
        if n == 0 {
          reply := Eof;
        } else if wire == [] {
          reply := Wait;
        } else {
          reply := if recv.Fits(k) then Bytes(wire[..k]) else TooMuch;
        }
    }

    method Scatter(data: seq<byte>, rs: seq<Region>)
      requires Valid() && recv.size + |data| <= recv.buf.Length
      requires 1 <= |rs| <= 2 && rs[0].start == recv.writeHead && rs[0].size <= recv.buf.Length - recv.writeHead
      requires |rs| == 2 ==> rs[0].size == recv.buf.Length - recv.writeHead && rs[1].start == 0
      requires |data| <= rs[0].size || |rs| == 2
      modifies recv.buf
      ensures Ring(recv.buf[..], recv.readHead, recv.size + |data|) == old(recv.Content()) + data
    {
      hide Ring, HeadsFit, Wrap;
      SizeFits(recv.Cursors(), recv.buf.Length);
      var first := Min(|data|, rs[0].size);
      Scattered(recv.buf[..], recv.Cursors(), data[..first], data[first..]);
      assert data[..first] + data[first..] == data;
      recv.Copy(rs[0].start, data[..first]);
      if first < |data| {
        recv.Copy(rs[1].start, data[first..]);
      } else {
        assert data[..first] == data;
      }
    }

    /** decode_common_data, before the payload: the length, if it is not known yet. */
    method DecodeLength() returns (code: Code)
      requires Valid()
      modifies this`total, recv
      ensures Valid()
      ensures var cap, was := recv.buf.Length, old(Now());
              match Decode(was, cap, compression)
              case Again(s) => code == TryAgain && Now() == s
              case d => (code == Error && d == Failed)
                        || (code == Ok && 0 <= total <= recv.size && d == DecodeBody(Now(), cap, compression))
    {
      hide Spell, Ring, DecodeBody, Scan;
      ghost var content, head := recv.Content(), recv.readHead;
      TurnSmall(recv.buf.Length, head);
      if total == 0 {
        var r := ReadVarint(recv);
        if r == Short {
          return TryAgain;
        } else if !r.Read? {
          return Error;
        }
        WrapIsMod(recv.buf.Length, head + r.used);
        total := r.n;
      } else {
        assert content[0..] == content;
      }
      if total < 0 || recv.size < total {
        return TryAgain;
      }
      code := Ok;
    }

    /** decode_common_data: the mark of an uncompressed packet. */
    method DecodeMark() returns (ok: bool, mark: nat)
      requires Valid() && 0 <= total <= recv.size
      modifies recv
      ensures Valid() && total == old(total)
      ensures var was, cap := old(Now()), recv.buf.Length;
              if ok then mark <= |was.content| && DecodeBody(was, cap, compression) == DecodeId(was, mark, cap)
                         && recv.Content() == was.content[mark..] && recv.readHead == Turn(cap, was.read + mark)
              else DecodeBody(was, cap, compression) == Failed
    {
      hide Spell, Ring, Scan, Turn, HeadsFit, Buffer.Content, DecodeId;
      ghost var was, cap := Now(), recv.buf.Length;
      SizeFits(recv.Cursors(), cap);
      ok, mark := true, 0;
      if compression {
        var r := ReadVarint(recv);
        if !r.Read? || r.n > 0 {
          return false, 0;
        }
        mark := r.used;
        ReadOn(cap, was.read, 0, mark);
      }
      TurnSmall(cap, was.read);
      assert was.content[0..] == was.content;
    }

    /** decode_common_data: the identifier; then a decoder that takes the whole payload. */
    method DecodePayload(ghost was: State, mark: nat) returns (code: Code, p: Packet)
      requires Valid() && 0 <= was.total <= |was.content| <= recv.buf.Length && was.read < recv.buf.Length
      requires total == was.total && mark <= |was.content|
      requires recv.Content() == was.content[mark..] && recv.readHead == Turn(recv.buf.Length, was.read + mark)
      modifies this`total, recv
      ensures Valid()
      ensures match DecodeId(was, mark, recv.buf.Length)
              case Got(q, s) => code == Ok && p == q && Now() == s
              case _ => code == Error
    {
      hide DecodeId, Spell, Ring, Scan, Turn, Wrap, HeadsFit, AfterRead, Buffer.Content, Buffer.Cursors;
      ghost var content, cap := was.content, recv.buf.Length;
      code, p := Error, Packet(0, []);
      var id := ReadVarint(recv);
      IdResult(was, mark, cap, id);
      if !id.Read? || mark + id.used > total {
        return;
      }
      ReadOn(cap, was.read, mark, id.used);
      Slices(content, mark, id.used, total);
      var payload := recv.Read(total - mark - id.used);
      ReadOn(cap, was.read, mark + id.used, |payload|);
      assert recv.Content() == content[total..] && recv.readHead == Turn(cap, was.read + total);
      total := 0;
      code, p := Ok, Packet(id.n, payload);
    }

    /** receive_packet: packets are decoded, and handed to handlers that accept them, until one is not
        complete or not well formed. */
    method ReceivePacket() returns (packets: seq<Packet>, waiting: bool)
      requires Valid()
      modifies this`total, recv
      ensures Valid()
      ensures Same(Receive(old(Now()), recv.buf.Length, compression), Outcome(packets, Now(), waiting))
    {
      hide Receive, Decode, DecodeBody, DecodeId, Ring, Turn, HeadsFit;
      ghost var was, cap := Now(), recv.buf.Length;
      ghost var all := Receive(was, cap, compression);
      packets, waiting := [], false;
      var code := Ok;
      while code == Ok
        invariant Valid()
        invariant code == Ok ==> !waiting && Same(all, After(packets, Receive(Now(), cap, compression)))
        invariant code != Ok ==> Same(all, Outcome(packets, Now(), waiting))
        decreases if code == Ok then recv.size + 1 else 0
      {
        ghost var s := Now();
        assert packets + [] == packets;
        Unfold(s, cap, compression);
        Smaller(s, cap, compression);
        code := DecodeLength();
        if code == Ok {
          var p: Packet;
          ghost var rest := Now();
          SizeFits(recv.Cursors(), cap);
          var ok, mark := DecodeMark();
          if ok {
            code, p := DecodePayload(rest, mark);
          } else {
            code := Error;
          }
          if code == Ok {
            Assoc(packets, [p], Receive(Now(), cap, compression).packets);
            packets := packets + [p];
          }
        } else {
          waiting := code == TryAgain;
        }
      }
    }

    /** fill_buffer: the socket is read until the buffer is full or the socket has no more; the worst code
        counts. */
    method FillBuffer() returns (res: IoCode, ok: bool)
      requires Valid() && !Lost(Snapshot())
      modifies this`wire, this`log, this`pendingRecv, recv, recv.buf
      ensures Valid() && (Snapshot(), res) == FillUp(old(Snapshot()), answers, recv.buf.Length, IocAgain)
      ensures ok <==> !Lost(Snapshot())
    {
      hide Ring, HeadsFit, Given, Joined, Buffer.Content, FillUp, First;
      ghost var all := FillUp(Snapshot(), answers, recv.buf.Length, IocAgain);
      var code := IocOk;
      res, ok := IocAgain, true;
      while recv.size < recv.buf.Length && code == IocOk && ok
        invariant Valid() && |Now().content| == recv.size && (ok <==> !Lost(Snapshot()))
        invariant if code == IocOk && ok then FillUp(Snapshot(), answers, recv.buf.Length, res) == all
                  else (Snapshot(), res) == all
        decreases if code == IocOk && ok then recv.buf.Length - recv.size + 1 else 0
      {
        ghost var x := Snapshot();
        FillOn(x, answers, recv.buf.Length, res);
        code, ok := SockRecv();
        if ok && Worse(code, res) {
          res := code;
        }
        if code == IocAgain {
          pendingRecv := true;
        }
      }
      FillOn(Snapshot(), answers, recv.buf.Length, res);
    }

    /** EPOLLIN in handle_connection_io: the buffer is filled, and packets are received, until the socket has
        no more or there is no room. */
    method OnReadable() returns (ok: bool)
      requires Valid() && open && !failed && !Lost(Snapshot())
      modifies this, recv, recv.buf
      ensures Valid() && Alike(Snapshot(), Served(old(Snapshot()), answers, recv.buf.Length, compression))
      ensures ok <==> !Lost(Snapshot())
    {
      hide Receive, Ring, HeadsFit, FillUp, Serve, Buffer.Content;
      ok := true;
      if !pendingRecv {
        return;
      }
      pendingRecv := false;
      var code;
      code, ok := FillBuffer();
      ghost var cap := recv.buf.Length;
      ghost var all := Serve(Snapshot(), answers, cap, compression, code);
      ServeOn(Snapshot(), answers, cap, compression, code);
      while ok && code == IocOk
        invariant Valid() && (ok <==> !Lost(Snapshot())) && !failed
        invariant if ok && code == IocOk then open && Serve(Snapshot(), answers, cap, compression, code) == all
                  else Alike(Snapshot(), all.0) && (ok ==> code == all.1) && (open ==> Snapshot() == all.0)
        decreases |wire|, ok && code == IocOk
      {
        code, ok := Round(all);
      }
      if ok && open && (code == IocClosed || code == IocError) {
        open, failed := false, true;
      }
    }

    /** One round of the loop: receive_packet, and fill_buffer unless the connection waits. */
    method Round(ghost all: (Inlet, IoCode)) returns (code: IoCode, ok: bool)
      requires Valid() && !Lost(Snapshot()) && open && !failed
      requires Serve(Snapshot(), answers, recv.buf.Length, compression, IocOk) == all
      modifies this, recv, recv.buf
      ensures Valid() && (ok <==> !Lost(Snapshot())) && !failed && |wire| <= |old(wire)|
      ensures ok && code == IocOk ==> |wire| < |old(wire)|
      ensures if ok && code == IocOk then open && Serve(Snapshot(), answers, recv.buf.Length, compression, code) == all
              else Alike(Snapshot(), all.0) && (ok ==> code == all.1) && (open ==> Snapshot() == all.0)
    {
      hide Receive, Ring, HeadsFit, FillUp, Buffer.Content;
      ghost var cap, x := recv.buf.Length, Snapshot();
      ReceiveSized(Now(), cap, compression);
      var packets, waiting := ReceivePacket();
      delivered := delivered + packets;
      ok := true;
      code := if waiting then IocAgain else IocError;
      if !waiting {
        open := false;
      } else if !pendingRecv {
        ghost var y := Snapshot();
        code, ok := FillBuffer();
        ServeOn(Snapshot(), answers, cap, compression, code);
      }
    }
  }

  /** Where the loop goes on, and where it stops. */
  lemma {:induction false} ServeOn(x: Inlet, answers: nat -> Answer, cap: nat, compression: bool, code: IoCode)
    requires Sized(x, cap)
    ensures code != IocOk || Lost(x) ==> Serve(x, answers, cap, compression, code) == (x, code)
  {
  }

  /** A whole session: the peer sends a stream of packets, the socket gives the bytes out and wakes the
      connection as the system likes. As long as the system does not write over what it has written, what is
      delivered is a beginning of what was sent; an open connection waits for the socket, unless a packet is
      larger than the buffer; a packet closes it only if a length or an identifier straddles the end of the
      ring; and once all bytes are out, all packets have been delivered exactly when none does. Enough wake-ups
      that find bytes bring all of them out. */
  method Session(rx: Receiver, ghost ps: seq<Packet>, wakeups: nat) returns (ok: bool)
    requires rx.Valid() && rx.recv.size == 0 && rx.total == 0 && rx.open && rx.pendingRecv && !rx.failed
    requires rx.delivered == [] && rx.log == [] && rx.recv.buf.Length >= 5
    requires rx.wire == Stream(ps, rx.compression) && AllSendable(ps, rx.compression)
    modifies rx, rx.recv, rx.recv.buf
    ensures rx.Valid() && (ok <==> !Lost(rx.Snapshot()))
    ensures Alike(rx.Snapshot(), Wakes(old(rx.Snapshot()), rx.answers, rx.recv.buf.Length, rx.compression, wakeups))
    ensures ok ==>
              Serves(rx.Snapshot(), old(rx.recv.readHead), ps, rx.recv.buf.Length, rx.compression,
                     Fitting(ps, rx.recv.buf.Length, rx.compression) && |Stream(ps, rx.compression)| <= wakeups
                     && Lively(old(rx.Snapshot()), rx.answers, rx.recv.buf.Length, rx.compression, wakeups))
  {
    hide Receive, Ring, HeadsFit, Stream, AllInside, Sendable, Served, Wakes, Lively, Fitting, AllSendable, Serves;
    ghost var cap, compression, answers, x := rx.recv.buf.Length, rx.compression, rx.answers, rx.Snapshot();
    ghost var read := rx.recv.readHead;
    ghost var all := Wakes(x, answers, cap, compression, wakeups);
    ok := true;
    assert x.s == State([], read, 0);
    var i := 0;
    WakesOn(x, answers, cap, compression, wakeups);
    while i < wakeups && rx.open && ok
      invariant i <= wakeups && rx.Valid() && (ok <==> !Lost(rx.Snapshot())) && (rx.open ==> !rx.failed)
      invariant Alike(Wakes(rx.Snapshot(), answers, cap, compression, wakeups - i), all)
      invariant !(rx.open && ok) ==> Alike(rx.Snapshot(), all)
    {
      ghost var next := Served(rx.Snapshot(), answers, cap, compression);
      WakesOn(rx.Snapshot(), answers, cap, compression, wakeups - i);
      ok := rx.OnReadable();
      i := i + 1;
      WakesOn(rx.Snapshot(), answers, cap, compression, wakeups - i);
      WakesOn(next, answers, cap, compression, wakeups - i);
    }
    WakesOn(rx.Snapshot(), answers, cap, compression, wakeups - i);
    if ok {
      WakesServe(read, x, rx.Snapshot(), ps, answers, cap, compression, wakeups);
    }
  }
}
