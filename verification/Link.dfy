/** A sender and a receiver joined by a socket: what the one hands over the other is given, in order, as
    much at a time and as often as the system likes. */
module Link {
  import opened Bytes
  import opened ByteBuffer
  import opened VarInt
  import opened Framing
  import opened Wrappers
  import opened Inbound
  import opened Outbound
  import opened Receiver
  import opened SendPath

  /** The byte behind the scratch array leaves no trace in the frame of a packet that can be sent. */
  lemma {:induction false} FrameSame(p: Packet, compression: bool, behind: byte)
    requires Sendable(p, compression)
    ensures Frame(p, compression, behind) == Frame(p, compression, 0)
  {
    SpellSame(p.id, behind, 0);
    SpellSame(0, behind, 0);
    SpellSame(|Body(p, compression, 0)|, behind, 0);
  }

  lemma {:induction false} FramesAreStream(ps: seq<Packet>, compression: bool, behind: byte)
    requires forall p :: p in ps ==> Sendable(p, compression)
    ensures FramesOf(ps, compression, behind) == Stream(ps, compression)
    decreases |ps|
  {
    hide Frame, Sendable;
    if ps != [] {
      var n := |ps| - 1;
      FramesAreStream(ps[..n], compression, behind);
      FrameSame(ps[n], compression, behind);
      assert ps[..n] + [ps[n]] == ps;
      StreamMore(ps[..n], ps[n], compression);
    }
  }

  lemma {:induction false} StreamMore(ps: seq<Packet>, p: Packet, compression: bool)
    ensures Stream(ps + [p], compression) == Stream(ps, compression) + Frame(p, compression, 0)
    decreases |ps|
  {
    hide Frame;
    if ps == [] {
      assert [p][1..] == [] && Stream([p], compression) == Frame(p, compression, 0) + Stream([], compression);
      assert [] + [p] == [p];
    } else {
      assert (ps + [p])[1..] == ps[1..] + [p];
      StreamMore(ps[1..], p, compression);
    }
  }

  datatype LinkEvent = AtSender(e: Event) | Readable

  /** The packets of a run. */
  function SentBy(events: seq<LinkEvent>): seq<Packet> {
    if events == [] then []
    else
      var n := |events| - 1;
      SentBy(events[..n]) + if events[n].AtSender? && events[n].e.Send? then [events[n].e.p] else []
  }

  lemma {:induction false} SentByMore(events: seq<LinkEvent>, n: nat)
    requires n < |events|
    ensures SentBy(events[..n + 1])
            == SentBy(events[..n]) + if events[n].AtSender? && events[n].e.Send? then [events[n].e.p] else []
  {
    assert events[..n + 1][..n] == events[..n];
  }

  lemma {:induction false} NothingSent()
    ensures SentBy([]) == []
  {
  }

  /** New bytes on the wire. */
  lemma {:induction false} Handed(taken: seq<byte>, wire: seq<byte>, was: seq<byte>, now: seq<byte>)
    requires taken + wire == was && was <= now
    ensures taken + (wire + now[|was|..]) == now
  {
  }

  /** Both ends. */
  datatype Line = Line(out: Outlet, inn: Inlet)

  /** What does not change: how packets are framed, the answers of the system at both ends, and the rings. */
  datatype Setting = Setting(compression: bool, threshold: nat, behind: byte, takes: nat -> Response, gives: nat -> Answer,
                             scap: nat, rcap: nat)

  predicate LineFits(l: Line, k: Setting) {
    Fits(l.out, k.scap) && Sized(l.inn, k.rcap)
  }

  predicate Running(l: Line) {
    l.out.open && l.inn.open && !Lost(l.inn)
  }

  /** What the socket takes at one end is on the way to the other. */
  function HandOver(l: Line, out: Outlet): Line {
    Line(out, l.inn.(wire := l.inn.wire + if |l.out.accepted| <= |out.accepted| then out.accepted[|l.out.accepted|..] else []))
  }

  /** One event, unless a packet does not fit. */
  function Moved(l: Line, e: LinkEvent, k: Setting): (r: Option<Line>)
    requires LineFits(l, k)
    ensures r.Some? ==> LineFits(r.value, k)
  {
    match e
    case Readable => Some(Line(l.out, Served(l.inn, k.gives, k.rcap, k.compression)))
    case AtSender(e) =>
      match Handled(l.out, e, k.compression, k.threshold, k.behind, k.takes, k.scap)
      case None => None
      case Some(out) => Some(HandOver(l, out))
  }

  datatype Played = Played(l: Line, n: nat, over: bool)

  function Plays(l: Line, events: seq<LinkEvent>, k: Setting): Played
    requires LineFits(l, k)
    decreases |events|
  {
    if events == [] || !Running(l) then Played(l, 0, false)
    else match Moved(l, events[0], k)
      case None => Played(l, 0, true)
      case Some(l') =>
        var r := Plays(l', events[1..], k);
        r.(n := r.n + 1)
  }

  lemma {:induction false} PlaysOn(l: Line, events: seq<LinkEvent>, n: nat, k: Setting)
    requires LineFits(l, k) && n <= |events|
    ensures Plays(l, events[n..], k)
            == if n == |events| || !Running(l) then Played(l, 0, false)
               else match Moved(l, events[n], k)
                 case None => Played(l, 0, true)
                 case Some(l') =>
                   var r := Plays(l', events[n + 1..], k);
                   r.(n := r.n + 1)
  {
    hide Moved, Running;
    if n < |events| {
      assert events[n..][1..] == events[n + 1..];
    }
  }

  predicate LineAlike(a: Line, b: Line) {
    a.out == b.out && Alike(a.inn, b.inn)
  }

  ghost function Ends(c: Connection, rx: Receiver): (l: Line)
    requires c.send.Valid() && rx.Valid()
    reads c, c.send, c.send.buf, rx, rx.recv, rx.recv.buf
  {
    Line(c.Snapshot(), rx.Snapshot())
  }

  function Settings(c: Connection, rx: Receiver, threshold: nat, behind: byte): Setting
    reads c, c.send, rx, rx.recv
  {
    Setting(c.compression, threshold, behind, c.answers, rx.answers, c.send.buf.Length, rx.recv.buf.Length)
  }

  /** What the bytes on the way come to. */
  lemma {:induction false} WholePath(c: Connection, x: Inlet, ps: seq<Packet>, behind: byte, from: Outset, read: nat, cap: nat)
    requires Tallied(c, ps, behind, from) && Between(State([], read, 0), x, cap, c.compression) && !Lost(x)
    requires Joined(x.log) + x.wire == c.accepted && read < cap && 5 <= cap
    ensures Complete(c, x, ps, behind, from, read, cap)
  {
    hide Receive, Ring, HeadsFit, Stream, AllInside, Sendable, Frame, Lands, Turn, Buffer.Content, AllLand, HeadAfter,
         FramesOf, Between, AllSendable, Joined, Connection.Conserved;
    TalliedValid(c, ps, behind, from);
    if Whole(c, ps, behind, from) {
      c.Conservation();
      FramesAreStream(ps, c.compression, behind) by {
        AreSendable(ps, c.compression);
      }
      assert Stream(ps, c.compression) == Joined(x.log) + (x.wire + c.send.Content()) by {
        Assoc(Joined(x.log), x.wire, c.send.Content());
      }
      BetweenStream(read, x, ps, cap, c.compression);
      if c.send.size == 0 && x.wire == [] {
        assert x.wire + c.send.Content() == [];
        assert Joined(x.log) + [] == Joined(x.log);
      }
    }
  }

  lemma {:induction false} AreSendable(ps: seq<Packet>, compression: bool)
    requires AllSendable(ps, compression)
    ensures forall p :: p in ps ==> Sendable(p, compression)
  {
  }

  /** All packets can be sent, all frames have landed, and as many bytes have been taken and queued as were
      framed. */
  ghost predicate Whole(c: Connection, ps: seq<Packet>, behind: byte, from: Outset)
    requires c.send.buf.Length > 0
    reads c, c.send, c.send.buf
  {
    && AllSendable(ps, c.compression)
    && from.intact && AllLand(ps, from.head, c.send.buf.Length, c.compression, behind)
    && |c.accepted| + c.send.size == |FramesOf(ps, c.compression, behind)|
  }

  /** What is delivered is a beginning of what was sent; and when all bytes are out and taken, all that was sent
      has been delivered exactly when no length and no identifier straddles the end of the receiver's ring. */
  ghost predicate Complete(c: Connection, x: Inlet, ps: seq<Packet>, behind: byte, from: Outset, read: nat, cap: nat)
    requires c.send.buf.Length > 0 && cap > 0
    reads c, c.send, c.send.buf
  {
    Whole(c, ps, behind, from) ==>
      && x.delivered <= ps
      && (c.send.size == 0 && x.wire == [] && !x.failed ==> (x.delivered == ps <==> AllInside(ps, read, cap, c.compression)))
  }

  /** The whole path: packets are framed and queued, the socket takes of the queue and gives to the receiver
      as it likes, and both ends are woken in any order. */
  method Run(c: Connection, rx: Receiver, events: seq<LinkEvent>, threshold: nat, behind: byte)
    returns (n: nat, over: bool, ok: bool)
    requires c.Valid() && c.open && c.framed == [] && c.accepted == [] && c.send.buf.Length > 0
    requires rx.Valid() && rx.recv.size == 0 && rx.total == 0 && rx.open && rx.pendingRecv && !rx.failed
    requires rx.delivered == [] && rx.log == [] && rx.wire == [] && rx.recv.buf.Length >= 5
    requires rx.compression == c.compression && c.send != rx.recv && c.send.buf != rx.recv.buf
    modifies c, c.send, c.send.buf, rx, rx.recv, rx.recv.buf
    ensures var r := Plays(old(Ends(c, rx)), events, Settings(c, rx, threshold, behind));
            && n == r.n && over == r.over
            && (!over ==> c.send.Valid() && rx.Valid() && LineAlike(Ends(c, rx), r.l) && (ok <==> !Lost(rx.Snapshot())))
    ensures !over && ok ==>
              && n <= |events| && (n == |events| || !c.open || !rx.open) && c.Valid() && c.send.buf.Length > 0
              && Joined(rx.log) + rx.wire == c.accepted
              && Complete(c, rx.Snapshot(), SentBy(events[..n]), behind,
                          old(Outset(c.send.writeHead, c.send.size, c.intact, c.exact)), old(rx.recv.readHead),
                          rx.recv.buf.Length)
  {
    hide Receive, Ring, HeadsFit, Stream, AllInside, Sendable, Frame, Lands, Turn, Buffer.Content, AllLand, HeadAfter,
         FramesOf, SentBy, Tallied, Between, Served, Handled, Joined, Plays, Complete, Connection.Conserved, OnPath, Moved;
    c.ConservedValid();
    n, over, ok := 0, false, true;
    ghost var k, read, x := Settings(c, rx, threshold, behind), rx.recv.readHead, rx.Snapshot();
    ghost var ps, from := [], Outset(c.send.writeHead, c.send.size, c.intact, c.exact);
    ghost var all := Plays(Ends(c, rx), events, k);
    Begins(c, rx, behind, from, read);
    NothingSent();
    assert events[..0] == [] && events[0..] == events;
    while n < |events| && c.open && rx.open && ok
      invariant n <= |events| && ps == SentBy(events[..n]) && c.send.Valid() && rx.Valid()
      invariant (ok <==> !Lost(rx.Snapshot())) && OnPath(c, rx, ps, behind, from, read)
      invariant var r := Plays(Ends(c, rx), events[n..], k);
                all.n == r.n + n && all.over == r.over && (!r.over ==> LineAlike(r.l, all.l))
    {
      SentByMore(events, n);
      PlaysOn(Ends(c, rx), events, n, k);
      ghost var next := Moved(Ends(c, rx), events[n], k);
      over, ok, ps := Step(c, rx, events[n], threshold, behind, ps, from, read);
      if over {
        return;
      }
      PlaysAlike(Ends(c, rx), next.value, events[n + 1..], k);
      n := n + 1;
    }
    PlaysOn(Ends(c, rx), events, n, k);
    if ok {
      Arrives(c, rx, ps, behind, from, read);
    }
  }

  /** How far the bytes have come. */
  ghost predicate OnPath(c: Connection, rx: Receiver, ps: seq<Packet>, behind: byte, from: Outset, read: nat)
    reads c, c.send, c.send.buf, rx, rx.recv, rx.recv.buf
  {
    && Tallied(c, ps, behind, from) && c.Valid() && rx.Valid() && read < rx.recv.buf.Length && rx.compression == c.compression
    && (rx.open ==> !rx.failed)
    && (!Lost(rx.Snapshot()) ==>
          Between(State([], read, 0), rx.Snapshot(), rx.recv.buf.Length, rx.compression)
          && Joined(rx.log) + rx.wire == c.accepted)
  }

  lemma {:induction false} Arrives(c: Connection, rx: Receiver, ps: seq<Packet>, behind: byte, from: Outset, read: nat)
    requires OnPath(c, rx, ps, behind, from, read) && rx.Valid() && !Lost(rx.Snapshot()) && rx.recv.buf.Length >= 5
    ensures c.Valid() && c.send.buf.Length > 0 && Joined(rx.log) + rx.wire == c.accepted
    ensures Complete(c, rx.Snapshot(), ps, behind, from, read, rx.recv.buf.Length)
  {
    hide Receive, Ring, HeadsFit, AllLand, HeadAfter, FramesOf, Between, Joined, Complete, Connection.Conserved, Tallied;
    TalliedValid(c, ps, behind, from);
    WholePath(c, rx.Snapshot(), ps, behind, from, read, rx.recv.buf.Length);
  }

  /** One event at either end. */
  method Step(c: Connection, rx: Receiver, e: LinkEvent, threshold: nat, behind: byte, ghost ps: seq<Packet>,
              ghost from: Outset, ghost read: nat)
    returns (over: bool, ok: bool, ghost sent: seq<Packet>)
    requires OnPath(c, rx, ps, behind, from, read) && c.send.Valid() && rx.Valid() && Running(Ends(c, rx))
    requires c.send != rx.recv && c.send.buf != rx.recv.buf
    modifies c, c.send, c.send.buf, rx, rx.recv, rx.recv.buf
    ensures sent == ps + if e.AtSender? && e.e.Send? then [e.e.p] else []
    ensures var r := Moved(old(Ends(c, rx)), e, Settings(c, rx, threshold, behind));
            && (over <==> r == None)
            && (!over ==> c.send.Valid() && rx.Valid() && LineAlike(Ends(c, rx), r.value) && (ok <==> !Lost(rx.Snapshot())))
    ensures !over ==> OnPath(c, rx, sent, behind, from, read)
  {
    hide Receive, Ring, HeadsFit, Frame, Lands, Turn, Buffer.Content, AllLand, HeadAfter, FramesOf, Tallied, Between, Served,
         Handled, Joined, Connection.Conserved;
    over, ok := false, true;
    match e {
      case AtSender(e) =>
        ghost var was := c.accepted;
        var before := |c.accepted|;
        over, sent := HandleOne(c, e, threshold, behind, ps, from);
        if over {
          return;
        }
        TalliedValid(c, sent, behind, from);
        Handed(Joined(rx.log), rx.wire, was, c.accepted);
        BetweenWire(State([], read, 0), rx.Snapshot(), rx.wire + c.accepted[before..], rx.recv.buf.Length, rx.compression);
        rx.wire := rx.wire + c.accepted[before..];
      case Readable =>
        sent := ps + [];
        assert sent == ps;
        ghost var now, cap := rx.Snapshot(), rx.recv.buf.Length;
        ghost var next := Served(now, rx.answers, cap, rx.compression);
        ServedBetween(State([], read, 0), now, rx.answers, cap, rx.compression);
        ok := rx.OnReadable();
        BetweenAlike(State([], read, 0), rx.Snapshot(), next, cap, rx.compression);
    }
  }

  lemma {:induction false} TalliedValid(c: Connection, ps: seq<Packet>, behind: byte, from: Outset)
    requires Tallied(c, ps, behind, from)
    ensures c.Valid() && c.send.Valid() && c.send.buf.Length > 0
  {
    hide AllLand, HeadAfter, FramesOf, Turn;
  }

  lemma {:induction false} BetweenWire(start: State, x: Inlet, wire: seq<byte>, cap: nat, compression: bool)
    requires Between(start, x, cap, compression)
    ensures Between(start, x.(wire := wire), cap, compression)
  {
  }

  /** A run that has come to its end in ends that are alike has come to the same. */
  lemma {:induction false} PlaysAlike(a: Line, b: Line, events: seq<LinkEvent>, k: Setting)
    requires LineFits(a, k) && LineFits(b, k) && LineAlike(a, b)
    ensures var r, s := Plays(a, events, k), Plays(b, events, k);
            r.n == s.n && r.over == s.over && (!r.over ==> LineAlike(r.l, s.l))
  {
    hide Moved;
    if a != b {
      assert !Running(a) && !Running(b);
    }
  }

  lemma {:induction false} Begins(c: Connection, rx: Receiver, behind: byte, from: Outset, read: nat)
    requires c.Valid() && c.framed == [] && c.accepted == [] && rx.compression == c.compression
    requires from == Outset(c.send.writeHead, c.send.size, c.intact, c.exact) && read == rx.recv.readHead
    requires rx.Valid() && rx.recv.size == 0 && rx.total == 0 && rx.open && rx.pendingRecv && !rx.failed
    requires rx.delivered == [] && rx.log == [] && rx.wire == []
    ensures OnPath(c, rx, [], behind, from, read)
  {
    hide Frame, Lands, Turn, AllLand, HeadAfter, FramesOf, Between;
    SizeFits(c.send.Cursors(), c.send.buf.Length);
    Nothing(from.head, c.send.buf.Length, c.compression, behind);
    StartsBetween(read, rx.Snapshot(), rx.recv.buf.Length, rx.compression);
  }

  // Everything arrives

  /** A wake-up at each end, `n` times. */
  function Rounds(n: nat): seq<LinkEvent> {
    if n == 0 then [] else [AtSender(Writable), Readable] + Rounds(n - 1)
  }

  /** Each wake-up of the sender finds a socket that takes bytes, as long as there are any queued, and each of the
      receiver one that gives some, as long as there are any on the way. */
  predicate AllLively(l: Line, k: Setting, n: nat)
    requires LineFits(l, k)
    decreases n
  {
    n == 0 || !Running(l)
    || ((l.out.queue == [] || (k.takes(|l.out.log|).Accept? && k.takes(|l.out.log|).n > 0))
        && var m := Moved(l, AtSender(Writable), k).value;
           (!Running(m)
            || ((m.inn.wire == [] || (k.gives(|m.inn.log|).Data? && k.gives(|m.inn.log|).n > 0))
                && AllLively(Moved(m, Readable, k).value, k, n - 1))))
  }

  /** The stream of `ps`, part of it delivered or to be decoded, part on the way, part queued; who has bytes
      queued waits for the socket. */
  ghost predicate Carries(l: Line, ps: seq<Packet>, read: nat, k: Setting) {
    && LineFits(l, k) && 5 <= k.rcap && read < k.rcap && |l.out.queue| < k.scap
    && AllSendable(ps, k.compression) && Fitting(ps, k.rcap, k.compression)
    && (l.out.queue != [] ==> l.out.pending || !l.out.open)
    && (!Lost(l.inn) ==>
          Between(State([], read, 0), l.inn, k.rcap, k.compression)
          && Joined(l.inn.log) + l.inn.wire + l.out.queue == Stream(ps, k.compression))
  }

  lemma {:induction false} CarriesWrite(l: Line, ps: seq<Packet>, read: nat, k: Setting)
    requires Carries(l, ps, read, k) && Running(l)
    ensures var m := Moved(l, AtSender(Writable), k).value;
            && Carries(m, ps, read, k) && !Lost(m.inn) && m.inn.open
            && |m.out.queue| + |m.inn.wire| == |l.out.queue| + |l.inn.wire| && |m.out.queue| <= |l.out.queue|
            && (l.out.queue != [] && k.takes(|l.out.log|).Accept? && k.takes(|l.out.log|).n > 0 ==> m.inn.wire != [])
  {
    hide Written, Joined, Stream, Between, AllSendable, Fitting;
    var out := Written(l.out, k.takes, k.scap);
    WrittenKeeps(l.out, k.takes, k.scap);
    WrittenWaits(l.out, k.takes, k.scap);
    var more := out.accepted[|l.out.accepted|..];
    assert out.accepted == l.out.accepted + more;
    Assoc(l.out.accepted, more, out.queue);
    CancelPrefix(l.out.accepted, l.out.queue, more + out.queue);
    Assoc(Joined(l.inn.log) + l.inn.wire, more, out.queue);
    Assoc(Joined(l.inn.log), l.inn.wire, more);
    BetweenWire(State([], read, 0), l.inn, l.inn.wire + more, k.rcap, k.compression);
    if l.out.queue != [] && k.takes(|l.out.log|).Accept? && k.takes(|l.out.log|).n > 0 {
      WrittenTakes(l.out, k.takes, k.scap);
    }
  }

  lemma {:induction false} WrittenWaits(x: Outlet, answers: nat -> Response, cap: nat)
    requires Fits(x, cap) && x.open && (x.queue != [] ==> x.pending)
    ensures var y := Written(x, answers, cap);
            y.queue != [] ==> y.pending || !y.open
  {
    if x.pending {
      WrittenEnds(x, answers, cap);
    }
  }

  lemma {:induction false} CarriesRead(l: Line, ps: seq<Packet>, read: nat, k: Setting)
    requires Carries(l, ps, read, k) && Running(l)
    ensures var m := Moved(l, Readable, k).value;
            && Carries(m, ps, read, k) && m.out == l.out && |m.inn.wire| <= |l.inn.wire|
            && (l.inn.wire != [] && k.gives(|l.inn.log|).Data? && k.gives(|l.inn.log|).n > 0 ==>
                  Lost(m.inn) || |m.inn.wire| < |l.inn.wire|)
  {
    hide Served, Joined, Stream, Between, AllSendable, Fitting, Reports;
    var x, all := l.inn, Stream(ps, k.compression);
    ServedBetween(State([], read, 0), x, k.gives, k.rcap, k.compression);
    assert Joined(x.log) <= all by {
      Assoc(Joined(x.log), x.wire, l.out.queue);
    }
    BetweenStream(read, x, ps, k.rcap, k.compression);
    if x.wire != [] && k.gives(|x.log|).Data? && k.gives(|x.log|).n > 0 {
      ServedTakes(x, k.gives, k.rcap, k.compression);
    }
  }

  /** Enough wake-ups at both ends empty the queue and the wire, unless an end is closed or the receiver's buffer
      overrun; no packet is left behind. */
  lemma {:induction false} EverythingArrives(l: Line, ps: seq<Packet>, read: nat, k: Setting, n: nat)
    requires Carries(l, ps, read, k) && |l.out.queue| + |l.inn.wire| <= n && AllLively(l, k, n)
    ensures var r := Plays(l, Rounds(n), k);
            && !r.over
            && (Running(r.l) ==>
                  r.l.out.queue == [] && r.l.inn.wire == []
                  && (r.l.inn.delivered == ps <==> AllInside(ps, read, k.rcap, k.compression)))
    decreases n
  {
    hide Served, Written, Joined, Stream, Between, AllSendable, Fitting, AllInside, Carries, HandOver, Plays, Rounds, Lost;
    CarriesFits(l, ps, read, k);
    RoundsOn(n);
    if n == 0 || !Running(l) {
      PlaysOn(l, Rounds(n), 0, k);
      assert Rounds(n)[0..] == Rounds(n);
      if Running(l) {
        CarriesAll(l, ps, read, k);
      }
    } else {
      var events := Rounds(n);
      assert events[0..] == events;
      var m := Moved(l, AtSender(Writable), k).value;
      CarriesWrite(l, ps, read, k);
      PlaysOn(l, events, 0, k);
      PlaysOn(m, events, 1, k);
      assert !Running(m) ==> Plays(m, events[1..], k).l == m;
      if Running(m) {
        var m' := Moved(m, Readable, k).value;
        CarriesRead(m, ps, read, k);
        if Lost(m'.inn) {
          PlaysOn(m', events, 2, k);
        } else {
          EverythingArrives(m', ps, read, k, n - 1);
        }
      }
    }
  }

  lemma {:induction false} RoundsOn(n: nat)
    ensures n == 0 ==> Rounds(n) == []
    ensures n > 0 ==>
              |Rounds(n)| >= 2 && Rounds(n)[0] == AtSender(Writable) && Rounds(n)[1] == Readable && Rounds(n)[2..] == Rounds(n - 1)
  {
  }

  lemma {:induction false} CarriesFits(l: Line, ps: seq<Packet>, read: nat, k: Setting)
    requires Carries(l, ps, read, k)
    ensures LineFits(l, k)
  {
  }

  lemma {:induction false} CarriesAll(l: Line, ps: seq<Packet>, read: nat, k: Setting)
    requires Carries(l, ps, read, k) && Running(l) && l.out.queue == [] && l.inn.wire == []
    ensures l.inn.delivered == ps <==> AllInside(ps, read, k.rcap, k.compression)
  {
    hide Joined, Stream, Between, AllSendable, Fitting, AllInside;
    assert Joined(l.inn.log) + [] + [] == Joined(l.inn.log);
    BetweenOpen(State([], read, 0), l.inn, k.rcap, k.compression);
    BetweenStream(read, l.inn, ps, k.rcap, k.compression);
  }

  lemma {:induction false} BetweenOpen(start: State, x: Inlet, cap: nat, compression: bool)
    requires Between(start, x, cap, compression) && x.open && !Lost(x)
    ensures !x.failed
  {
  }
}
