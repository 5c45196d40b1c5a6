/** What a readable event does to the receiving half of a connection: the bytes that come in, the answers of
    the system that are used up, and when the connection waits, is closed or has failed. */
module Inbound {
  import opened Bytes
  import opened Framing

  datatype IoCode = IocOk | IocAgain | IocClosed | IocError

  /** The order of the codes: the worst comes first. */
  predicate Worse(a: IoCode, b: IoCode) {
    match a
    case IocError => b != IocError
    case IocClosed => b == IocOk || b == IocAgain
    case IocOk => b == IocAgain
    case IocAgain => false
  }

  /** What the system does the next time it is asked: give out up to `n` bytes, none yet, or no more. */
  datatype Answer = Data(n: nat) | NothingYet | HungUp | Broken

  /** What recvmsg reports then. TooMuch is more bytes than the buffer has room for. */
  datatype Reply = Bytes(bs: seq<byte>) | Wait | Eof | Fault | TooMuch

  /** The bytes the regions offer: an empty buffer with its heads inside the array offers more than it has. */
  function Room(s: State, cap: nat): int {
    if s.content == [] && s.read != 0 then 2 * cap - s.read else cap - |s.content|
  }

  function Least(a: int, b: int): int { if a < b then a else b }

  /** recvmsg: 0 bytes are the end of the stream, and a peer that has nothing on the way keeps it waiting. */
  function Given(a: Answer, s: State, wire: seq<byte>, cap: nat): Reply
    requires |s.content| < cap && s.read < cap
  {
    match a
    case NothingYet => Wait
    case HungUp => Eof
    case Broken => Fault
    case Data(n) =>
      var k := Least(n, Least(Room(s, cap), |wire|));
      if n == 0 then Eof
      else if wire == [] then Wait
      else if k > cap - |s.content| then TooMuch
      else Bytes(wire[..k])
  }

  /** The receiving half of a connection: its state, the bytes on the way to it, and the replies it has got. */
  datatype Inlet = Inlet(s: State, wire: seq<byte>, pending: bool, open: bool, failed: bool,
                         delivered: seq<Packet>, log: seq<Reply>)

  predicate Sized(x: Inlet, cap: nat) {
    0 < cap && |x.s.content| <= cap && x.s.read < cap
  }

  predicate Lost(x: Inlet) {
    x.log != [] && x.log[|x.log| - 1] == TooMuch
  }

  /** The bytes among the replies. */
  function Joined(log: seq<Reply>): seq<byte> {
    if log == [] then []
    else Joined(log[..|log| - 1]) + match log[|log| - 1] case Bytes(bs) => bs case _ => []
  }

  /** fill_buffer, with the worst code so far. */
  function FillUp(x: Inlet, answers: nat -> Answer, cap: nat, res: IoCode): (r: (Inlet, IoCode))
    requires Sized(x, cap)
    ensures Sized(r.0, cap) && |r.0.wire| <= |x.wire|
    ensures r.1 == IocOk && res != IocOk && !Lost(r.0) ==> |r.0.wire| < |x.wire|
    ensures r.0.open == x.open && r.0.failed == x.failed
    decreases cap - |x.s.content|
  {
    if |x.s.content| == cap then (x, res)
    else
      var reply := Given(answers(|x.log|), x.s, x.wire, cap);
      var y := x.(log := x.log + [reply]);
      match reply
      case Bytes(bs) =>
        FillUp(y.(s := With(x.s, bs), wire := x.wire[|bs|..]), answers, cap, if Worse(IocOk, res) then IocOk else res)
      case Wait => (y.(pending := true), res)
      case Eof => (y, if Worse(IocClosed, res) then IocClosed else res)
      case Fault => (y, if Worse(IocError, res) then IocError else res)
      case TooMuch => (y, res)
  }

  /** The loop of handle_connection_io: packets are received, and the buffer is filled again unless the
      connection waits. */
  function Serve(x: Inlet, answers: nat -> Answer, cap: nat, compression: bool, code: IoCode): (r: (Inlet, IoCode))
    requires Sized(x, cap)
    ensures Sized(r.0, cap) && |r.0.wire| <= |x.wire| && r.0.failed == x.failed
    decreases |x.wire|, code == IocOk
  {
    if code != IocOk || Lost(x) then (x, code)
    else
      var o := Receive(x.s, cap, compression);
      ReceiveSized(x.s, cap, compression);
      var y := x.(s := o.s, delivered := x.delivered + o.packets);
      if !o.waiting then (y.(open := false), IocError)
      else if y.pending then (y, IocAgain)
      else
        var (z, c) := FillUp(y, answers, cap, IocAgain);
        if Lost(z) then (z, c) else Serve(z, answers, cap, compression, c)
  }

  /** A readable event. */
  function Served(x: Inlet, answers: nat -> Answer, cap: nat, compression: bool): (r: Inlet)
    requires Sized(x, cap)
    ensures Sized(r, cap) && |r.wire| <= |x.wire| && (r.open && !x.failed ==> !r.failed)
  {
    if !x.pending then x
    else
      var (y, c) := FillUp(x.(pending := false), answers, cap, IocAgain);
      var (z, d) := Serve(y, answers, cap, compression, c);
      if !Lost(z) && z.open && (d == IocClosed || d == IocError) then z.(open := false, failed := true) else z
  }

  /** Receiving only takes from the buffer. */
  lemma {:induction false} ReceiveSized(s: State, cap: nat, compression: bool)
    requires 0 < cap && |s.content| <= cap && s.read < cap
    ensures var o := Receive(s, cap, compression);
            |o.s.content| <= cap && o.s.read < cap
    decreases |s.content|
  {
    hide Decode;
    Unfold(s, cap, compression);
    DecodeSized(s, cap, compression);
    DecodeKeeps(s, cap, compression);
    var d := Decode(s, cap, compression);
    if d.Got? {
      Smaller(s, cap, compression);
      ReceiveSized(d.s, cap, compression);
    }
  }

  lemma {:induction false} DecodeSized(s: State, cap: nat, compression: bool)
    requires 0 < cap
    ensures var d := Decode(s, cap, compression);
            d.Again? || d.Got? ==> |d.s.content| <= |s.content|
  {
  }

  // Which answers are used up

  /** What may be reported when the system does `a`. */
  predicate Reports(a: Answer, r: Reply) {
    match r
    case Bytes(bs) => a.Data? && 0 < |bs| <= a.n
    case Wait => a == NothingYet || (a.Data? && a.n > 0)
    case Eof => a == HungUp || a == Data(0)
    case Fault => a == Broken
    case TooMuch => a.Data? && a.n > 0
  }

  lemma {:induction false} GivenReports(a: Answer, s: State, wire: seq<byte>, cap: nat)
    requires |s.content| < cap && s.read < cap
    ensures var r := Given(a, s, wire, cap);
            && Reports(a, r) && (r == Wait ==> a == NothingYet || wire == [])
            && (r == TooMuch ==> s.content == [] && s.read != 0 && a.Data? && a.n > cap)
            && (r.Bytes? ==> r.bs <= wire && |s.content| + |r.bs| <= cap
                             && (|r.bs| == a.n || r.bs == wire || |s.content| + |r.bs| == cap))
  {
  }

  lemma {:induction false} JoinedMore(log: seq<Reply>, r: Reply)
    ensures Joined(log + [r]) == Joined(log) + match r case Bytes(bs) => bs case _ => []
  {
    assert (log + [r])[..|log|] == log;
  }

  /** The replies from number `n` on are bytes, but for the last ones from `m` on. */
  predicate AllBytes(log: seq<Reply>, n: nat, m: int) {
    forall i :: n <= i < m && i < |log| ==> log[i].Bytes?
  }

  /** From `x` to `y` replies have come in, as the answers say; what they brought has gone from the wire. */
  predicate Uses(x: Inlet, y: Inlet, answers: nat -> Answer) {
    && x.log <= y.log && (forall i :: |x.log| <= i < |y.log| ==> Reports(answers(i), y.log[i]))
    && Joined(y.log) + y.wire == Joined(x.log) + x.wire && |Joined(x.log)| <= |Joined(y.log)|
  }

  lemma {:induction false} UsesTwice(x: Inlet, y: Inlet, z: Inlet, answers: nat -> Answer)
    requires Uses(x, y, answers) && Uses(y, z, answers)
    ensures Uses(x, z, answers)
  {
    hide Joined, Reports;
    forall i | |x.log| <= i < |z.log| ensures Reports(answers(i), z.log[i]) {
      if i < |y.log| {
        assert z.log[i] == y.log[i];
      }
    }
  }

  lemma {:induction false} UsesNone(x: Inlet, y: Inlet, answers: nat -> Answer)
    requires x.log == y.log && x.wire == y.wire
    ensures Uses(x, y, answers)
  {
  }

  /** One reply. */
  lemma {:induction false} UsesOne(x: Inlet, answers: nat -> Answer, cap: nat)
    requires Sized(x, cap) && |x.s.content| < cap
    ensures var r := Given(answers(|x.log|), x.s, x.wire, cap);
            var y := x.(log := x.log + [r]);
            Uses(x, if r.Bytes? then y.(s := With(x.s, r.bs), wire := x.wire[|r.bs|..]) else y, answers)
  {
    hide Joined, Reports, Given;
    var r := Given(answers(|x.log|), x.s, x.wire, cap);
    GivenReports(answers(|x.log|), x.s, x.wire, cap);
    JoinedMore(x.log, r);
    if r.Bytes? {
      assert x.wire == r.bs + x.wire[|r.bs|..];
      Assoc(Joined(x.log), r.bs, x.wire[|r.bs|..]);
    }
  }

  /** Why the last reply was none of bytes: the system had none yet, or there were none on the way; it gave out
      more than the whole buffer holds. */
  predicate LastSays(x: Inlet, y: Inlet, answers: nat -> Answer, cap: nat) {
    |x.log| < |y.log| ==>
      && (y.log[|y.log| - 1] == Wait ==> answers(|y.log| - 1) == NothingYet || y.wire == [])
      && (y.log[|y.log| - 1] == TooMuch ==> answers(|y.log| - 1).Data? && answers(|y.log| - 1).n > cap)
  }

  /** How fill_buffer ends: with a full buffer, or with the first reply that is no bytes. */
  predicate FillEnds(x: Inlet, y: Inlet, code: IoCode, res: IoCode, cap: nat) {
    && y.delivered == x.delivered && y.open == x.open && y.failed == x.failed
    && |x.log| <= |y.log| && AllBytes(y.log, |x.log|, |y.log| - 1)
    && (|x.log| == |y.log| <==> |x.s.content| == cap)
    && if |x.log| == |y.log| then y == x && code == res
       else match y.log[|y.log| - 1]
         case Bytes(_) => |y.s.content| == cap && y.pending == x.pending && code == IocOk
         case Wait => y.pending && code == (if |y.log| == |x.log| + 1 then res else IocOk)
         case Eof => y.pending == x.pending && code == IocClosed
         case Fault => y.pending == x.pending && code == IocError
         case TooMuch => Lost(y)
  }

  lemma {:induction false} UsesLike(x: Inlet, y: Inlet, z: Inlet, answers: nat -> Answer)
    requires Uses(x, y, answers) && z.log == y.log && z.wire == y.wire
    ensures Uses(x, z, answers)
  {
  }

  /** The first reply of fill_buffer, if there is room. */
  function First(x: Inlet, answers: nat -> Answer, cap: nat): Inlet
    requires Sized(x, cap) && |x.s.content| < cap
  {
    var r := Given(answers(|x.log|), x.s, x.wire, cap);
    var y := x.(log := x.log + [r]);
    match r
    case Bytes(bs) => y.(s := With(x.s, bs), wire := x.wire[|bs|..])
    case Wait => y.(pending := true)
    case _ => y
  }

  /** One round of fill_buffer. */
  lemma {:induction false} FillOn(x: Inlet, answers: nat -> Answer, cap: nat, res: IoCode)
    requires Sized(x, cap)
    ensures |x.s.content| == cap ==> FillUp(x, answers, cap, res) == (x, res)
    ensures |x.s.content| < cap ==>
              var y := First(x, answers, cap);
              && |y.log| == |x.log| + 1 && y.pending == (x.pending || y.log[|x.log|] == Wait)
              && match y.log[|x.log|]
                 case Bytes(_) =>
                   && Sized(y, cap) && |x.s.content| < |y.s.content|
                   && FillUp(x, answers, cap, res) == FillUp(y, answers, cap, if Worse(IocOk, res) then IocOk else res)
                 case Wait => FillUp(x, answers, cap, res) == (y, res)
                 case Eof => FillUp(x, answers, cap, res) == (y, if Worse(IocClosed, res) then IocClosed else res)
                 case Fault => FillUp(x, answers, cap, res) == (y, if Worse(IocError, res) then IocError else res)
                 case TooMuch => FillUp(x, answers, cap, res) == (y, res)
  {
    hide Given, Reports;
    if |x.s.content| < cap {
      GivenReports(answers(|x.log|), x.s, x.wire, cap);
    }
  }

  lemma {:induction false} FirstUses(x: Inlet, answers: nat -> Answer, cap: nat)
    requires Sized(x, cap) && |x.s.content| < cap
    ensures var y := First(x, answers, cap);
            Uses(x, y, answers) && y.s == With(x.s, Joined(y.log)[|Joined(x.log)|..]) && Joined(x.log) <= Joined(y.log)
  {
    hide Joined, Reports, Given, Uses;
    var r := Given(answers(|x.log|), x.s, x.wire, cap);
    UsesOne(x, answers, cap);
    GivenReports(answers(|x.log|), x.s, x.wire, cap);
    JoinedMore(x.log, r);
    var y := First(x, answers, cap);
    var one := x.(log := x.log + [r]);
    UsesLike(x, if r.Bytes? then one.(s := With(x.s, r.bs), wire := x.wire[|r.bs|..]) else one, y, answers);
    assert Joined(x.log) + [] == Joined(x.log) && x.s.content + [] == x.s.content;
  }

  lemma {:induction false} FillUses(x: Inlet, answers: nat -> Answer, cap: nat, res: IoCode)
    requires Sized(x, cap)
    ensures var y := FillUp(x, answers, cap, res).0;
            Uses(x, y, answers) && y.s == With(x.s, Joined(y.log)[|Joined(x.log)|..]) && Joined(x.log) <= Joined(y.log)
    decreases cap - |x.s.content|
  {
    hide Joined, Reports, Given, Uses;
    if |x.s.content| == cap {
      UsesNone(x, x, answers);
      assert x.s.content + [] == x.s.content;
    } else {
      FirstUses(x, answers, cap);
      if Given(answers(|x.log|), x.s, x.wire, cap).Bytes? {
        GivenReports(answers(|x.log|), x.s, x.wire, cap);
        var y, z := First(x, answers, cap), FillUp(x, answers, cap, res).0;
        FillUses(y, answers, cap, if Worse(IocOk, res) then IocOk else res);
        UsesTwice(x, y, z, answers);
        More(x.s, Joined(x.log), Joined(y.log), Joined(z.log));
      }
    }
  }

  lemma {:induction false} FillEnding(x: Inlet, answers: nat -> Answer, cap: nat, res: IoCode)
    requires Sized(x, cap) && (res == IocAgain || res == IocOk)
    ensures var (y, code) := FillUp(x, answers, cap, res);
            && FillEnds(x, y, code, res, cap)
            && LastSays(x, y, answers, cap)
    decreases cap - |x.s.content|
  {
    hide Reports, Given, FillEnds, LastSays, Joined, AllBytes;
    if |x.s.content| == cap {
      EndsFull(x, answers, res, cap);
    } else {
      var r := Given(answers(|x.log|), x.s, x.wire, cap);
      GivenReports(answers(|x.log|), x.s, x.wire, cap);
      if r.Bytes? {
        var y := First(x, answers, cap);
        FillEnding(y, answers, cap, IocOk);
        Grows(y, answers, cap, IocOk);
        var (z, code) := FillUp(y, answers, cap, IocOk);
        EndsOn(x, y, z, answers, code, res, cap);
      } else {
        EndsFirst(x, First(x, answers, cap), answers, r, res, cap);
      }
    }
  }

  lemma {:induction false} EndsFull(x: Inlet, answers: nat -> Answer, res: IoCode, cap: nat)
    requires |x.s.content| == cap
    ensures FillEnds(x, x, res, res, cap) && LastSays(x, x, answers, cap)
  {
  }

  lemma {:induction false} EndsFirst(x: Inlet, y: Inlet, answers: nat -> Answer, r: Reply, res: IoCode, cap: nat)
    requires |x.s.content| < cap && !r.Bytes? && (res == IocAgain || res == IocOk)
    requires y == x.(log := x.log + [r], pending := x.pending || r == Wait)
    requires (r == Wait ==> answers(|x.log|) == NothingYet || x.wire == [])
    requires (r == TooMuch ==> answers(|x.log|).Data? && answers(|x.log|).n > cap)
    ensures var code := match r
                        case Wait => res
                        case Eof => IocClosed
                        case Fault => IocError
                        case _ => res;
            FillEnds(x, y, code, res, cap) && LastSays(x, y, answers, cap)
  {
    assert y.log[|y.log| - 1] == r;
  }

  lemma {:induction false} EndsOn(x: Inlet, y: Inlet, z: Inlet, answers: nat -> Answer, code: IoCode, res: IoCode, cap: nat)
    requires FillEnds(y, z, code, IocOk, cap) && LastSays(y, z, answers, cap) && y.log <= z.log
    requires |x.s.content| < cap && |y.log| == |x.log| + 1 && x.log <= y.log && y.log[|x.log|].Bytes?
    requires y.pending == x.pending && y.delivered == x.delivered && y.open == x.open && y.failed == x.failed
    ensures FillEnds(x, z, code, res, cap) && LastSays(x, z, answers, cap)
  {
    assert z.log[|x.log|] == y.log[|x.log|];
  }

  lemma {:induction false} Grows(x: Inlet, answers: nat -> Answer, cap: nat, res: IoCode)
    requires Sized(x, cap)
    ensures x.log <= FillUp(x, answers, cap, res).0.log
  {
    hide FillUp;
    FillUses(x, answers, cap, res);
  }

  lemma {:induction false} More(s: State, a: seq<byte>, b: seq<byte>, all: seq<byte>)
    requires a <= b <= all
    ensures With(With(s, b[|a|..]), all[|b|..]) == With(s, all[|a|..])
  {
    assert all[|a|..] == b[|a|..] + all[|b|..];
  }

  // What is delivered

  /** The packets delivered and the state are on the way to what receiving `data` from `start` on gives. */
  ghost predicate OnTheWay(start: State, data: seq<byte>, delivered: seq<Packet>, now: State, cap: nat, compression: bool)
    requires 0 < cap
  {
    Same(Receive(With(start, data), cap, compression), After(delivered, Receive(now, cap, compression)))
  }

  lemma {:induction false} SetsOut(start: State, cap: nat, compression: bool)
    requires 0 < cap
    ensures OnTheWay(start, [], [], start, cap, compression)
  {
    hide Receive;
    assert start.content + [] == start.content;
    var o := Receive(start, cap, compression);
    assert [] + o.packets == o.packets;
  }

  /** More bytes from the socket. */
  lemma {:induction false} InStepMore(start: State, data: seq<byte>, more: seq<byte>, delivered: seq<Packet>, now: State,
                                      cap: nat, compression: bool)
    requires 0 < cap && start.read < cap && now.read < cap && OnTheWay(start, data, delivered, now, cap, compression)
    ensures OnTheWay(start, data + more, delivered, With(now, more), cap, compression)
  {
    hide Receive;
    var o := Receive(now, cap, compression);
    Assoc(start.content, data, more);
    Resumable(With(start, data), more, cap, compression);
    Resumable(now, more, cap, compression);
    Assoc(delivered, o.packets, Receive(With(o.s, more), cap, compression).packets);
  }

  /** Packets are received. */
  lemma {:induction false} Progress(start: State, data: seq<byte>, delivered: seq<Packet>, s: State, packets: seq<Packet>,
                                    now: State, waiting: bool, cap: nat, compression: bool)
    requires 0 < cap && s.read < cap && OnTheWay(start, data, delivered, s, cap, compression)
    requires Same(Receive(s, cap, compression), Outcome(packets, now, waiting))
    ensures var all := Receive(With(start, data), cap, compression);
            if waiting then OnTheWay(start, data, delivered + packets, now, cap, compression) && AtRest(now, cap, compression)
            else !all.waiting && all.packets == delivered + packets
  {
    hide Receive;
    RestsAfter(s, cap, compression);
    assert delivered + packets + [] == delivered + packets;
  }

  /** What a connection has delivered is never more than what came in. */
  lemma {:induction false} Behind(start: State, data: seq<byte>, delivered: seq<Packet>, now: State, cap: nat, compression: bool)
    requires 0 < cap && OnTheWay(start, data, delivered, now, cap, compression)
    ensures var all := Receive(With(start, data), cap, compression);
            delivered <= all.packets
            && (AtRest(now, cap, compression) ==> all.waiting && all.packets == delivered && all.s == now)
  {
    hide Receive;
    assert delivered + [] == delivered;
  }

  /** What has come in has been delivered or is still to be decoded. */
  ghost predicate Course(start: State, x: Inlet, cap: nat, compression: bool) {
    Sized(x, cap) && start.read < cap && OnTheWay(start, Joined(x.log), x.delivered, x.s, cap, compression)
  }

  /** The receiver has also taken all it can from what is there. */
  ghost predicate Rested(start: State, x: Inlet, cap: nat, compression: bool) {
    Course(start, x, cap, compression) && AtRest(x.s, cap, compression)
  }

  /** The bytes that came in hold a packet that is refused; the packets before it have been delivered. */
  ghost predicate Refused(start: State, x: Inlet, cap: nat, compression: bool)
    requires 0 < cap
  {
    var all := Receive(With(start, Joined(x.log)), cap, compression);
    !all.waiting && x.delivered == all.packets
  }

  /** What has been delivered is a beginning of what came in. */
  ghost predicate Lags(start: State, x: Inlet, cap: nat, compression: bool)
    requires 0 < cap
  {
    x.delivered <= Receive(With(start, Joined(x.log)), cap, compression).packets
  }

  lemma {:induction false} FillCourse(start: State, x: Inlet, answers: nat -> Answer, cap: nat, compression: bool, res: IoCode)
    requires Course(start, x, cap, compression) && Sized(x, cap) && (res == IocAgain || res == IocOk)
    ensures Course(start, FillUp(x, answers, cap, res).0, cap, compression)
  {
    hide Receive, OnTheWay, FillUp, Joined, Uses;
    var y := FillUp(x, answers, cap, res).0;
    FillUses(x, answers, cap, res);
    FillEnding(x, answers, cap, res);
    var more := Joined(y.log)[|Joined(x.log)|..];
    assert Joined(y.log) == Joined(x.log) + more;
    InStepMore(start, Joined(x.log), more, x.delivered, x.s, cap, compression);
  }

  /** Where the loop of handle_connection_io stands: since reply number `n` all were bytes, but for the last
      one if the code is not that of bytes or the connection waits. */
  predicate Mid(x: Inlet, n: nat, code: IoCode, cap: nat) {
    && n <= |x.log| && AllBytes(x.log, n, |x.log| - 1) && x.open && !x.failed
    && if Lost(x) then n < |x.log|
       else match code
         case IocOk => n < |x.log| && (if x.pending then x.log[|x.log| - 1] == Wait else x.log[|x.log| - 1].Bytes?)
         case IocAgain =>
           if x.pending then n < |x.log| && x.log[|x.log| - 1] == Wait
           else |x.s.content| == cap && (n == |x.log| || x.log[|x.log| - 1].Bytes?)
         case IocClosed => n < |x.log| && x.log[|x.log| - 1] == Eof
         case IocError => n < |x.log| && x.log[|x.log| - 1] == Fault
  }

  lemma {:induction false} FillMid(x: Inlet, answers: nat -> Answer, cap: nat, n: nat)
    requires Sized(x, cap) && x.open && !x.failed && !x.pending && n <= |x.log| && AllBytes(x.log, n, |x.log|) && !Lost(x)
    ensures var (y, code) := FillUp(x, answers, cap, IocAgain);
            Mid(y, n, code, cap) && (code == IocAgain && !Lost(y) ==> y.s == x.s)
            && LastSays(x, y, answers, cap)
  {
    hide FillUp, Reports, Uses;
    var (y, code) := FillUp(x, answers, cap, IocAgain);
    FillEnding(x, answers, cap, IocAgain);
    FillUses(x, answers, cap, IocAgain);
    Grows(x, answers, cap, IocAgain);
    forall i | n <= i < |y.log| - 1 ensures y.log[i].Bytes? {
      if i < |x.log| {
        assert y.log[i] == x.log[i];
      }
    }
    if |y.log| == |x.log| + 1 && !y.log[|x.log|].Bytes? {
      OneReply(x.log, y.log);
      assert x.s.content + [] == x.s.content;
    }
  }

  lemma {:induction false} OneReply(a: seq<Reply>, b: seq<Reply>)
    requires a <= b && |b| == |a| + 1 && !b[|a|].Bytes?
    ensures Joined(b) == Joined(a)
  {
    assert b == a + [b[|a|]];
    JoinedMore(a, b[|a|]);
  }

  /** How the loop ends. */
  ghost predicate Ended(start: State, x: Inlet, n: nat, code: IoCode, cap: nat, compression: bool) {
    && Sized(x, cap) && n <= |x.log| && AllBytes(x.log, n, |x.log| - 1) && !x.failed
    && if Lost(x) then n < |x.log|
       else if x.open then
         Mid(x, n, code, cap) && code != IocOk
         && if code == IocAgain then Rested(start, x, cap, compression) else Course(start, x, cap, compression)
       else
         code == IocError && Refused(start, x, cap, compression) && n < |x.log|
         && if x.pending then x.log[|x.log| - 1] == Wait else x.log[|x.log| - 1].Bytes?
  }

  /** The bytes are looked at: packets are delivered, and either all that is there has been taken or a packet
      is refused. */
  lemma {:induction false} Decodes(start: State, x: Inlet, cap: nat, compression: bool)
    requires Course(start, x, cap, compression)
    ensures var o := Receive(x.s, cap, compression);
            var y := x.(s := o.s, delivered := x.delivered + o.packets);
            Sized(y, cap) && if o.waiting then Rested(start, y, cap, compression) else Refused(start, y, cap, compression)
  {
    hide Receive, OnTheWay, AtRest, Joined;
    var o := Receive(x.s, cap, compression);
    ReceiveSized(x.s, cap, compression);
    Progress(start, Joined(x.log), x.delivered, x.s, o.packets, o.s, o.waiting, cap, compression);
  }

  lemma {:induction false} ServeEnds(start: State, x: Inlet, answers: nat -> Answer, cap: nat, compression: bool, code: IoCode, n: nat)
    requires Course(start, x, cap, compression) && Mid(x, n, code, cap)
    requires code == IocAgain ==> Lost(x) || AtRest(x.s, cap, compression)
    ensures var (y, d) := Serve(x, answers, cap, compression, code);
            Ended(start, y, n, d, cap, compression) && Uses(x, y, answers)
            && LastSays(x, y, answers, cap)
    decreases |x.wire|, code == IocOk
  {
    hide Receive, OnTheWay, AtRest, Joined, Uses, FillUp, Refused;
    var (z, d) := Serve(x, answers, cap, compression, code);
    if code != IocOk || Lost(x) {
      UsesNone(x, x, answers);
    } else {
      var o := Receive(x.s, cap, compression);
      Decodes(start, x, cap, compression);
      var y := x.(s := o.s, delivered := x.delivered + o.packets);
      UsesNone(x, y, answers);
      if !o.waiting {
        UsesLike(x, y, y.(open := false), answers);
        RefusedStays(start, y, cap, compression);
      } else if !y.pending {
        var (w, c) := FillUp(y, answers, cap, IocAgain);
        FillMid(y, answers, cap, n);
        FillUses(y, answers, cap, IocAgain);
        FillCourse(start, y, answers, cap, compression, IocAgain);
        UsesTwice(x, y, w, answers);
        if !Lost(w) {
          ServeEnds(start, w, answers, cap, compression, c, n);
          UsesTwice(x, w, z, answers);
          LongerLog(x, y, w, z, answers);
        }
      }
    }
  }

  lemma {:induction false} LongerLog(x: Inlet, y: Inlet, w: Inlet, z: Inlet, answers: nat -> Answer)
    requires Uses(y, w, answers) && Uses(w, z, answers) && x.log == y.log
    ensures w.log <= z.log && |x.log| <= |w.log| && (|w.log| == |z.log| ==> w.log == z.log && w.wire == z.wire)
  {
    if |w.log| == |z.log| {
      assert w.log == z.log;
      assert Joined(z.log) + z.wire == Joined(w.log) + w.wire;
      CancelPrefix(Joined(w.log), z.wire, w.wire);
    }
  }

  lemma {:induction false} RefusedStays(start: State, x: Inlet, cap: nat, compression: bool)
    requires 0 < cap && Refused(start, x, cap, compression)
    ensures Refused(start, x.(open := false), cap, compression)
  {
  }

  /** How a readable event on a waiting connection ends. It has asked the system unless the buffer was full, and
      gone on as long as bytes came: until the system had none, the stream ended or broke, a packet was refused,
      or the buffer was full of a packet that is not complete. */
  ghost predicate EventEnds(start: State, x: Inlet, y: Inlet, answers: nat -> Answer, cap: nat, compression: bool)
    requires 0 < cap
  {
    var n, m := |x.log|, |y.log|;
    && Uses(x, y, answers) && LastSays(x, y, answers, cap)
    && (n < m <==> |x.s.content| < cap) && AllBytes(y.log, n, m - 1)
    && if n == m then y == x.(pending := false)
       else match y.log[m - 1]
         case Bytes(_) =>
           if y.open then !y.pending && |y.s.content| == cap && !y.failed && Rested(start, y, cap, compression)
           else !y.failed && Refused(start, y, cap, compression)
         case Wait =>
           y.pending && !y.failed
           && if y.open then Rested(start, y, cap, compression) else Refused(start, y, cap, compression)
         case Eof => !y.open && y.failed && Lags(start, y, cap, compression)
         case Fault => !y.open && y.failed && Lags(start, y, cap, compression)
         case TooMuch => true
  }

  lemma {:induction false} ServedEnds(start: State, x: Inlet, answers: nat -> Answer, cap: nat, compression: bool)
    requires Rested(start, x, cap, compression) && x.open && !x.failed && !Lost(x) && x.pending
    ensures EventEnds(start, x, Served(x, answers, cap, compression), answers, cap, compression)
  {
    hide Receive, OnTheWay, AtRest, Joined, Uses, FillUp, Serve, Refused, Lags;
    var x0 := x.(pending := false);
    var (y, c) := FillUp(x0, answers, cap, IocAgain);
    var (z, d) := Serve(y, answers, cap, compression, c);
    UsesNone(x, x0, answers);
    CourseLike(start, x, x0, cap, compression);
    FillMid(x0, answers, cap, |x.log|);
    FillEnding(x0, answers, cap, IocAgain);
    FillUses(x0, answers, cap, IocAgain);
    FillCourse(start, x0, answers, cap, compression, IocAgain);
    UsesTwice(x, x0, y, answers);
    ServeEnds(start, y, answers, cap, compression, c, |x.log|);
    UsesTwice(x, y, z, answers);
    LongerLog(x, x0, y, z, answers);
    var end := Served(x, answers, cap, compression);
    UsesLike(x, z, end, answers);
    if |x.log| == |y.log| {
      ServeNone(y, answers, cap, compression);
    }
    if end != z {
      CourseLags(start, z, cap, compression);
    }
  }

  lemma {:induction false} ServeNone(x: Inlet, answers: nat -> Answer, cap: nat, compression: bool)
    requires Sized(x, cap)
    ensures Serve(x, answers, cap, compression, IocAgain) == (x, IocAgain)
  {
  }

  lemma {:induction false} CourseLike(start: State, x: Inlet, y: Inlet, cap: nat, compression: bool)
    requires y == x.(pending := y.pending)
    ensures Course(start, x, cap, compression) <==> Course(start, y, cap, compression)
  {
  }

  lemma {:induction false} CourseLags(start: State, x: Inlet, cap: nat, compression: bool)
    requires Course(start, x, cap, compression)
    ensures Lags(start, x.(open := false, failed := true), cap, compression)
  {
    hide Receive, Joined;
    Behind(start, Joined(x.log), x.delivered, x.s, cap, compression);
  }

  /** A system that never gives out more than the buffer holds in one go overruns nothing. */
  lemma {:induction false} NeverTooMuch(start: State, x: Inlet, answers: nat -> Answer, cap: nat, compression: bool)
    requires Rested(start, x, cap, compression) && x.open && !x.failed && !Lost(x) && x.pending
    requires forall i: nat :: answers(i).Data? ==> answers(i).n <= cap
    ensures !Lost(Served(x, answers, cap, compression))
  {
    hide Served, Joined, AtRest, OnTheWay, Refused, Lags;
    ServedEnds(start, x, answers, cap, compression);
    var y := Served(x, answers, cap, compression);
    assert |x.log| < |y.log| ==> answers(|y.log| - 1).Data? ==> answers(|y.log| - 1).n <= cap;
  }

  /** A wake-up for bytes that are there takes some of them. */
  lemma {:induction false} ServedTakes(x: Inlet, answers: nat -> Answer, cap: nat, compression: bool)
    requires Sized(x, cap) && x.pending && |x.s.content| < cap && x.wire != []
    requires answers(|x.log|).Data? && answers(|x.log|).n > 0
    ensures var y := Served(x, answers, cap, compression);
            Lost(y) || |y.wire| < |x.wire|
  {
    hide FillUp, Serve, Given;
    var x0 := x.(pending := false);
    FillFirst(x0, answers, cap);
    var (y, c) := FillUp(x0, answers, cap, IocAgain);
    if Lost(y) {
      ServeLost(y, answers, cap, compression, c);
    }
  }

  lemma {:induction false} FillFirst(x: Inlet, answers: nat -> Answer, cap: nat)
    requires Sized(x, cap) && |x.s.content| < cap && x.wire != []
    requires answers(|x.log|).Data? && answers(|x.log|).n > 0
    ensures var y := FillUp(x, answers, cap, IocAgain).0;
            Lost(y) || |y.wire| < |x.wire|
  {
    var r := Given(answers(|x.log|), x.s, x.wire, cap);
    assert r.Bytes? || r == TooMuch;
  }

  lemma {:induction false} ServeLost(x: Inlet, answers: nat -> Answer, cap: nat, compression: bool, code: IoCode)
    requires Sized(x, cap) && Lost(x)
    ensures Serve(x, answers, cap, compression, code) == (x, code)
  {
  }

  // Wake-ups

  /** `n` readable events, until the connection is closed or the buffer overrun. */
  function Wakes(x: Inlet, answers: nat -> Answer, cap: nat, compression: bool, n: nat): (r: Inlet)
    requires Sized(x, cap)
    ensures Sized(r, cap)
    decreases n
  {
    if n == 0 || !x.open || Lost(x) then x else Wakes(Served(x, answers, cap, compression), answers, cap, compression, n - 1)
  }

  /** Between wake-ups. */
  ghost predicate Between(start: State, x: Inlet, cap: nat, compression: bool) {
    && Sized(x, cap)
    && (!Lost(x) ==>
          if x.open then Rested(start, x, cap, compression) && !x.failed && (x.pending || |x.s.content| == cap)
          else if x.failed then Lags(start, x, cap, compression) else Refused(start, x, cap, compression))
  }

  lemma {:induction false} ServedBetween(start: State, x: Inlet, answers: nat -> Answer, cap: nat, compression: bool)
    requires Between(start, x, cap, compression) && x.open && !Lost(x)
    ensures var y := Served(x, answers, cap, compression);
            Between(start, y, cap, compression) && Uses(x, y, answers)
  {
    hide Receive, OnTheWay, AtRest, Joined, FillUp, Serve, Refused, Lags, Reports;
    var y := Served(x, answers, cap, compression);
    if x.pending {
      ServedEnds(start, x, answers, cap, compression);
      if y == x.(pending := false) {
        CourseLike(start, x, y, cap, compression);
      } else {
        assert y.log[|y.log| - 1] == TooMuch ==> Lost(y);
      }
    } else {
      UsesNone(x, y, answers);
    }
  }

  lemma {:induction false} WakesBetween(start: State, x: Inlet, answers: nat -> Answer, cap: nat, compression: bool, n: nat)
    requires Between(start, x, cap, compression)
    ensures var y := Wakes(x, answers, cap, compression, n);
            Between(start, y, cap, compression) && Uses(x, y, answers)
    decreases n
  {
    hide Served, Between, Uses, Joined;
    if n == 0 || !x.open || Lost(x) {
      UsesNone(x, x, answers);
    } else {
      BetweenSized(start, x, cap, compression);
      var y := Served(x, answers, cap, compression);
      ServedBetween(start, x, answers, cap, compression);
      WakesBetween(start, y, answers, cap, compression, n - 1);
      UsesTwice(x, y, Wakes(y, answers, cap, compression, n - 1), answers);
    }
  }

  lemma {:induction false} BetweenSized(start: State, x: Inlet, cap: nat, compression: bool)
    requires Between(start, x, cap, compression)
    ensures Sized(x, cap)
  {
  }

  /** The packets that fit the buffer. */
  ghost predicate Fitting(ps: seq<Packet>, cap: nat, compression: bool) {
    forall p :: p in ps ==> |Body(p, compression, 0)| <= cap
  }

  ghost predicate AllSendable(ps: seq<Packet>, compression: bool) {
    forall p :: p in ps ==> Sendable(p, compression)
  }

  /** In the middle of a stream, what has come of it. */
  lemma {:induction false} BetweenStream(read: nat, x: Inlet, ps: seq<Packet>, cap: nat, compression: bool)
    requires read < cap && Between(State([], read, 0), x, cap, compression) && !Lost(x) && 5 <= cap && AllSendable(ps, compression)
    requires Joined(x.log) <= Stream(ps, compression)
    ensures x.delivered <= ps
    ensures x.open ==> x.pending || exists p :: p in ps && |Body(p, compression, 0)| > cap
    ensures x.open && Fitting(ps, cap, compression) ==> |x.s.content| < cap && x.pending
    ensures !x.open && !x.failed ==> !AllInside(ps, read, cap, compression) && x.delivered < ps
    ensures !x.failed && Joined(x.log) == Stream(ps, compression) ==> (x.delivered == ps <==> AllInside(ps, read, cap, compression))
  {
    hide Receive, OnTheWay, AtRest, Joined, Stream, AllInside, Sendable, Body;
    var start, part := State([], read, 0), Joined(x.log);
    assert With(start, part) == State(part, read, 0) by {
      assert [] + part == part;
    }
    PartReceived(ps, part, read, cap, compression);
    if x.open {
      Behind(start, part, x.delivered, x.s, cap, compression);
      if |x.s.content| == cap {
        WaitsForRoom(x.s, cap, compression);
      }
    }
  }

  /** Each wake-up finds bytes, as long as there are any on the way. */
  predicate Lively(x: Inlet, answers: nat -> Answer, cap: nat, compression: bool, n: nat)
    requires Sized(x, cap)
    decreases n
  {
    n == 0 || !x.open || Lost(x)
    || ((x.wire == [] || (answers(|x.log|).Data? && answers(|x.log|).n > 0))
        && Lively(Served(x, answers, cap, compression), answers, cap, compression, n - 1))
  }

  /** Enough wake-ups that find bytes take all of them off the wire. */
  lemma {:induction false} WakesDrain(read: nat, x: Inlet, ps: seq<Packet>, answers: nat -> Answer, cap: nat, compression: bool,
                                      n: nat)
    requires read < cap && Between(State([], read, 0), x, cap, compression) && 5 <= cap && AllSendable(ps, compression)
    requires Joined(x.log) + x.wire == Stream(ps, compression) && Fitting(ps, cap, compression)
    requires |x.wire| <= n && Lively(x, answers, cap, compression, n)
    ensures var y := Wakes(x, answers, cap, compression, n);
            Lost(y) || !y.open || y.wire == []
    decreases n
  {
    hide Served, Joined, Stream, Sendable, Body, Between, AllSendable, Fitting, Reports;
    if n > 0 && x.open && !Lost(x) {
      BetweenSized(State([], read, 0), x, cap, compression);
      BetweenStream(read, x, ps, cap, compression);
      var y := Served(x, answers, cap, compression);
      ServedBetween(State([], read, 0), x, answers, cap, compression);
      if x.wire != [] {
        ServedTakes(x, answers, cap, compression);
      }
      if Lost(y) {
        assert Wakes(y, answers, cap, compression, n - 1) == y;
      } else {
        WakesDrain(read, y, ps, answers, cap, compression, n - 1);
      }
    }
  }

  /** The same but for the contents of the buffer once a packet has been refused. */
  predicate Alike(x: Inlet, y: Inlet) {
    x == y.(s := x.s) && (y.open || y.failed ==> x.s == y.s)
  }

  lemma {:induction false} BetweenAlike(start: State, x: Inlet, y: Inlet, cap: nat, compression: bool)
    requires Between(start, y, cap, compression) && Alike(x, y) && Sized(x, cap)
    ensures Between(start, x, cap, compression)
  {
  }

  lemma {:induction false} WakesOn(x: Inlet, answers: nat -> Answer, cap: nat, compression: bool, n: nat)
    requires Sized(x, cap)
    ensures Wakes(x, answers, cap, compression, n)
            == if n == 0 || !x.open || Lost(x) then x
               else Wakes(Served(x, answers, cap, compression), answers, cap, compression, n - 1)
  {
  }

  /** A new connection. */
  lemma {:induction false} StartsBetween(read: nat, x: Inlet, cap: nat, compression: bool)
    requires read < cap && x == Inlet(State([], read, 0), x.wire, true, true, false, [], [])
    ensures Between(State([], read, 0), x, cap, compression) && Joined(x.log) == [] && !Lost(x)
  {
    hide Receive;
    RestsEmpty(read, cap, compression);
    SetsOut(State([], read, 0), cap, compression);
  }

  /** What `n` wake-ups on a new connection bring out of a stream of packets. */
  ghost predicate Serves(y: Inlet, read: nat, ps: seq<Packet>, cap: nat, compression: bool, enough: bool)
    requires 0 < cap
  {
    && y.delivered <= ps
    && (y.open ==> y.pending || exists p :: p in ps && |Body(p, compression, 0)| > cap)
    && (!y.open && !y.failed ==> !AllInside(ps, read, cap, compression) && y.delivered < ps)
    && (!y.failed && (y.wire == [] || enough) ==> (y.delivered == ps <==> AllInside(ps, read, cap, compression)))
  }

  lemma {:induction false} WakesServe(read: nat, x: Inlet, y: Inlet, ps: seq<Packet>, answers: nat -> Answer, cap: nat,
                                      compression: bool, n: nat)
    requires read < cap && x == Inlet(State([], read, 0), Stream(ps, compression), true, true, false, [], [])
    requires 5 <= cap && AllSendable(ps, compression) && Sized(y, cap)
    requires Alike(y, Wakes(x, answers, cap, compression, n)) && !Lost(y)
    ensures Serves(y, read, ps, cap, compression,
                   Fitting(ps, cap, compression) && |x.wire| <= n && Lively(x, answers, cap, compression, n))
  {
    hide Joined, Stream, Sendable, Body, Between, AllSendable, Fitting, Reports, Wakes, Lively, AllInside;
    var start, z := State([], read, 0), Wakes(x, answers, cap, compression, n);
    StartsBetween(read, x, cap, compression);
    WakesBetween(start, x, answers, cap, compression, n);
    BetweenAlike(start, y, z, cap, compression);
    assert Joined(y.log) + y.wire == Stream(ps, compression) && Joined(y.log) <= Stream(ps, compression) by {
      assert [] + x.wire == x.wire;
    }
    BetweenStream(read, y, ps, cap, compression);
    if y.wire == [] {
      assert Joined(y.log) + [] == Joined(y.log);
    }
    if Fitting(ps, cap, compression) && |x.wire| <= n && Lively(x, answers, cap, compression, n) {
      assert Joined(x.log) + x.wire == Stream(ps, compression) by {
        assert [] + x.wire == x.wire;
      }
      WakesDrain(read, x, ps, answers, cap, compression, n);
    }
  }
}
