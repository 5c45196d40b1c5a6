/** What a writable event does to the sending half of a connection: the bytes that go out, the answers of the
    system that are used up, and when the connection waits, is closed or has failed. */
module Outbound {
  import opened Bytes
  import opened ByteBuffer
  import opened Inbound

  /** What the system does the next time it is handed bytes: take up to `n`, none yet, or no more. */
  datatype Response = Accept(n: nat) | Retry | Closed | Reset

  /** What sendmsg reports then. */
  datatype Receipt = Took(bs: seq<byte>) | Later | Gone | Torn

  /** The sending half of a connection: its queue and where it starts in the ring, what the socket has taken,
      and the receipts it has given. */
  datatype Outlet = Outlet(queue: seq<byte>, read: nat, accepted: seq<byte>, pending: bool, open: bool, failed: bool,
                           log: seq<Receipt>)

  predicate Fits(x: Outlet, cap: nat) {
    0 < cap && |x.queue| <= cap && x.read < cap
  }

  /** The bytes the regions hold: those of a full queue with its heads inside the ring run on into its
      beginning. */
  function Offered(queue: seq<byte>, read: nat, cap: nat): (s: seq<byte>)
    requires |queue| <= cap && read < cap
    ensures queue <= s
  {
    if |queue| == cap && read != 0 then queue + queue[..cap - read] else queue
  }

  /** sendmsg: taking nothing is the end of the stream. */
  function Answered(a: Response, queue: seq<byte>, read: nat, cap: nat): Receipt
    requires |queue| <= cap && read < cap
  {
    match a
    case Accept(n) =>
      var s := Offered(queue, read, cap);
      if n == 0 then Gone else Took(s[..Least(n, |s|)])
    case Retry => Later
    case Closed => Gone
    case Reset => Torn
  }

  /** sock_send_buf. */
  function Pushed(x: Outlet, answers: nat -> Response, cap: nat): (r: (Outlet, IoCode))
    requires Fits(x, cap)
    ensures Fits(r.0, cap) && |r.0.queue| <= |x.queue|
    ensures r.1 == IocOk && x.queue != [] ==> |r.0.queue| < |x.queue|
  {
    var receipt := Answered(answers(|x.log|), x.queue, x.read, cap);
    var y := x.(log := x.log + [receipt], failed := receipt == Gone || receipt == Torn);
    match receipt
    case Took(bs) =>
      var k := Least(|bs|, |x.queue|);
      (y.(queue := x.queue[k..], read := Wrap(cap, x.read + k), accepted := x.accepted + bs), IocOk)
    case Later => (y, IocAgain)
    case Gone => (y, IocClosed)
    case Torn => (y, IocError)
  }

  /** empty_buffer. */
  function Emptied(x: Outlet, answers: nat -> Response, cap: nat): (r: (Outlet, IoCode))
    requires Fits(x, cap)
    ensures Fits(r.0, cap) && |r.0.queue| <= |x.queue| && (r.1 == IocAgain ==> r.0.pending)
    decreases |x.queue|
  {
    if x.queue == [] then (x, IocOk)
    else
      var (y, code) := Pushed(x, answers, cap);
      if code == IocOk then Emptied(y, answers, cap)
      else (if code == IocAgain then y.(pending := true) else y, code)
  }

  lemma {:induction false} EmptiedOn(x: Outlet, answers: nat -> Response, cap: nat)
    requires Fits(x, cap)
    ensures Emptied(x, answers, cap)
            == if x.queue == [] then (x, IocOk)
               else
                 var (y, code) := Pushed(x, answers, cap);
                 if code == IocOk then Emptied(y, answers, cap)
                 else (if code == IocAgain then y.(pending := true) else y, code)
  {
  }

  /** A writable event. */
  function Written(x: Outlet, answers: nat -> Response, cap: nat): (r: Outlet)
    requires Fits(x, cap)
    ensures Fits(r, cap) && |r.queue| <= |x.queue|
  {
    if !x.pending then x
    else
      var (y, code) := Emptied(x.(pending := false), answers, cap);
      if code == IocClosed || code == IocError then y.(open := false) else y
  }

  /** What send_packet does once the frame is queued. */
  function Flushed(x: Outlet, answers: nat -> Response, cap: nat): (r: Outlet)
    requires Fits(x, cap)
    ensures Fits(r, cap) && |r.queue| <= |x.queue|
  {
    if x.pending then x else Emptied(x, answers, cap).0
  }

  // Which answers are used up

  predicate Acknowledges(a: Response, r: Receipt) {
    match r
    case Took(bs) => a.Accept? && 0 < |bs| <= a.n
    case Later => a == Retry
    case Gone => a == Closed || a == Accept(0)
    case Torn => a == Reset
  }

  /** The bytes among the receipts from number `n` on. */
  function Taken(log: seq<Receipt>, n: nat): seq<byte> {
    if |log| <= n then []
    else Taken(log[..|log| - 1], n) + match log[|log| - 1] case Took(bs) => bs case _ => []
  }

  lemma {:induction false} TakenMore(log: seq<Receipt>, r: Receipt, n: nat)
    requires n <= |log|
    ensures Taken(log + [r], n) == Taken(log, n) + match r case Took(bs) => bs case _ => []
  {
    assert (log + [r])[..|log|] == log;
  }

  /** From `x` to `y` receipts have come, as the answers say; what they are for has been accepted. All but the
      last are for bytes. */
  predicate Spends(x: Outlet, y: Outlet, answers: nat -> Response) {
    && x.log <= y.log && (forall i :: |x.log| <= i < |y.log| ==> Acknowledges(answers(i), y.log[i]))
    && (forall i :: |x.log| <= i < |y.log| - 1 ==> y.log[i].Took?)
    && y.accepted == x.accepted + Taken(y.log, |x.log|)
  }

  /** How empty_buffer ends: with an empty queue, or with the first receipt that is for no bytes. */
  predicate Spent(x: Outlet, y: Outlet, code: IoCode) {
    && y.open == x.open
    && if x.queue == [] then y == x && code == IocOk
       else |x.log| < |y.log| && match y.log[|y.log| - 1]
         case Took(_) => y.queue == [] && y.pending == x.pending && !y.failed && code == IocOk
         case Later => y.queue != [] && y.pending && !y.failed && code == IocAgain
         case Gone => y.queue != [] && y.pending == x.pending && y.failed && code == IocClosed
         case Torn => y.queue != [] && y.pending == x.pending && y.failed && code == IocError
  }

  lemma {:induction false} AnswerSays(a: Response, queue: seq<byte>, read: nat, cap: nat)
    requires queue != [] && |queue| <= cap && read < cap
    ensures Acknowledges(a, Answered(a, queue, read, cap))
  {
  }

  lemma {:induction false} TakenNone(log: seq<Receipt>)
    ensures Taken(log, |log|) == []
  {
  }

  lemma {:induction false} PushedSpends(x: Outlet, answers: nat -> Response, cap: nat)
    requires Fits(x, cap) && x.queue != []
    ensures var (y, code) := Pushed(x, answers, cap);
            && Spends(x, y, answers) && |y.log| == |x.log| + 1 && y.pending == x.pending && y.open == x.open
            && (y.log[|x.log|].Took? <==> code == IocOk)
  {
    hide Answered, Acknowledges, Taken, Wrap, Offered;
    var receipt := Answered(answers(|x.log|), x.queue, x.read, cap);
    AnswerSays(answers(|x.log|), x.queue, x.read, cap);
    TakenMore(x.log, receipt, |x.log|);
    TakenNone(x.log);
    assert x.accepted + [] == x.accepted;
    if receipt.Took? {
      assert [] + receipt.bs == receipt.bs;
    }
  }

  lemma {:induction false} SpendsTwice(x: Outlet, y: Outlet, z: Outlet, answers: nat -> Response)
    requires Spends(x, y, answers) && Spends(y, z, answers) && (|x.log| < |y.log| ==> y.log[|y.log| - 1].Took?)
    ensures Spends(x, z, answers)
  {
    hide Taken, Acknowledges;
    assert z.log[..|y.log|] == y.log;
    TakenOn(z.log, |x.log|, |y.log|);
    Assoc(x.accepted, Taken(y.log, |x.log|), Taken(z.log, |y.log|));
    forall i | |x.log| <= i < |z.log| ensures Acknowledges(answers(i), z.log[i]) && (i < |z.log| - 1 ==> z.log[i].Took?) {
      if i < |y.log| {
        assert z.log[i] == y.log[i];
      }
    }
  }

  lemma {:induction false} TakenOn(log: seq<Receipt>, m: nat, n: nat)
    requires m <= n <= |log|
    ensures Taken(log, m) == Taken(log[..n], m) + Taken(log, n)
    decreases |log|
  {
    if n < |log| {
      TakenOn(log[..|log| - 1], m, n);
      assert log[..|log| - 1][..n] == log[..n];
      var last := match log[|log| - 1] case Took(bs) => bs case _ => [];
      Assoc(Taken(log[..n], m), Taken(log[..|log| - 1], n), last);
    } else {
      assert log[..n] == log;
    }
  }

  lemma {:induction false} EmptiedSpends(x: Outlet, answers: nat -> Response, cap: nat)
    requires Fits(x, cap)
    ensures Spends(x, Emptied(x, answers, cap).0, answers)
    decreases |x.queue|
  {
    hide Answered, Acknowledges, Spends, Pushed;
    if x.queue == [] {
      SpendsNone(x, answers);
    } else {
      var (y, code) := Pushed(x, answers, cap);
      PushedSpends(x, answers, cap);
      if code == IocOk {
        EmptiedSpends(y, answers, cap);
        SpendsTwice(x, y, Emptied(y, answers, cap).0, answers);
      } else {
        SpendsLike(x, y, answers);
      }
    }
  }

  lemma {:induction false} SpendsNone(x: Outlet, answers: nat -> Response)
    ensures Spends(x, x, answers)
  {
    TakenNone(x.log);
    assert x.accepted + [] == x.accepted;
  }

  /** Waiting or not, and open or not, does not matter for what is spent. */
  lemma {:induction false} SpendsLike(x: Outlet, y: Outlet, answers: nat -> Response)
    requires Spends(x, y, answers)
    ensures forall a, b, c, d :: Spends(x.(pending := a, open := b), y.(pending := c, open := d), answers)
  {
  }

  lemma {:induction false} EmptiedEnds(x: Outlet, answers: nat -> Response, cap: nat)
    requires Fits(x, cap)
    ensures var (y, code) := Emptied(x, answers, cap);
            Spent(x, y, code)
    decreases |x.queue|
  {
    hide Answered, Offered, Wrap;
    if x.queue != [] {
      var (y, code) := Pushed(x, answers, cap);
      if code == IocOk {
        EmptiedEnds(y, answers, cap);
      }
    }
  }

  /** How a writable event on a waiting connection ends. It has handed the queue over, and gone on as long as
      bytes were taken: until the queue was empty, the system took none yet, or the stream ended or broke. */
  lemma {:induction false} WrittenEnds(x: Outlet, answers: nat -> Response, cap: nat)
    requires Fits(x, cap) && x.open && x.pending
    ensures var y := Written(x, answers, cap);
            && Spends(x, y, answers)
            && if x.queue == [] then y == x.(pending := false)
               else |x.log| < |y.log| && match y.log[|y.log| - 1]
                 case Took(_) => y.open && y.queue == [] && !y.pending && !y.failed
                 case Later => y.open && y.queue != [] && y.pending && !y.failed
                 case Gone => !y.open && y.failed
                 case Torn => !y.open && y.failed
  {
    hide Emptied, Spends;
    var x0 := x.(pending := false);
    EmptiedSpends(x0, answers, cap);
    EmptiedEnds(x0, answers, cap);
    SpendsLike(x0, Emptied(x0, answers, cap).0, answers);
    assert x == x0.(pending := true, open := x0.open);
  }

  /** The same for a packet that is sent while the connection does not wait; a failed socket is only noted. */
  lemma {:induction false} FlushedEnds(x: Outlet, answers: nat -> Response, cap: nat)
    requires Fits(x, cap) && !x.pending && x.queue != []
    ensures var y := Flushed(x, answers, cap);
            && Spends(x, y, answers) && y.open == x.open && |x.log| < |y.log|
            && match y.log[|y.log| - 1]
               case Took(_) => y.queue == [] && !y.pending && !y.failed
               case Later => y.queue != [] && y.pending && !y.failed
               case Gone => y.queue != [] && !y.pending && y.failed
               case Torn => y.queue != [] && !y.pending && y.failed
  {
    hide Emptied, Spends;
    EmptiedSpends(x, answers, cap);
    EmptiedEnds(x, answers, cap);
  }

  /** What is taken is the beginning of the queue, as much of it as the system takes, and no more than the
      queue unless that fills the ring with its heads inside. */
  lemma {:induction false} TakesQueue(x: Outlet, answers: nat -> Response, cap: nat)
    requires Fits(x, cap) && x.queue != [] && answers(|x.log|).Accept? && answers(|x.log|).n > 0
    ensures var (y, code) := Pushed(x, answers, cap);
            var n := answers(|x.log|).n;
            && code == IocOk
            && (n <= |x.queue| ==> y.accepted == x.accepted + x.queue[..n] && y.queue == x.queue[n..])
            && (n > |x.queue| ==> x.accepted + x.queue <= y.accepted && y.queue == []
                                  && (|x.queue| < cap || x.read == 0 ==> y.accepted == x.accepted + x.queue))
  {
  }

  /** A wake-up of a system that takes bytes makes the queue shorter. */
  lemma {:induction false} WrittenTakes(x: Outlet, answers: nat -> Response, cap: nat)
    requires Fits(x, cap) && x.pending && x.queue != [] && answers(|x.log|).Accept? && answers(|x.log|).n > 0
    ensures |Written(x, answers, cap).queue| < |x.queue|
  {
    TakesQueue(x.(pending := false), answers, cap);
  }

  /** While the queue does not fill the ring, nothing is taken that is not queued. */
  lemma {:induction false} EmptiedKeeps(x: Outlet, answers: nat -> Response, cap: nat)
    requires Fits(x, cap) && |x.queue| < cap
    ensures var y := Emptied(x, answers, cap).0;
            x.accepted + x.queue == y.accepted + y.queue && x.accepted <= y.accepted
    decreases |x.queue|
  {
    hide Wrap;
    if x.queue != [] {
      var (y, code) := Pushed(x, answers, cap);
      if code == IocOk {
        var bs := Answered(answers(|x.log|), x.queue, x.read, cap).bs;
        assert x.queue == bs + x.queue[|bs|..];
        Assoc(x.accepted, bs, x.queue[|bs|..]);
        EmptiedKeeps(y, answers, cap);
      }
    }
  }

  lemma {:induction false} WrittenKeeps(x: Outlet, answers: nat -> Response, cap: nat)
    requires Fits(x, cap) && |x.queue| < cap
    ensures var y := Written(x, answers, cap);
            x.accepted + x.queue == y.accepted + y.queue && x.accepted <= y.accepted
  {
    hide Emptied;
    EmptiedKeeps(x.(pending := false), answers, cap);
  }
}
