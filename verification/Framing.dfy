/** Packets on the wire: how send_packet frames them, and what the resumable receiver makes of the bytes
    however they are cut into arrivals. */
module Framing {
  import opened Bytes
  import opened ByteBuffer
  import opened VarInt

  datatype Packet = Packet(id: int, payload: seq<byte>)

  /** The identifier and the payload, as the encoder leaves them in the scratch buffer. */
  function Inner(p: Packet, behind: byte): seq<byte> {
    Spell(p.id, behind) + p.payload
  }

  /** What the length in front counts: below the threshold, a compressed connection marks the packet with 0. */
  function Body(p: Packet, compression: bool, behind: byte): seq<byte> {
    (if compression then Spell(0, behind) else []) + Inner(p, behind)
  }

  function Frame(p: Packet, compression: bool, behind: byte): seq<byte> {
    Spell(|Body(p, compression, behind)|, behind) + Body(p, compression, behind)
  }

  function Stream(ps: seq<Packet>, compression: bool): seq<byte> {
    if ps == [] then [] else Frame(ps[0], compression, 0) + Stream(ps[1..], compression)
  }

  predicate Sendable(p: Packet, compression: bool) {
    Encodable(p.id) && Encodable(|Body(p, compression, 0)|)
  }

  /** The receive buffer's content and read head, and the length of the packet being received, 0 while it
      has not been read. */
  datatype State = State(content: seq<byte>, read: nat, total: int)

  function With(s: State, more: seq<byte>): State {
    s.(content := s.content + more)
  }

  datatype Step = Again(s: State) | Failed | Got(p: Packet, s: State)

  /** decode_packet. Reading the identifier past the packet leaves a payload length no decoder meets, and a
      missing identifier or mark leaves a variable unset; both are failures here, as is compressed data. */
  function Decode(s: State, cap: nat, compression: bool): Step
    requires 0 < cap
  {
    match if s.total == 0 then Scan(s.content, s.read, cap, 0) else Read(s.total, 0)
    case Short => Again(s)
    case Read(length, used) =>
      var s' := State(s.content[used..], Turn(cap, s.read + used), length);
      if length < 0 || |s'.content| < length then Again(s') else DecodeBody(s', cap, compression)
    case _ => Failed
  }

  function DecodeBody(s: State, cap: nat, compression: bool): (r: Step)
    requires 0 < cap && 0 <= s.total <= |s.content|
    ensures !r.Again?
  {
    match if compression then Scan(s.content, s.read, cap, 0) else Read(0, 0)
    case Read(n, mark) =>
      if n > 0 then Failed
      else DecodeId(s, mark, cap)
    case _ => Failed
  }

  function DecodeId(s: State, mark: nat, cap: nat): (r: Step)
    requires 0 < cap && 0 <= s.total <= |s.content| && mark <= |s.content|
    ensures !r.Again?
  {
    match Scan(s.content[mark..], Turn(cap, s.read + mark), cap, 0)
    case Read(id, k) =>
      if mark + k > s.total then Failed
      else Got(Packet(id, s.content[mark + k..s.total]), State(s.content[s.total..], Turn(cap, s.read + s.total), 0))
    case _ => Failed
  }

  /** The packets delivered, what is left, and whether the receiver waits for more. */
  datatype Outcome = Outcome(packets: seq<Packet>, s: State, waiting: bool)

  /** receive_packet: packets are decoded and handled as long as they come. */
  function Receive(s: State, cap: nat, compression: bool): Outcome
    requires 0 < cap
    decreases |s.content|
  {
    match Decode(s, cap, compression)
    case Again(s') => Outcome([], s', true)
    case Failed => Outcome([], s, false)
    case Got(p, s') => Before(p, Receive(s', cap, compression))
  }

  function Before(p: Packet, o: Outcome): Outcome {
    o.(packets := [p] + o.packets)
  }

  /** Arrivals, each followed by receive_packet, until one fails. */
  function Feed(s: State, arrivals: seq<seq<byte>>, cap: nat, compression: bool): Outcome
    requires 0 < cap
    decreases |arrivals|
  {
    if arrivals == [] then Outcome([], s, true)
    else
      var o := Receive(With(s, arrivals[0]), cap, compression);
      if o.waiting then After(o.packets, Feed(o.s, arrivals[1..], cap, compression)) else o
  }

  function After(ps: seq<Packet>, o: Outcome): Outcome {
    o.(packets := ps + o.packets)
  }

  function Concat(arrivals: seq<seq<byte>>): seq<byte> {
    if arrivals == [] then [] else arrivals[0] + Concat(arrivals[1..])
  }

  // Cutting the bytes into arrivals does not matter

  lemma {:induction false} ScanUsesContent(content: seq<byte>, read: nat, cap: nat)
    ensures var r := Scan(content, read, cap, 0);
            r.Read? ==> 0 < r.used <= |content|
  {
  }

  /** With more bytes behind, the same header and identifier are read. */
  lemma {:induction false} IdMore(s: State, mark: nat, more: seq<byte>, cap: nat)
    requires 0 < cap && 0 <= s.total <= |s.content| && mark <= |s.content|
    ensures DecodeId(With(s, more), mark, cap)
            == match DecodeId(s, mark, cap)
               case Got(p, s') => Got(p, With(s', more))
               case other => Failed
  {
    hide Scan, Turn;
    var rest, read := s.content[mark..], Turn(cap, s.read + mark);
    assert With(s, more).content[mark..] == rest + more;
    ScanMore(rest, more, read, cap, 0);
    ScanShort(rest, more, read, cap, 0);
    var r := Scan(rest, read, cap, 0);
    if r.Read? && mark + r.used <= s.total {
      var all := s.content + more;
      assert all[mark + r.used..s.total] == s.content[mark + r.used..s.total];
      assert all[s.total..] == s.content[s.total..] + more;
    }
  }

  /** What completes a number that was too short lies beyond what was there. */
  lemma {:induction false} ScanShort(content: seq<byte>, more: seq<byte>, read: nat, cap: nat, i: nat)
    requires i < 5
    ensures Scan(content, read, cap, i) == Short ==>
              var r := Scan(content + more, read, cap, i);
              r.Read? ==> r.used > |content|
    decreases 5 - i
  {
    if i < |content| {
      assert (content + more)[i] == content[i];
      if content[i] >= 128 && i < 4 && read + i < cap {
        ScanShort(content, more, read, cap, i + 1);
      }
    }
  }

  lemma {:induction false} BodyMore(s: State, more: seq<byte>, cap: nat, compression: bool)
    requires 0 < cap && 0 <= s.total <= |s.content|
    ensures DecodeBody(With(s, more), cap, compression)
            == match DecodeBody(s, cap, compression)
               case Got(p, s') => Got(p, With(s', more))
               case other => Failed
  {
    hide Scan, Turn;
    ScanMore(s.content, more, s.read, cap, 0);
    ScanShort(s.content, more, s.read, cap, 0);
    var r := if compression then Scan(s.content, s.read, cap, 0) else Read(0, 0);
    if r.Read? {
      IdMore(s, r.used, more, cap);
    } else {
      var r' := Scan(s.content + more, s.read, cap, 0);
      if r'.Read? && r'.n <= 0 {
        IdBeyond(With(s, more), r'.used, cap);
      }
    }
  }

  lemma {:induction false} IdBeyond(s: State, mark: nat, cap: nat)
    requires 0 < cap && 0 <= s.total <= mark <= |s.content|
    ensures DecodeId(s, mark, cap) == Failed
  {
    ScanUsesContent(s.content[mark..], Turn(cap, s.read + mark), cap);
  }

  lemma {:induction false} DecodeMore(s: State, more: seq<byte>, cap: nat, compression: bool)
    requires 0 < cap && s.read < cap
    ensures Decode(With(s, more), cap, compression)
            == match Decode(s, cap, compression)
               case Again(s') => Decode(With(s', more), cap, compression)
               case Got(p, s') => Got(p, With(s', more))
               case Failed => Failed
  {
    hide Scan, Turn, DecodeBody;
    ScanMore(s.content, more, s.read, cap, 0);
    var r := if s.total == 0 then Scan(s.content, s.read, cap, 0) else Read(s.total, 0);
    if r.Read? {
      var s' := State(s.content[r.used..], Turn(cap, s.read + r.used), r.n);
      assert With(s, more).content[r.used..] == s'.content + more;
      if 0 <= r.n <= |s'.content| {
        assert Decode(s, cap, compression) == DecodeBody(s', cap, compression);
        assert Decode(With(s, more), cap, compression) == DecodeBody(With(s', more), cap, compression);
        BodyMore(s', more, cap, compression);
      } else {
        AgainStays(s', more, cap, compression);
      }
    }
  }

  lemma {:induction false} AgainStays(s: State, more: seq<byte>, cap: nat, compression: bool)
    requires 0 < cap && s.read < cap && s.total != 0
    ensures Decode(With(s, more), cap, compression)
            == if s.total < 0 || |s.content + more| < s.total then Again(With(s, more))
               else DecodeBody(With(s, more), cap, compression)
  {
    hide Scan, DecodeBody;
    assert (s.content + more)[0..] == s.content + more;
    SmallMod(s.read, cap);
  }

  lemma {:induction false} DecodeKeeps(s: State, cap: nat, compression: bool)
    requires 0 < cap && s.read < cap
    ensures var d := Decode(s, cap, compression);
            (d.Again? ==> d.s.read < cap && Decode(d.s, cap, compression) == d) && (d.Got? ==> d.s.read < cap)
  {
    hide Scan;
    if s.total != 0 {
      SmallMod(s.read, cap);
      assert s.content[0..] == s.content;
    }
    var d := Decode(s, cap, compression);
    if d.Again? && d.s.total != 0 {
      assert d.s.content + [] == d.s.content;
      AgainStays(d.s, [], cap, compression);
    }
  }

  /** The same packets, and the same state unless both have failed. */
  predicate Same(a: Outcome, b: Outcome) {
    a.packets == b.packets && a.waiting == b.waiting && (a.waiting ==> a.s == b.s)
  }

  /** Receiving what is there, then more, is receiving all of it. */
  lemma {:induction false} Resumable(s: State, more: seq<byte>, cap: nat, compression: bool)
    requires 0 < cap && s.read < cap
    ensures var o := Receive(s, cap, compression);
            o.s.read < cap
            && Same(Receive(With(s, more), cap, compression),
                    if o.waiting then After(o.packets, Receive(With(o.s, more), cap, compression)) else o)
    decreases |s.content|
  {
    hide Decode, Receive;
    DecodeMore(s, more, cap, compression);
    DecodeKeeps(s, cap, compression);
    Unfold(s, cap, compression);
    Unfold(With(s, more), cap, compression);
    var d := Decode(s, cap, compression);
    if d.Again? {
      Unfold(With(d.s, more), cap, compression);
      assert [] + Receive(With(d.s, more), cap, compression).packets == Receive(With(d.s, more), cap, compression).packets;
    } else if d.Got? {
      Smaller(s, cap, compression);
      Resumable(d.s, more, cap, compression);
      var o := Receive(d.s, cap, compression);
      Assoc([d.p], o.packets, Receive(With(o.s, more), cap, compression).packets);
    }
  }

  lemma {:induction false} Unfold(s: State, cap: nat, compression: bool)
    requires 0 < cap
    ensures Receive(s, cap, compression)
            == match Decode(s, cap, compression)
               case Again(s') => Outcome([], s', true)
               case Failed => Outcome([], s, false)
               case Got(p, s') => Before(p, Receive(s', cap, compression))
  {
  }

  lemma {:induction false} Smaller(s: State, cap: nat, compression: bool)
    requires 0 < cap
    ensures var d := Decode(s, cap, compression);
            d.Got? ==> |d.s.content| < |s.content|
  {
  }

  /** A receiver at rest has taken all it can from what is there. */
  predicate AtRest(s: State, cap: nat, compression: bool)
    requires 0 < cap
  {
    Receive(s, cap, compression) == Outcome([], s, true)
  }

  lemma {:induction false} RestsAfter(s: State, cap: nat, compression: bool)
    requires 0 < cap && s.read < cap
    ensures var o := Receive(s, cap, compression);
            o.s.read < cap && (o.waiting ==> AtRest(o.s, cap, compression))
    decreases |s.content|
  {
    DecodeKeeps(s, cap, compression);
    Smaller(s, cap, compression);
    hide Decode;
    var d := Decode(s, cap, compression);
    if d.Got? {
      RestsAfter(d.s, cap, compression);
    }
  }

  /** However the bytes are cut into arrivals, the same packets are delivered and the receiver ends in the
      same state. */
  lemma {:induction false} AnyCut(s: State, arrivals: seq<seq<byte>>, cap: nat, compression: bool)
    requires 0 < cap && s.read < cap && AtRest(s, cap, compression)
    ensures var o, all := Feed(s, arrivals, cap, compression), Receive(With(s, Concat(arrivals)), cap, compression);
            Same(o, all)
    decreases |arrivals|
  {
    hide Receive;
    if arrivals == [] {
      assert s.content + [] == s.content;
    } else {
      var first := With(s, arrivals[0]);
      Assoc(s.content, arrivals[0], Concat(arrivals[1..]));
      Resumable(first, Concat(arrivals[1..]), cap, compression);
      RestsAfter(first, cap, compression);
      var o := Receive(first, cap, compression);
      if o.waiting {
        AnyCut(o.s, arrivals[1..], cap, compression);
      }
    }
  }

  /** A receiver at rest with a full buffer waits for a packet that no buffer of this size can hold. */
  lemma {:induction false} WaitsForRoom(s: State, cap: nat, compression: bool)
    requires 5 <= cap && s.read < cap && AtRest(s, cap, compression) && |s.content| >= cap
    ensures s.total < 0 || s.total > |s.content|
  {
    ShortIsShort(s.content, s.read, cap, 0);
    Unfold(s, cap, compression);
    SmallMod(s.read, cap);
    assert s.content[0..] == s.content;
  }

  lemma {:induction false} ShortIsShort(content: seq<byte>, read: nat, cap: nat, i: nat)
    requires i < 5
    ensures Scan(content, read, cap, i) == Short ==> |content| < 5
    decreases 5 - i
  {
    if i < 4 {
      ShortIsShort(content, read, cap, i + 1);
    }
  }

  // What was framed is received

  function Header(p: Packet, compression: bool): seq<byte> {
    Spell(|Body(p, compression, 0)|, 0)
  }

  function Mark(compression: bool): nat {
    if compression then 1 else 0
  }

  /** Neither the length nor the identifier of a frame starting at `read` runs past the end of the ring. */
  predicate Inside(p: Packet, read: nat, cap: nat, compression: bool)
    requires 0 < cap
  {
    var h := |Header(p, compression)|;
    read + h <= cap && Turn(cap, read + h + Mark(compression)) + |Spell(p.id, 0)| <= cap
  }

  predicate AllInside(ps: seq<Packet>, read: nat, cap: nat, compression: bool)
    requires 0 < cap
  {
    ps == []
    || (Inside(ps[0], read, cap, compression)
        && AllInside(ps[1..], Turn(cap, read + |Frame(ps[0], compression, 0)|), cap, compression))
  }

  lemma {:induction false} FrameDecodes(p: Packet, rest: seq<byte>, read: nat, cap: nat, compression: bool)
    requires Sendable(p, compression) && read < cap
    ensures Decode(State(Frame(p, compression, 0) + rest, read, 0), cap, compression)
            == if Inside(p, read, cap, compression)
               then Got(p, State(rest, Turn(cap, read + |Frame(p, compression, 0)|), 0)) else Failed
  {
    hide Spell, Scan, Turn, DecodeBody;
    var body, header := Body(p, compression, 0), Header(p, compression);
    Assoc(header, body, rest);
    RoundTrip(|body|, 0, body + rest, read, cap);
    if read + |header| <= cap {
      var s := State(body + rest, Turn(cap, read + |header|), |body|);
      assert (header + (body + rest))[|header|..] == s.content;
      BodyDecodes(p, rest, Turn(cap, read + |header|), cap, compression);
      TurnTurn(cap, read + |header|, |body|);
      TurnTurn(cap, read + |header|, Mark(compression));
      BodySome(p, compression);
    }
  }

  lemma {:induction false} BodySome(p: Packet, compression: bool)
    ensures |Body(p, compression, 0)| > 0
  {
  }

  lemma {:induction false} BodyDecodes(p: Packet, rest: seq<byte>, read: nat, cap: nat, compression: bool)
    requires Sendable(p, compression) && read < cap
    ensures var body := Body(p, compression, 0);
            DecodeBody(State(body + rest, read, |body|), cap, compression)
            == if Turn(cap, read + Mark(compression)) + |Spell(p.id, 0)| <= cap
               then Got(p, State(rest, Turn(cap, read + |body|), 0)) else Failed
  {
    hide Scan, Turn, DecodeId;
    var body, inner := Body(p, compression, 0), Inner(p, 0);
    IdDecodes(p, rest, read, cap, compression);
    if compression {
      assert Spell(0, 0) == [0];
      Assoc(Spell(0, 0), inner, rest);
      RoundTrip(0, 0, inner + rest, read, cap);
    }
  }

  lemma {:induction false} IdDecodes(p: Packet, rest: seq<byte>, read: nat, cap: nat, compression: bool)
    requires Sendable(p, compression) && read < cap
    ensures var body := Body(p, compression, 0);
            Mark(compression) <= |body|
            && DecodeId(State(body + rest, read, |body|), Mark(compression), cap)
               == if Turn(cap, read + Mark(compression)) + |Spell(p.id, 0)| <= cap
                  then Got(p, State(rest, Turn(cap, read + |body|), 0)) else Failed
  {
    hide Scan, Turn;
    var body, inner, mark := Body(p, compression, 0), Inner(p, 0), Mark(compression);
    assert Spell(0, 0) == [0];
    hide Spell;
    assert (body + rest)[mark..] == inner + rest;
    Assoc(Spell(p.id, 0), p.payload, rest);
    RoundTrip(p.id, 0, p.payload + rest, Turn(cap, read + mark), cap);
    assert (body + rest)[mark + |Spell(p.id, 0)|..|body|] == p.payload;
    assert (body + rest)[|body|..] == rest;
  }

  /** All packets arrive exactly when no length and no identifier straddles the end of the ring; otherwise
      the receiver fails with the packets before. */
  lemma {:induction false} StreamReceived(ps: seq<Packet>, read: nat, cap: nat, compression: bool)
    requires (forall p :: p in ps ==> Sendable(p, compression)) && read < cap
    ensures var o := Receive(State(Stream(ps, compression), read, 0), cap, compression);
            if AllInside(ps, read, cap, compression)
            then o == Outcome(ps, State([], Turn(cap, read + |Stream(ps, compression)|), 0), true)
            else !o.waiting && o.packets < ps
    decreases |ps|
  {
    hide Receive, Decode, Frame, Inside, Sendable, Turn;
    if ps == [] {
      RestsEmpty(read, cap, compression);
      TurnSmall(cap, read);
    } else {
      var k := |Frame(ps[0], compression, 0)|;
      FirstReceived(ps, read, cap, compression);
      if Inside(ps[0], read, cap, compression) {
        StreamReceived(ps[1..], Turn(cap, read + k), cap, compression);
        TurnTurn(cap, read + k, |Stream(ps[1..], compression)|);
      }
      assert ps == [ps[0]] + ps[1..];
    }
  }

  lemma {:induction false} FirstReceived(ps: seq<Packet>, read: nat, cap: nat, compression: bool)
    requires ps != [] && Sendable(ps[0], compression) && read < cap
    ensures var s, next := State(Stream(ps, compression), read, 0), Turn(cap, read + |Frame(ps[0], compression, 0)|);
            Receive(s, cap, compression)
            == if Inside(ps[0], read, cap, compression)
               then Before(ps[0], Receive(State(Stream(ps[1..], compression), next, 0), cap, compression))
               else Outcome([], s, false)
  {
    hide Receive, Decode, Frame, Inside, Sendable, Turn;
    Unfold(State(Stream(ps, compression), read, 0), cap, compression);
    FrameDecodes(ps[0], Stream(ps[1..], compression), read, cap, compression);
  }

  /** End to end: frames cut into arrivals anywhere are decoded as the packets that were sent, nothing lost,
      duplicated or split, exactly when no length and no identifier straddles the end of the ring. */
  lemma {:induction false} EndToEnd(ps: seq<Packet>, arrivals: seq<seq<byte>>, read: nat, cap: nat, compression: bool)
    requires (forall p :: p in ps ==> Sendable(p, compression)) && read < cap
    requires Concat(arrivals) == Stream(ps, compression)
    ensures var o := Feed(State([], read, 0), arrivals, cap, compression);
            (o.waiting && o.packets == ps <==> AllInside(ps, read, cap, compression)) && o.packets <= ps
  {
    hide Receive, AllInside, Sendable, Feed, AtRest, Turn, Stream, Concat;
    var s := State([], read, 0);
    RestsEmpty(read, cap, compression);
    AnyCut(s, arrivals, cap, compression);
    assert With(s, Concat(arrivals)) == State(Stream(ps, compression), read, 0) by {
      assert [] + Concat(arrivals) == Concat(arrivals);
    }
    StreamReceived(ps, read, cap, compression);
  }

  lemma {:induction false} RestsEmpty(read: nat, cap: nat, compression: bool)
    requires read < cap
    ensures AtRest(State([], read, 0), cap, compression)
  {
    Unfold(State([], read, 0), cap, compression);
  }

  /** A part of a frame is not a packet yet, and all that can be known of it is its length. */
  lemma {:induction false} PartOfFrame(p: Packet, part: seq<byte>, more: seq<byte>, read: nat, cap: nat, compression: bool)
    requires Sendable(p, compression) && read < cap && part + more == Frame(p, compression, 0) && more != []
    ensures var d := Decode(State(part, read, 0), cap, compression);
            !d.Got? && (d.Again? ==> d.s.total == 0 || d.s.total == |Body(p, compression, 0)|)
  {
    hide Scan, Turn, DecodeBody, Inside, Body, Spell;
    var s, body := State(part, read, 0), Body(p, compression, 0);
    assert Frame(p, compression, 0) + [] == Frame(p, compression, 0) && body + [] == body;
    FrameDecodes(p, [], read, cap, compression);
    DecodeMore(s, more, cap, compression);
    assert With(s, more) == State(Frame(p, compression, 0), read, 0);
    ScanMore(part, more, read, cap, 0);
    RoundTrip(|body|, 0, body, read, cap);
  }

  /** A receiver that waits in the middle of a stream waits for a length, or for the body of a packet. */
  lemma {:induction false} WaitsForBody(ps: seq<Packet>, part: seq<byte>, read: nat, cap: nat, compression: bool)
    requires (forall p :: p in ps ==> Sendable(p, compression)) && read < cap && part <= Stream(ps, compression)
    ensures var o := Receive(State(part, read, 0), cap, compression);
            o.waiting ==> o.s.total == 0 || exists p :: p in ps && o.s.total == |Body(p, compression, 0)|
    decreases |ps|
  {
    hide Receive, Decode, Frame, Inside, Sendable, Turn, Body;
    Unfold(State(part, read, 0), cap, compression);
    if ps == [] {
      RestsEmpty(read, cap, compression);
    } else {
      var frame, rest := Frame(ps[0], compression, 0), Stream(ps[1..], compression);
      if |frame| <= |part| {
        var part' := part[|frame|..];
        assert part == frame + part' && part' <= rest by {
          assert part == (frame + rest)[..|part|];
        }
        FrameDecodes(ps[0], part', read, cap, compression);
        WaitsForBody(ps[1..], part', Turn(cap, read + |frame|), cap, compression);
      } else {
        assert part + frame[|part|..] == frame by {
          assert part == (frame + rest)[..|part|];
        }
        PartOfFrame(ps[0], part, frame[|part|..], read, cap, compression);
      }
    }
  }

  /** What comes of the beginning of a stream. */
  lemma {:induction false} PartReceived(ps: seq<Packet>, part: seq<byte>, read: nat, cap: nat, compression: bool)
    requires (forall p :: p in ps ==> Sendable(p, compression)) && read < cap && part <= Stream(ps, compression)
    ensures var o := Receive(State(part, read, 0), cap, compression);
            && o.packets <= ps
            && (o.waiting ==> o.s.total == 0 || exists p :: p in ps && o.s.total == |Body(p, compression, 0)|)
            && (!o.waiting ==> !AllInside(ps, read, cap, compression) && o.packets < ps)
            && (part == Stream(ps, compression) && o.waiting ==> AllInside(ps, read, cap, compression) && o.packets == ps)
  {
    hide Receive, AllInside, Sendable, Stream, Turn;
    var all := Stream(ps, compression);
    assert With(State(part, read, 0), all[|part|..]) == State(all, read, 0) by {
      assert part + all[|part|..] == all;
    }
    Resumable(State(part, read, 0), all[|part|..], cap, compression);
    StreamReceived(ps, read, cap, compression);
    WaitsForBody(ps, part, read, cap, compression);
  }

  /** At any moment, what has been delivered is a beginning of what was sent. */
  lemma {:induction false} NothingInvented(ps: seq<Packet>, arrivals: seq<seq<byte>>, read: nat, cap: nat, compression: bool)
    requires (forall p :: p in ps ==> Sendable(p, compression)) && read < cap
    requires Concat(arrivals) <= Stream(ps, compression)
    ensures Feed(State([], read, 0), arrivals, cap, compression).packets <= ps
  {
    hide Receive, AllInside, Sendable, Feed, Stream, Concat, AtRest, Turn;
    var s, part := State([], read, 0), Concat(arrivals);
    RestsEmpty(read, cap, compression);
    AnyCut(s, arrivals, cap, compression);
    assert With(s, part) == State(part, read, 0) by {
      assert [] + part == part;
    }
    PartReceived(ps, part, read, cap, compression);
  }

  /** A packet whose length starts on the last byte of the ring is lost, and the connection with it. */
  lemma {:induction false} Straddles(cap: nat, payload: seq<byte>)
    requires cap > 1 && |payload| == 200
    ensures Sendable(Packet(0, payload), false)
    ensures var o := Receive(State(Stream([Packet(0, payload)], false), cap - 1, 0), cap, false);
            !o.waiting && o.packets == []
  {
    var p := Packet(0, payload);
    assert Spell(0, 0) == [0];
    assert |Body(p, false, 0)| == 201;
    Minimal(201, 0);
    Powers();
    StreamReceived([p], cap - 1, cap, false);
  }
}
