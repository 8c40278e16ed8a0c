/**
 * End-to-end safety of two endpoints that run the machine of `Tcp` over a channel that drops,
 * duplicates and reorders segments.
 *
 * Positions are unbounded: position 0 is the SYN, 1 + i is byte i of the stream and the last
 * one is the FIN.  The 32-bit sequence number of position p is iss + p modulo 2^32.
 */
module TcpSafety {
  import opened Words
  import opened Tcp
  import opened TcpRuns

  /** A segment on the channel with the positions its two 32-bit numbers stand for. */
  datatype Wire = Wire(seg: Segment, gseq: nat, gack: nat)

  /**
   * An endpoint: its connection, and what can be said about it from outside.  `pos` positions
   * of its own are acknowledged, `rpos` positions of the peer are accepted, `stream` is what
   * its application handed over so far, `fin` whether that is all, and `got` is what was
   * delivered to its application.
   */
  datatype Peer = Peer(conn: Conn, iss: u32, active: bool, open: bool, pos: nat, rpos: nat,
                       stream: seq<byte>, fin: bool, got: seq<byte>)

  function One(b: bool): nat { if b then 1 else 0 }

  /** The sequence space a segment occupies. */
  function Units(s: Segment): nat { |s.data| + One(s.ctl.syn) + One(s.ctl.fin) }

  /** How far Input advances rcv_nxt. */
  function Taken(c: Conn, s: Segment): nat
  {
    if s.ctl.rst || OutOfSequence(c, s) then 0
    else
      match c.state
      case SynRcvd => if Acks(c, s) then |s.data| else 0
      case SynSent => if Acks(c, s) && s.ctl == SYN_ACK then 1 else 0
      case Established =>
        if s.ctl.fin then if c.len > 0 && !Acks(c, s) then 0 else 1 + |s.data| else |s.data|
      case FinWait1 => |s.data| + One(s.ctl.fin)
      case FinWait2 => |s.data| + One(s.ctl.fin)
      case _ => 0
  }

  function Delivered(call: Option<Call>): seq<byte>
  {
    if call.Some? && NewData in call.value.flags then call.value.data else []
  }

  /** What is still outstanding once the acknowledgement of the event has been taken. */
  function Rest(c: Conn, acked: bool): u16 { if acked then 0 else c.len }

  function Update(x: Peer, o: Output, acked: bool, taken: nat, window: Window): Peer
  {
    var sends := o.conn.state == Established && o.conn.len > 0 && Rest(x.conn, acked) == 0;
    x.(conn := o.conn,
       pos := if acked then x.pos + x.conn.len else x.pos,
       rpos := x.rpos + taken,
       stream := if sends then x.stream + Payload(window, o.conn.len) else x.stream,
       fin := x.fin || o.conn.state.FinWait1? || o.conn.state.LastAck?,
       got := x.got + Delivered(o.call))
  }

  function Sent(x: Peer, o: Output, window: Window, input: Segment): set<Wire>
  {
    match Emitted(o, window, input)
    case None => {}
    case Some(seg) => {Wire(seg, x.pos, x.rpos)}
  }

  /** Label reset, for a segment that belongs to no connection. */
  function Rejected(s: Segment): set<Wire>
  {
    if s.ctl.rst then {}
    else {Wire(Segment(s.ackno, Plus32(s.seqno, 1), RST_ACK, s.wnd, None, []), 0, 0)}
  }

  datatype PeerEvent = Ticks(r: Reply) | Polls(r: Reply) | Hears(w: Wire, r: Reply)

  const NoSegment := Segment(0, 0, ACK, 0, None, [])

  /** One endpoint's step: its new state and what it adds to the channel. */
  function React(x: Peer, e: PeerEvent): (Peer, set<Wire>)
  {
    match e
    case Ticks(r) =>
      var o := Tick(x.conn, r);
      var x1 := Update(x, o, false, 0, r.window);
      (x1, Sent(x1, o, r.window, NoSegment))
    case Polls(r) =>
      var o := PollRequest(x.conn, r);
      var x1 := Update(x, o, false, 0, r.window);
      (x1, Sent(x1, o, r.window, NoSegment))
    case Hears(w, r) =>
      if !x.open && w.seg.ctl == SYN then
        var o := PassiveOpen(x.conn, w.seg, x.iss);
        var x1 := x.(conn := o.conn, open := true, rpos := 1);
        (x1, Sent(x1, o, r.window, w.seg))
      else if x.conn.state == Closed then (x, Rejected(w.seg))
      else
        var o := Input(x.conn, w.seg, r);
        var x1 := Update(x, o, TakesAck(x.conn, SegmentEvent(w.seg, r)), Taken(x.conn, w.seg), r.window);
        (x1, Sent(x1, o, r.window, w.seg))
  }

  // ---- What is asked of the application and of the channel ----

  /**
   * While data is outstanding the application does not close, and whatever it is called for,
   * when it hands over anything it is what it handed over before.
   */
  predicate Honest(x: Peer, rest: u16, r: Reply)
  {
    x.conn.state == Established && rest > 0 ==>
      && r.action != CloseConn
      && (r.slen > 0 ==> rest <= |x.stream| && Payload(r.window, rest) == x.stream[|x.stream| - rest..])
  }

  /** Neither number of the segment is 2^32 or more positions behind; resets may have any age. */
  predicate Fresh(x: Peer, w: Wire)
  {
    !w.seg.ctl.rst ==>
    && (Units(w.seg) > 0 ==> x.rpos < w.gseq + 0x1_0000_0000)
    && (w.seg.ctl.ack ==> x.pos + x.conn.len < w.gack + 0x1_0000_0000)
  }

  predicate Allowed(x: Peer, incoming: set<Wire>, e: PeerEvent)
  {
    match e
    case Ticks(r) => Honest(x, x.conn.len, r)
    case Polls(r) => Honest(x, x.conn.len, r)
    case Hears(w, r) =>
      w in incoming && Fresh(x, w) && Honest(x, Rest(x.conn, TakesAck(x.conn, SegmentEvent(w.seg, r))), r)
  }

  // ---- The invariant ----

  /** An endpoint that has not been contacted yet. */
  predicate Listening(x: Peer)
  {
    && !x.open && !x.active && x.conn.state == Closed
    && x.pos == x.conn.len == x.rpos == 0 && x.stream == [] && x.got == [] && !x.fin
  }

  /** The sender's books: what is acknowledged and outstanding is the SYN, the stream and the FIN. */
  predicate Account(x: Peer)
  {
    && Inv(x.conn)
    && (!x.open ==> Listening(x))
    && (x.open ==> x.pos + x.conn.len == 1 + |x.stream| + One(x.fin))
    && (x.open ==> x.conn.sndNxt == Plus32(x.iss, x.pos))
    && (Opening(x.conn.state) ==> x.pos == 0)
    && (x.conn.state.Established? ==> !x.fin && x.pos >= 1)
    && (x.conn.state.FinWait1? || x.conn.state.Closing? || x.conn.state.LastAck? ==> x.fin && x.pos >= 1)
    && (x.fin ==> Past(x.conn.state))
    && Heard(x)
  }

  /** How far the handshake has come with the peer's SYN. */
  predicate Heard(x: Peer)
  {
    && (x.conn.state.SynSent? ==> x.active && x.rpos == 0 && x.got == [])
    && (x.conn.state.SynRcvd? ==> !x.active && x.rpos == 1)
    && (!x.conn.state.SynSent? && x.conn.state != Closed ==> x.rpos >= 1)
  }

  /** `d` is what `stream` holds from index `i` on. */
  predicate Slice(d: seq<byte>, stream: seq<byte>, i: int)
  {
    0 <= i && i + |d| <= |stream| && d == stream[i..i + |d|]
  }

  /** A segment sent by x repeats what is acknowledged, or is exactly what is outstanding. */
  predicate WireOk(x: Peer, peerIss: u32, w: Wire)
  {
    var s := w.seg;
    !s.ctl.rst ==>
      && s.seqno == Plus32(x.iss, w.gseq)
      && (Units(s) > 0 ==> w.gseq + Units(s) <= x.pos || (w.gseq == x.pos && Units(s) == x.conn.len))
      && (s.ctl.syn ==> s.ctl == (if x.active then SYN else SYN_ACK) && s.data == [] && w.gseq == 0)
      && (s.ctl.fin ==> s.data == [] && x.fin && w.gseq == 1 + |x.stream|)
      && (s.data != [] ==> Slice(s.data, x.stream, w.gseq - 1))
      && (s.ctl.ack ==> 1 <= w.gack <= x.rpos && s.ackno == Plus32(peerIss, w.gack))
  }

  /** The receiver y follows the sender x. */
  predicate Follows(x: Peer, y: Peer)
  {
    && (y.rpos == x.pos || y.rpos == x.pos + x.conn.len)
    && (y.rpos >= 1 ==> y.conn.rcvNxt == Plus32(x.iss, y.rpos))
    && y.got <= x.stream
    && (y.conn.state.SynRcvd? || y.conn.state.Established? ==> |y.got| == y.rpos - 1)
    && (y.conn.state.LastAck? ==> y.got == x.stream)
    && (y.conn.state.LastAck? || y.conn.state.Closing? || y.conn.state.TimeWait? ==>
          x.fin && y.rpos == |x.stream| + 2)
  }

  predicate Direction(x: Peer, y: Peer, xy: set<Wire>)
  {
    Account(x) && Follows(x, y) && forall w :: w in xy ==> WireOk(x, y.iss, w)
  }

  // ---- What one event can do to a connection, as sender and as receiver ----

  /** The label is one the state and the outstanding length allow. */
  predicate JumpFits(c: Conn, j: Jump)
  {
    match j
    case Drop => true
    case SendAck => !c.state.SynSent? && !c.state.Closed?
    case SendReset => true
    case SendNodata(ctl) =>
      ctl == RST_ACK || (ctl == FIN_ACK && (c.state.FinWait1? || c.state.Closing? || c.state.LastAck?))
    case SendNoopts(ctl, n) =>
      c.state.Established? && ((ctl == ACK && n == 0) || (ctl == PSH_ACK && n == c.len > 0))
    case SendSyn(ctl) => (ctl == SYN && c.state.SynSent?) || (ctl == SYN_ACK && c.state.SynRcvd?)
  }

  /** The sender's half: keep what is outstanding, or with nothing outstanding send data or a FIN. */
  predicate SendRel(c: Conn, acked: bool, o: Output, r: Reply)
  {
    var c1 := o.conn;
    && Inv(c1)
    && c1.sndNxt == (if acked then Plus32(c.sndNxt, c.len) else c.sndNxt)
    && JumpFits(c1, o.jump)
    && (o.jump.SendNoopts? && o.jump.ctl == PSH_ACK ==> r.slen > 0)
    && (c1.state == c.state || MovesTo(c.state, acked, c1.state))
    && (|| c1.len == Rest(c, acked)
        || (Rest(c, acked) == 0 && c1.state.Established? && c1.len > 0)
        || (Rest(c, acked) == 0 && c1.len == 1 && (c1.state.FinWait1? || c1.state.LastAck?) && !Past(c.state)))
    && ((c1.state.FinWait1? || c1.state.LastAck?) && c1.state != c.state ==> c1.len == 1 && Rest(c, acked) == 0)
  }

  /** The state changes of RFC 793 figure 6 that this machine makes. */
  predicate MovesTo(s: State, acked: bool, t: State)
  {
    || t == Closed
    || (Opening(s) && acked && (t.Established? || t.FinWait1?))
    || (s.Established? && (t.FinWait1? || t.LastAck?))
    || (s.FinWait1? && (t.Closing? || (acked && (t.FinWait2? || t.TimeWait?))))
    || (s.FinWait2? && t.TimeWait?)
    || (s.Closing? && t.TimeWait? && acked)
  }

  lemma CallAndSendRel(c0: Conn, acked: bool, c: Conn, shown: set<Flag>, data: seq<byte>, r: Reply)
    requires Inv(c) && c.state.Established? && c.len == Rest(c0, acked)
    requires c.sndNxt == if acked then Plus32(c0.sndNxt, c0.len) else c0.sndNxt
    requires c0.state.Established? || (Opening(c0.state) && acked)
    requires acked && c0.state.Established? <==> AckData in shown
    requires Close !in shown && Abort !in shown
    requires c.len > 0 ==> r.action != CloseConn
    ensures SendRel(c0, acked, CallAndSend(c, shown, data, r), r)
  {
    CallAndSendGood(c, shown, data, r);
  }

  lemma TickRel(c: Conn, r: Reply)
    requires Inv(c) && (c.state.Established? && c.len > 0 ==> r.action != CloseConn)
    ensures SendRel(c, false, Tick(c, r), r)
  {
    StepGood(c, TimerEvent(r));
    if c.state.Established? && c.len == 0 {
      CallAndSendRel(c, false, c, {Poll}, [], r);
    }
  }

  lemma PollRel(c: Conn, r: Reply)
    requires Inv(c)
    ensures SendRel(c, false, PollRequest(c, r), r)
  {
    if c.state.Established? && c.len == 0 {
      CallAndSendRel(c, false, c, {Poll}, [], r);
    }
  }

  lemma InputRel(c: Conn, s: Segment, r: Reply)
    requires Inv(c) && c.state != Closed
    requires c.state.SynSent? && !s.ctl.rst ==> !OutOfSequence(c, s)
    requires c.state.Established? && Rest(c, TakesAck(c, SegmentEvent(s, r))) > 0 ==> r.action != CloseConn
    ensures SendRel(c, TakesAck(c, SegmentEvent(s, r)), Input(c, s, r), r)
  {
    InputGood(c, s, r);
    if !s.ctl.rst && !OutOfSequence(c, s) {
      var acked := Acks(c, s);
      var c1 := TakeAck(c, s);
      if c.state.SynRcvd? && acked {
        CallAndSendRel(c, acked, Received(c1.(state := Established, len := 0), |s.data|),
                       {Connected} + NewDataFlag(s), s.data, r);
      } else if c.state.SynSent? && acked && s.ctl == SYN_ACK {
        var c2 := AdoptMss(c1, s.mss).(state := Established, rcvNxt := Plus32(s.seqno, 1), len := 0);
        CallAndSendRel(c, acked, c2, {Connected, NewData}, [], r);
      } else if c.state.Established? && !s.ctl.fin {
        var wnd := if s.wnd > c1.initialmss || s.wnd == 0 then c1.initialmss else s.wnd;
        CallAndSendRel(c, acked, Received(c1, |s.data|).(mss := wnd), AckFlag(c, s) + NewDataFlag(s), s.data, r);
      } else if Closes(c.state) {
        ClosingRel(c, s, r);
      }
    }
  }

  predicate Closes(s: State) { s.FinWait1? || s.FinWait2? || s.Closing? || s.TimeWait? || s.LastAck? }

  lemma ClosingRel(c: Conn, s: Segment, r: Reply)
    requires Inv(c) && Closes(c.state) && !s.ctl.rst && !OutOfSequence(c, s)
    ensures SendRel(c, Acks(c, s), Input(c, s, r), r)
  {
    InputGood(c, s, r);
  }

  /** The receiver's half of a segment event: `n` positions are accepted. */
  predicate TakeRel(c: Conn, s: Segment, n: nat, o: Output)
  {
    var c1 := o.conn;
    && c1.rcvNxt == (if c.state.SynSent? && n > 0 then Plus32(s.seqno, 1) else Plus32(c.rcvNxt, n))
    && (n > 0 && !c.state.SynSent? ==> s.seqno == c.rcvNxt && (n == |s.data| || n == |s.data| + One(s.ctl.fin)))
    && (c.state.SynRcvd? ==> n == 0 || n == |s.data|)
    && (c.state.SynSent? ==> n == 0 || (n == 1 && s.ctl == SYN_ACK))
    && (c.state.SynSent? && n == 0 && (s.ctl.rst || !OutOfSequence(c, s)) ==> c1.state.Closed?)
    && (c1.state.SynSent? || c1.state.SynRcvd? ==> c1.state == c.state && n == 0)
    && (c1.state.Established? ==> c.state.Established? || Opening(c.state))
    && Delivered(o.call) == (if n > 0 && (c.state.SynRcvd? || c.state.Established?) then s.data else [])
    && (n > 0 && c.state.Established? && s.ctl.fin ==> n == |s.data| + 1 && c1.state.LastAck?)
    && (c1.state.LastAck? ==> if c.state.LastAck? then n == 0 else n == |s.data| + 1 && s.ctl.fin && c.state.Established?)
    && (c1.state.Closing? || c1.state.TimeWait? ==>
          if c.state.Closing? || c.state.TimeWait? then n == 0 else n == |s.data| + 1 && s.ctl.fin)
  }

  lemma InputTakes(c: Conn, s: Segment, r: Reply)
    requires c.state != Closed
    ensures TakeRel(c, s, Taken(c, s), Input(c, s, r))
  {
    if !s.ctl.rst && !OutOfSequence(c, s) {
      var c1 := TakeAck(c, s);
      Plus32Zero(c.rcvNxt);
      Plus32Twice(c.rcvNxt, |s.data|, 1);
      if c.state.SynRcvd? && Acks(c, s) {
        CallAndSendTakes(Received(c1.(state := Established, len := 0), |s.data|), {Connected} + NewDataFlag(s), s.data, r);
      } else if c.state.SynSent? && Acks(c, s) && s.ctl == SYN_ACK {
        var c2 := AdoptMss(c1, s.mss).(state := Established, rcvNxt := Plus32(s.seqno, 1), len := 0);
        CallAndSendTakes(c2, {Connected, NewData}, [], r);
      } else if c.state.Established? && !s.ctl.fin {
        var wnd := if s.wnd > c1.initialmss || s.wnd == 0 then c1.initialmss else s.wnd;
        CallAndSendTakes(Received(c1, |s.data|).(mss := wnd), AckFlag(c, s) + NewDataFlag(s), s.data, r);
      }
    }
  }

  lemma CallAndSendTakes(c: Conn, shown: set<Flag>, data: seq<byte>, r: Reply)
    requires c.state.Established?
    ensures var o := CallAndSend(c, shown, data, r);
            && o.conn.rcvNxt == c.rcvNxt
            && (o.conn.state.Established? || o.conn.state.FinWait1? || o.conn.state.Closed?)
            && o.call == Some(Call(shown, data))
  {
  }

  /** A timer or poll event accepts nothing. */
  lemma TimerTakes(c: Conn, r: Reply)
    ensures forall o :: o == Tick(c, r) || o == PollRequest(c, r) ==>
              && o.conn.rcvNxt == c.rcvNxt && Delivered(o.call) == []
              && (o.conn.state == c.state || o.conn.state.Closed? || (c.state.Established? && o.conn.state.FinWait1?))
  {
    if c.state.Established? && c.len == 0 {
      CallAndSendTakes(c, {Poll}, [], r);
    }
  }

  // ---- One step of an endpoint ----

  lemma AckCovers(x: Peer, y: Peer, w: Wire)
    requires Account(x) && x.open && Follows(x, y) && WireOk(y, x.iss, w) && Fresh(x, w)
    requires !w.seg.ctl.rst && Acks(x.conn, w.seg)
    ensures y.rpos == x.pos + x.conn.len
  {
    Plus32Twice(x.iss, x.pos, x.conn.len);
    Plus32Injective(x.iss, w.gack, x.pos + x.conn.len);
  }

  lemma AccountStep(x: Peer, o: Output, acked: bool, taken: nat, r: Reply)
    requires Account(x) && x.open && SendRel(x.conn, acked, o, r)
    requires var x1 := Update(x, o, acked, taken, r.window); Heard(x1)
    ensures Account(Update(x, o, acked, taken, r.window))
    ensures x.fin ==> Update(x, o, acked, taken, r.window).stream == x.stream
  {
    Plus32Twice(x.iss, x.pos, x.conn.len);
  }

  lemma FollowsStep(x: Peer, y: Peer, o: Output, acked: bool, taken: nat, r: Reply)
    requires Account(x) && x.open && Follows(x, y) && SendRel(x.conn, acked, o, r)
    requires acked ==> y.rpos == x.pos + x.conn.len
    ensures Follows(Update(x, o, acked, taken, r.window), y)
  {
  }

  lemma OldWireStep(x: Peer, peerIss: u32, o: Output, acked: bool, taken: nat, r: Reply, w: Wire)
    requires Account(x) && x.open && SendRel(x.conn, acked, o, r) && WireOk(x, peerIss, w)
    ensures WireOk(Update(x, o, acked, taken, r.window), peerIss, w)
  {
  }

  lemma NewWireStep(x: Peer, peerIss: u32, o: Output, acked: bool, taken: nat, r: Reply, input: Segment)
    requires Account(x) && x.open && SendRel(x.conn, acked, o, r) && Honest(x, Rest(x.conn, acked), r)
    requires var x1 := Update(x, o, acked, taken, r.window);
             Account(x1) && (x1.rpos >= 1 ==> x1.conn.rcvNxt == Plus32(peerIss, x1.rpos))
    ensures var x1 := Update(x, o, acked, taken, r.window);
            forall w :: w in Sent(x1, o, r.window, input) ==> WireOk(x1, peerIss, w)
  {
    var x1 := Update(x, o, acked, taken, r.window);
    if o.jump.SendNoopts? && o.jump.ctl == PSH_ACK {
      SentIsOutstanding(x, o, acked, taken, r);
    }
    NewWire(x1, peerIss, o, r, input);
  }

  /** Data that goes out is the end of the stream, new or repeated. */
  lemma SentIsOutstanding(x: Peer, o: Output, acked: bool, taken: nat, r: Reply)
    requires Account(x) && x.open && SendRel(x.conn, acked, o, r) && Honest(x, Rest(x.conn, acked), r)
    requires Account(Update(x, o, acked, taken, r.window))
    requires o.jump.SendNoopts? && o.jump.ctl == PSH_ACK
    ensures var x1 := Update(x, o, acked, taken, r.window);
            Slice(Payload(r.window, o.jump.n), x1.stream, x1.pos - 1) && |Payload(r.window, o.jump.n)| == x1.conn.len
  {
    assert o.jump.n == o.conn.len <= UIP_TCP_MSS;
  }

  lemma NewWire(x1: Peer, peerIss: u32, o: Output, r: Reply, input: Segment)
    requires Account(x1) && x1.open && x1.conn == o.conn && JumpFits(o.conn, o.jump)
    requires x1.rpos >= 1 ==> x1.conn.rcvNxt == Plus32(peerIss, x1.rpos)
    requires o.jump.SendNoopts? && o.jump.ctl == PSH_ACK ==>
               Slice(Payload(r.window, o.jump.n), x1.stream, x1.pos - 1) && |Payload(r.window, o.jump.n)| == x1.conn.len
    ensures forall w :: w in Sent(x1, o, r.window, input) ==> WireOk(x1, peerIss, w)
  {
  }

  lemma SenderStep(x: Peer, y: Peer, xy: set<Wire>, o: Output, acked: bool, taken: nat, r: Reply, input: Segment)
    requires Direction(x, y, xy) && x.open && SendRel(x.conn, acked, o, r) && Honest(x, Rest(x.conn, acked), r)
    requires acked ==> y.rpos == x.pos + x.conn.len
    requires var x1 := Update(x, o, acked, taken, r.window);
             Heard(x1) && (x1.rpos >= 1 ==> x1.conn.rcvNxt == Plus32(y.iss, x1.rpos))
    ensures var x1 := Update(x, o, acked, taken, r.window); Direction(x1, y, xy + Sent(x1, o, r.window, input))
  {
    var x1 := Update(x, o, acked, taken, r.window);
    AccountStep(x, o, acked, taken, r);
    FollowsStep(x, y, o, acked, taken, r);
    NewWireStep(x, y.iss, o, acked, taken, r, input);
    forall w | w in xy ensures WireOk(x1, y.iss, w) {
      OldWireStep(x, y.iss, o, acked, taken, r, w);
    }
  }

  /** A segment that is accepted is exactly what the peer has outstanding. */
  lemma AcceptedIsOutstanding(x: Peer, y: Peer, w: Wire, n: nat, o: Output)
    requires Account(x) && Account(y) && Follows(y, x) && WireOk(y, x.iss, w) && Fresh(x, w)
    requires !w.seg.ctl.rst && x.open && TakeRel(x.conn, w.seg, n, o) && n > 0 && x.conn.state != Closed
    ensures x.rpos == y.pos == w.gseq && n == y.conn.len == Units(w.seg)
  {
    if !x.conn.state.SynSent? {
      Plus32Injective(y.iss, w.gseq, x.rpos);
    }
  }

  /** What is delivered continues what was delivered before. */
  lemma DeliveryStep(x: Peer, y: Peer, w: Wire, o: Output, acked: bool, n: nat, r: Reply)
    requires Account(x) && Account(y) && Follows(y, x) && WireOk(y, x.iss, w) && Fresh(x, w)
    requires x.open && x.conn.state != Closed && TakeRel(x.conn, w.seg, n, o)
    requires w.seg.ctl.rst ==> n == 0
    ensures var x1 := Update(x, o, acked, n, r.window);
            && x1.got <= y.stream
            && (x.conn.state.SynRcvd? || x.conn.state.Established? ==> |x1.got| + (if w.seg.ctl.fin then n else 0) == x1.rpos - 1)
            && (o.conn.state.LastAck? && !x.conn.state.LastAck? ==> x1.got == y.stream && x1.rpos == |y.stream| + 2)
  {
    if n > 0 {
      AcceptedIsOutstanding(x, y, w, n, o);
    }
  }

  lemma ReceiverStep(x: Peer, y: Peer, w: Wire, o: Output, acked: bool, n: nat, r: Reply)
    requires Account(x) && Account(y) && Follows(y, x) && WireOk(y, x.iss, w) && Fresh(x, w)
    requires x.open && x.conn.state != Closed && TakeRel(x.conn, w.seg, n, o)
    requires w.seg.ctl.rst ==> n == 0
    requires x.conn.state.SynSent? && !w.seg.ctl.rst ==> !OutOfSequence(x.conn, w.seg)
    ensures var x1 := Update(x, o, acked, n, r.window);
            && Follows(y, x1) && Heard(x1)
            && (x1.rpos >= 1 ==> x1.conn.rcvNxt == Plus32(y.iss, x1.rpos))
  {
    if n > 0 {
      AcceptedIsOutstanding(x, y, w, n, o);
    }
    DeliveryStep(x, y, w, o, acked, n, r);
    Plus32Twice(y.iss, x.rpos, n);
  }

  lemma OpenStep(x: Peer, y: Peer, xy: set<Wire>, w: Wire, r: Reply)
    requires Direction(x, y, xy) && Account(y) && Follows(y, x) && WireOk(y, x.iss, w)
    requires !x.open && w.seg.ctl == SYN
    ensures var (x1, sent) := React(x, Hears(w, r));
            Direction(x1, y, xy + sent) && Follows(y, x1)
  {
    var (x1, sent) := React(x, Hears(w, r));
    Plus32Zero(x.iss);
    Plus32Twice(y.iss, 0, 1);
    Plus32Zero(y.iss);
    assert x1.conn.rcvNxt == Plus32(y.iss, 1);
    forall v | v in xy ensures WireOk(x1, y.iss, v) {
      assert WireOk(x, y.iss, v);
    }
  }

  /** The client's and the server's end, with everything ever sent in either direction. */
  datatype System = System(a: Peer, b: Peer, ab: set<Wire>, ba: set<Wire>)

  predicate Safe(s: System)
  {
    Direction(s.a, s.b, s.ab) && Direction(s.b, s.a, s.ba) && !s.b.active
  }

  lemma TimerStep(x: Peer, y: Peer, xy: set<Wire>, yx: set<Wire>, o: Output, r: Reply)
    requires Direction(x, y, xy) && Direction(y, x, yx) && x.open && Honest(x, x.conn.len, r)
    requires SendRel(x.conn, false, o, r)
    requires o.conn.rcvNxt == x.conn.rcvNxt && Delivered(o.call) == []
    requires o.conn.state == x.conn.state || o.conn.state.Closed? || (x.conn.state.Established? && o.conn.state.FinWait1?)
    ensures var x1 := Update(x, o, false, 0, r.window);
            Direction(x1, y, xy + Sent(x1, o, r.window, NoSegment)) && Direction(y, x1, yx)
  {
    assert x.got + [] == x.got;
    SenderStep(x, y, xy, o, false, 0, r, NoSegment);
  }

  /** A client that waits for its SYNACK receives nothing else that occupies sequence space. */
  lemma SynSentHears(x: Peer, y: Peer, w: Wire)
    requires Account(x) && Account(y) && Follows(y, x) && WireOk(y, x.iss, w)
    requires x.conn.state.SynSent? && !y.active && !w.seg.ctl.rst
    ensures !OutOfSequence(x.conn, w.seg)
  {
  }

  lemma HearStep(x: Peer, y: Peer, xy: set<Wire>, yx: set<Wire>, w: Wire, r: Reply)
    requires Direction(x, y, xy) && Direction(y, x, yx) && Allowed(x, yx, Hears(w, r))
    requires x.active ==> !y.active
    requires x.open && x.conn.state != Closed
    ensures var (x1, sent) := React(x, Hears(w, r)); Direction(x1, y, xy + sent) && Direction(y, x1, yx)
  {
    var acked := TakesAck(x.conn, SegmentEvent(w.seg, r));
    assert WireOk(y, x.iss, w);
    if acked {
      AckCovers(x, y, w);
    }
    if x.conn.state.SynSent? && !w.seg.ctl.rst {
      SynSentHears(x, y, w);
    }
    InputRel(x.conn, w.seg, r);
    InputTakes(x.conn, w.seg, r);
    HearEffect(x, y, xy, yx, w, r, Input(x.conn, w.seg, r), acked, Taken(x.conn, w.seg));
  }

  lemma HearEffect(x: Peer, y: Peer, xy: set<Wire>, yx: set<Wire>, w: Wire, r: Reply, o: Output, acked: bool, n: nat)
    requires Direction(x, y, xy) && Direction(y, x, yx) && x.open && x.conn.state != Closed
    requires w in yx && Fresh(x, w) && Honest(x, Rest(x.conn, acked), r)
    requires SendRel(x.conn, acked, o, r) && TakeRel(x.conn, w.seg, n, o)
    requires acked ==> y.rpos == x.pos + x.conn.len
    requires w.seg.ctl.rst ==> n == 0
    requires x.conn.state.SynSent? && !w.seg.ctl.rst ==> !OutOfSequence(x.conn, w.seg)
    ensures var x1 := Update(x, o, acked, n, r.window);
            Direction(x1, y, xy + Sent(x1, o, r.window, w.seg)) && Direction(y, x1, yx)
  {
    ReceiverStep(x, y, w, o, acked, n, r);
    SenderStep(x, y, xy, o, acked, n, r, w.seg);
  }

  lemma TicksStep(x: Peer, y: Peer, xy: set<Wire>, yx: set<Wire>, r: Reply)
    requires Direction(x, y, xy) && Direction(y, x, yx) && Allowed(x, yx, Ticks(r))
    ensures var (x1, sent) := React(x, Ticks(r)); Direction(x1, y, xy + sent) && Direction(y, x1, yx)
  {
    if x.open {
      TickRel(x.conn, r);
      TimerTakes(x.conn, r);
      TimerStep(x, y, xy, yx, Tick(x.conn, r), r);
    } else {
      assert React(x, Ticks(r)) == (x, {});
      assert xy + {} == xy;
    }
  }

  lemma PollsStep(x: Peer, y: Peer, xy: set<Wire>, yx: set<Wire>, r: Reply)
    requires Direction(x, y, xy) && Direction(y, x, yx) && Allowed(x, yx, Polls(r))
    ensures var (x1, sent) := React(x, Polls(r)); Direction(x1, y, xy + sent) && Direction(y, x1, yx)
  {
    if x.open {
      PollRel(x.conn, r);
      TimerTakes(x.conn, r);
      TimerStep(x, y, xy, yx, PollRequest(x.conn, r), r);
    } else {
      assert React(x, Polls(r)) == (x, {});
      assert xy + {} == xy;
    }
  }

  lemma HearsStep(x: Peer, y: Peer, xy: set<Wire>, yx: set<Wire>, w: Wire, r: Reply)
    requires Direction(x, y, xy) && Direction(y, x, yx) && Allowed(x, yx, Hears(w, r))
    requires x.active ==> !y.active
    ensures var (x1, sent) := React(x, Hears(w, r)); Direction(x1, y, xy + sent) && Direction(y, x1, yx)
  {
    assert WireOk(y, x.iss, w);
    if !x.open && w.seg.ctl == SYN {
      OpenStep(x, y, xy, w, r);
    } else if x.conn.state != Closed {
      HearStep(x, y, xy, yx, w, r);
    }
  }

  /** Any step of an endpoint keeps both directions safe. */
  lemma PeerStep(x: Peer, y: Peer, xy: set<Wire>, yx: set<Wire>, e: PeerEvent)
    requires Direction(x, y, xy) && Direction(y, x, yx) && Allowed(x, yx, e)
    requires x.active ==> !y.active
    ensures var (x1, sent) := React(x, e); Direction(x1, y, xy + sent) && Direction(y, x1, yx)
  {
    match e {
      case Ticks(r) => TicksStep(x, y, xy, yx, r);
      case Polls(r) => PollsStep(x, y, xy, yx, r);
      case Hears(w, r) => HearsStep(x, y, xy, yx, w, r);
    }
  }

  // ---- Whole runs ----

  datatype Move = Move(byClient: bool, e: PeerEvent)

  predicate MoveAllowed(s: System, m: Move)
  {
    if m.byClient then Allowed(s.a, s.ba, m.e) else Allowed(s.b, s.ab, m.e)
  }

  function Next(s: System, m: Move): System
  {
    if m.byClient then
      var (a1, sent) := React(s.a, m.e);
      s.(a := a1, ab := s.ab + sent)
    else
      var (b1, sent) := React(s.b, m.e);
      s.(b := b1, ba := s.ba + sent)
  }

  predicate RunAllowed(s: System, ms: seq<Move>)
    decreases |ms|
  {
    ms == [] || (MoveAllowed(s, ms[0]) && RunAllowed(Next(s, ms[0]), ms[1..]))
  }

  function Play(s: System, ms: seq<Move>): System
    decreases |ms|
  {
    if ms == [] then s else Play(Next(s, ms[0]), ms[1..])
  }

  /** A client that has just called uip_connect, a listening server, and an empty channel. */
  function Start(clientSlot: Conn, serverSlot: Conn, issA: u32, issB: u32): System
  {
    System(Peer(ActiveOpen(clientSlot, issA), issA, true, true, 0, 0, [], false, []),
           Peer(serverSlot, issB, false, false, 0, 0, [], false, []), {}, {})
  }

  lemma NextSafe(s: System, m: Move)
    requires Safe(s) && MoveAllowed(s, m)
    ensures Safe(Next(s, m))
  {
    if m.byClient {
      PeerStep(s.a, s.b, s.ab, s.ba, m.e);
    } else {
      PeerStep(s.b, s.a, s.ba, s.ab, m.e);
    }
  }

  lemma {:induction false} PlaySafe(s: System, ms: seq<Move>)
    requires Safe(s) && RunAllowed(s, ms)
    ensures Safe(Play(s, ms))
    decreases |ms|
  {
    if ms != [] {
      NextSafe(s, ms[0]);
      PlaySafe(Next(s, ms[0]), ms[1..]);
    }
  }

  lemma StartSafe(clientSlot: Conn, serverSlot: Conn, issA: u32, issB: u32)
    requires Inv(clientSlot) && Inv(serverSlot) && serverSlot.state == Closed && serverSlot.len == 0
    ensures Safe(Start(clientSlot, serverSlot, issA, issB))
  {
    Plus32Zero(issA);
  }

  /**
   * What one direction guarantees its user: y has a prefix of what x's application offered,
   * while ESTABLISHED it has everything accepted, which includes everything x has had
   * acknowledged, and rcv_nxt is one of the sender's two numbers.
   */
  predicate Delivers(x: Peer, y: Peer)
  {
    && y.got <= x.stream
    && (y.conn.state.Established? ==> y.got == x.stream[..|y.got|] && |y.got| == y.rpos - 1 && x.pos <= y.rpos)
    && (y.conn.state.Established? && x.open ==>
          || y.conn.rcvNxt == x.conn.sndNxt
          || y.conn.rcvNxt == Plus32(x.conn.sndNxt, x.conn.len))
  }

  /**
   * An endpoint in LAST_ACK has delivered the peer's whole stream, and wherever a FIN was taken
   * it was counted exactly once.
   */
  predicate ClosesInOrder(x: Peer, y: Peer)
  {
    && (y.conn.state.LastAck? ==> x.fin && y.got == x.stream)
    && (y.conn.state.LastAck? || y.conn.state.Closing? || y.conn.state.TimeWait? ==>
          x.fin && y.rpos == 1 + |x.stream| + 1 && y.conn.rcvNxt == Plus32(x.iss, |x.stream| + 2))
    && y.rpos <= 1 + |x.stream| + One(x.fin)
  }

  /** Safety of every run from the opening of the connection, in both directions. */
  lemma EndToEnd(clientSlot: Conn, serverSlot: Conn, issA: u32, issB: u32, ms: seq<Move>)
    requires Inv(clientSlot) && Inv(serverSlot) && serverSlot.state == Closed && serverSlot.len == 0
    requires RunAllowed(Start(clientSlot, serverSlot, issA, issB), ms)
    ensures var t := Play(Start(clientSlot, serverSlot, issA, issB), ms);
            && Delivers(t.a, t.b) && Delivers(t.b, t.a)
            && ClosesInOrder(t.a, t.b) && ClosesInOrder(t.b, t.a)
  {
    StartSafe(clientSlot, serverSlot, issA, issB);
    PlaySafe(Start(clientSlot, serverSlot, issA, issB), ms);
    var t := Play(Start(clientSlot, serverSlot, issA, issB), ms);
    DirectionDelivers(t.a, t.b, t.ab);
    DirectionDelivers(t.b, t.a, t.ba);
  }

  lemma DirectionDelivers(x: Peer, y: Peer, xy: set<Wire>)
    requires Direction(x, y, xy) && Account(y)
    ensures Delivers(x, y) && ClosesInOrder(x, y)
  {
    Plus32Twice(x.iss, x.pos, x.conn.len);
  }

  // ---- The assumptions are met by an ordinary exchange ----

  /** The client's SYN is on the channel, the server listens. */
  predicate Calling(s: System, syn: Wire)
  {
    && s.a.open && s.a.conn.state.SynSent? && s.a.conn.len == 1 && s.a.conn.sndNxt == s.a.iss
    && s.a.conn.mss == UIP_TCP_MSS && s.a.pos == s.a.rpos == 0 && s.a.stream == []
    && !s.b.open && s.b.conn.state == Closed && s.b.pos == s.b.rpos == 0 && s.b.got == [] && s.b.stream == []
    && syn in s.ab && syn.gseq == 0 && syn.seg.ctl == SYN && syn.seg.seqno == s.a.iss && syn.seg.data == []
    && syn.seg.mss == Some(UIP_TCP_MSS)
  }

  /** The server has answered with its SYNACK. */
  predicate Answering(s: System, synAck: Wire)
  {
    && s.a.open && s.a.conn.state.SynSent? && s.a.conn.len == 1 && s.a.conn.sndNxt == s.a.iss
    && s.a.conn.mss == UIP_TCP_MSS && s.a.pos == s.a.rpos == 0 && s.a.stream == []
    && s.b.open && s.b.conn.state.SynRcvd? && s.b.conn.len == 1 && s.b.conn.sndNxt == s.b.iss
    && s.b.conn.rcvNxt == Plus32(s.a.iss, 1) && s.b.pos == 0 && s.b.rpos == 1 && s.b.got == []
    && s.b.conn.mss == UIP_TCP_MSS && s.b.stream == []
    && synAck in s.ba && synAck.gseq == 0 && synAck.gack == 1
    && synAck.seg == Segment(s.b.iss, Plus32(s.a.iss, 1), SYN_ACK, UIP_RECEIVE_WINDOW, Some(UIP_TCP_MSS), [])
  }

  /** The client is connected and has sent its first data. */
  predicate Sending(s: System, data: Wire, d: seq<byte>)
  {
    && s.a.stream == d && d != []
    && s.b.open && s.b.conn.state.SynRcvd? && s.b.conn.len == 1 && s.b.conn.sndNxt == s.b.iss
    && s.b.conn.rcvNxt == Plus32(s.a.iss, 1) && s.b.pos == 0 && s.b.rpos == 1 && s.b.got == []
    && data in s.ab && data.gseq == 1 && data.gack == 1
    && data.seg == Segment(Plus32(s.a.iss, 1), Plus32(s.b.iss, 1), PSH_ACK, UIP_RECEIVE_WINDOW, None, d)
  }

  lemma Calls(clientSlot: Conn, serverSlot: Conn, issA: u32, issB: u32, r: Reply) returns (syn: Wire)
    requires serverSlot.state == Closed
    ensures var s := Start(clientSlot, serverSlot, issA, issB);
            var tick := Move(true, Ticks(r));
            MoveAllowed(s, tick) && MoveAllowed(Next(s, tick), tick) && Calling(Next(Next(s, tick), tick), syn)
  {
    var s := Start(clientSlot, serverSlot, issA, issB);
    var tick := Move(true, Ticks(r));
    var t := Next(Next(s, tick), tick);
    syn := Wire(Segment(issA, t.a.conn.rcvNxt, SYN, UIP_RECEIVE_WINDOW, Some(UIP_TCP_MSS), []), 0, 0);
  }

  lemma Answers(s: System, syn: Wire, r: Reply) returns (synAck: Wire)
    requires Calling(s, syn)
    ensures var m := Move(false, Hears(syn, r)); MoveAllowed(s, m) && Answering(Next(s, m), synAck)
  {
    synAck := Wire(Segment(s.b.iss, Plus32(s.a.iss, 1), SYN_ACK, UIP_RECEIVE_WINDOW, Some(UIP_TCP_MSS), []), 0, 1);
  }

  lemma Sends(s: System, synAck: Wire, r: Reply) returns (data: Wire)
    requires Answering(s, synAck) && r.action == Carry && 0 < r.slen <= UIP_TCP_MSS
    ensures var m := Move(true, Hears(synAck, r)); MoveAllowed(s, m) && Sending(Next(s, m), data, r.window[..r.slen])
  {
    data := Wire(Segment(Plus32(s.a.iss, 1), Plus32(s.b.iss, 1), PSH_ACK, UIP_RECEIVE_WINDOW, None, r.window[..r.slen]), 1, 1);
    var c1 := TakeAck(s.a.conn, synAck.seg);
    assert Input(s.a.conn, synAck.seg, r) == InSynSent(c1, true, synAck.seg, r);
    assert Offered(c1, {Connected, NewData}, r.slen) == r.slen;
  }

  lemma Receives(s: System, data: Wire, d: seq<byte>, r: Reply)
    requires Sending(s, data, d) && r.action == Carry && r.slen == 0
    ensures var m := Move(false, Hears(data, r));
            MoveAllowed(s, m) && Next(s, m).b.conn.state.Established? && Next(s, m).b.got == d == Next(s, m).a.stream
  {
    var c1 := TakeAck(s.b.conn, data.seg);
    assert Input(s.b.conn, data.seg, r) == InSynRcvd(c1, true, data.seg, r);
  }

  lemma PlayCons(s: System, m: Move, ms: seq<Move>)
    ensures RunAllowed(s, [m] + ms) <==> MoveAllowed(s, m) && RunAllowed(Next(s, m), ms)
    ensures Play(s, [m] + ms) == Play(Next(s, m), ms)
  {
    assert ([m] + ms)[1..] == ms;
  }

  /** SYN, SYNACK and a first data segment: the data arrives. */
  lemma HelloArrives(clientSlot: Conn, serverSlot: Conn, issA: u32, issB: u32, r: Reply) returns (ms: seq<Move>)
    requires Inv(clientSlot) && Inv(serverSlot) && serverSlot.state == Closed && serverSlot.len == 0
    requires r.action == Carry && 0 < r.slen <= UIP_TCP_MSS
    ensures RunAllowed(Start(clientSlot, serverSlot, issA, issB), ms)
    ensures var t := Play(Start(clientSlot, serverSlot, issA, issB), ms);
            t.b.conn.state.Established? && t.b.got == r.window[..r.slen] == t.a.stream
  {
    var silent := r.(slen := 0);
    var s0 := Start(clientSlot, serverSlot, issA, issB);
    var m1 := Move(true, Ticks(silent));
    var syn := Calls(clientSlot, serverSlot, issA, issB, silent);
    var s1 := Next(s0, m1);
    var s2 := Next(s1, m1);
    var m3 := Move(false, Hears(syn, silent));
    var synAck := Answers(s2, syn, silent);
    var s3 := Next(s2, m3);
    var m4 := Move(true, Hears(synAck, r));
    var data := Sends(s3, synAck, r);
    var s4 := Next(s3, m4);
    var m5 := Move(false, Hears(data, silent));
    Receives(s4, data, r.window[..r.slen], silent);
    ms := [m1] + ([m1] + ([m3] + ([m4] + ([m5] + []))));
    PlayCons(s4, m5, []);
    PlayCons(s3, m4, [m5] + []);
    PlayCons(s2, m3, [m4] + ([m5] + []));
    PlayCons(s1, m1, [m3] + ([m4] + ([m5] + [])));
    PlayCons(s0, m1, [m1] + ([m3] + ([m4] + ([m5] + []))));
  }
}
