/**
 * Properties of one connection over every run of events and application answers:
 * the reachable-state invariant, the stop-and-wait discipline and the give-up bound.
 */
module TcpRuns {
  import opened Words
  import opened Tcp

  datatype Event =
    | TimerEvent(r: Reply)
    | PollEvent(r: Reply)
    | SegmentEvent(s: Segment, r: Reply)
    | ActiveOpenEvent(iss: u32)
    | PassiveOpenEvent(s: Segment, iss: u32)

  predicate Opens(e: Event) { e.ActiveOpenEvent? || e.PassiveOpenEvent? }

  /** Opens take a CLOSED or TIME_WAIT slot; segments never reach a CLOSED one. */
  function Step(c: Conn, e: Event): Output
  {
    match e
    case TimerEvent(r) => Tick(c, r)
    case PollEvent(r) => PollRequest(c, r)
    case SegmentEvent(s, r) => if c.state == Closed then Output(c, Drop, None) else Input(c, s, r)
    case ActiveOpenEvent(iss) =>
      if c.state == Closed || c.state == TimeWait then Output(ActiveOpen(c, iss), Drop, None)
      else Output(c, Drop, None)
    case PassiveOpenEvent(s, iss) =>
      if c.state == Closed || c.state == TimeWait then PassiveOpen(c, s, iss) else Output(c, Drop, None)
  }

  function Run(c: Conn, es: seq<Event>): Conn
    decreases |es|
  {
    if es == [] then c else Run(Step(c, es[0]).conn, es[1..])
  }

  // ---- The reachable-state invariant ----

  predicate OneOutstanding(s: State) { s.SynSent? || s.SynRcvd? || s.FinWait1? || s.Closing? || s.LastAck? }

  predicate Opening(s: State) { s.SynSent? || s.SynRcvd? }

  predicate Inv(c: Conn)
  {
    && (OneOutstanding(c.state) ==> c.len == 1)
    && (c.state.FinWait2? || c.state.TimeWait? ==> c.len == 0)
    && c.nrtx <= UIP_MAXRTX
    && (Opening(c.state) ==> c.nrtx <= UIP_MAXSYNRTX)
    && c.mss <= c.initialmss <= UIP_TCP_MSS
    && c.len <= UIP_TCP_MSS
  }

  /** uip_len of the IP packet a label builds. */
  function PacketLength(j: Jump): nat
  {
    match j
    case Drop => 0
    case SendAck => UIP_TCPIP_HLEN
    case SendNodata(_) => UIP_TCPIP_HLEN
    case SendNoopts(_, n) => UIP_TCPIP_HLEN + n
    case SendSyn(_) => UIP_TCPIP_HLEN + TCP_OPT_MSS_LEN
    case SendReset => UIP_TCPIP_HLEN
  }

  predicate Good(o: Output) { Inv(o.conn) && PacketLength(o.jump) <= UIP_BUFSIZE - UIP_LLH_LEN }

  lemma CallAndSendGood(c: Conn, shown: set<Flag>, data: seq<byte>, r: Reply)
    requires Inv(c) && c.state == Established
    ensures Good(CallAndSend(c, shown, data, r))
  {
    var flags := FlagsAfter(shown, r.action);
    if Abort !in flags && Close !in flags && r.slen > 0 {
      assert Offered(c, flags, r.slen) <= UIP_TCP_MSS;
    }
  }

  lemma InputGood(c: Conn, s: Segment, r: Reply)
    requires Inv(c) && c.state != Closed
    ensures Good(Input(c, s, r))
  {
    if !s.ctl.rst && !OutOfSequence(c, s) {
      DispatchGood(TakeAck(c, s), AckFlag(c, s), s, r, c.len);
    }
  }

  /** `before` is what was outstanding before the acknowledgement was taken. */
  lemma DispatchGood(c: Conn, flags: set<Flag>, s: Segment, r: Reply, before: u16)
    requires c.state != Closed && Inv(c.(len := before))
    requires c.len == if AckData in flags then 0 else before
    ensures Good(Dispatch(c, flags, s, r))
  {
    if c.state == SynRcvd && AckData in flags {
      CallAndSendGood(Received(c.(state := Established, len := 0), |s.data|), {Connected} + NewDataFlag(s), s.data, r);
    } else if c.state == SynSent && AckData in flags && s.ctl == SYN_ACK {
      var c1 := AdoptMss(c, s.mss).(state := Established, rcvNxt := Plus32(s.seqno, 1), len := 0);
      CallAndSendGood(c1, {Connected, NewData}, [], r);
    } else if c.state == Established && !s.ctl.fin {
      var wnd := if s.wnd > c.initialmss || s.wnd == 0 then c.initialmss else s.wnd;
      CallAndSendGood(Received(c, |s.data|).(mss := wnd), flags + NewDataFlag(s), s.data, r);
    }
  }

  lemma StepGood(c: Conn, e: Event)
    requires Inv(c)
    ensures Good(Step(c, e))
  {
    match e {
      case TimerEvent(r) => if c.state == Established && c.len == 0 { CallAndSendGood(c, {Poll}, [], r); }
      case PollEvent(r) => if c.state == Established { CallAndSendGood(c, {Poll}, [], r); }
      case SegmentEvent(s, r) => if c.state != Closed { InputGood(c, s, r); }
      case _ =>
    }
  }

  /** Every reachable connection satisfies the invariant and every packet it sends fits the buffer. */
  lemma {:induction false} ReachableGood(c: Conn, es: seq<Event>, e: Event)
    requires Inv(c)
    ensures Inv(Run(c, es)) && Good(Step(Run(c, es), e))
    decreases |es|
  {
    if es == [] {
      StepGood(c, e);
    } else {
      StepGood(c, es[0]);
      ReachableGood(Step(c, es[0]).conn, es[1..], e);
    }
  }

  /** The zeroed table entry that uip_init leaves starts every run. */
  lemma InitialInv(c: Conn)
    requires c.state == Closed && c.len == c.mss == c.initialmss == 0 && c.nrtx == 0
    ensures Inv(c)
  {
  }

  // ---- Stop and wait ----

  /** The event makes the connection take an acknowledgement. */
  predicate TakesAck(c: Conn, e: Event)
  {
    e.SegmentEvent? && c.state != Closed && !e.s.ctl.rst && !OutOfSequence(c, e.s) && Acks(c, e.s)
  }

  /** The event makes the connection transmit or retransmit `n` bytes of data. */
  predicate SendsData(c: Conn, e: Event, n: u16)
  {
    Step(c, e).jump == SendNoopts(PSH_ACK, n)
  }

  /** snd_nxt moves only when everything outstanding is acknowledged, and by exactly that much. */
  lemma SndNxtMoves(c: Conn, e: Event)
    requires !Opens(e)
    ensures TakesAck(c, e) ==> c.len > 0 && e.s.ackno == Plus32(c.sndNxt, c.len)
    ensures Step(c, e).conn.sndNxt == if TakesAck(c, e) then Plus32(c.sndNxt, c.len) else c.sndNxt
  {
  }

  predicate Past(s: State)
  {
    s.FinWait1? || s.FinWait2? || s.Closing? || s.TimeWait? || s.LastAck? || s.Closed?
  }

  /** Data with number `seqno` and length `n` is outstanding, or no data will be sent any more. */
  predicate Holding(c: Conn, seqno: u32, n: u16)
  {
    c.sndNxt == seqno && n > 0 && ((c.state == Established && c.len == n) || Past(c.state))
  }

  lemma CallAndSendHolds(c: Conn, shown: set<Flag>, data: seq<byte>, r: Reply, n: u16)
    requires c.state == Established
    ensures var o := CallAndSend(c, shown, data, r);
            && (o.jump == SendNoopts(PSH_ACK, n) ==> Holding(o.conn, c.sndNxt, n) && o.conn.state == Established)
            && (c.len > 0 && AckData !in shown && n == c.len ==> Holding(o.conn, c.sndNxt, n))
  {
  }

  lemma SendingHolds(c: Conn, e: Event, n: u16)
    requires !Opens(e) && SendsData(c, e, n)
    ensures Holding(Step(c, e).conn, Step(c, e).conn.sndNxt, n) && Step(c, e).conn.state == Established
  {
    match e {
      case TimerEvent(r) => if c.state == Established && c.len == 0 { CallAndSendHolds(c, {Poll}, [], r, n); }
      case PollEvent(r) => CallAndSendHolds(c, {Poll}, [], r, n);
      case SegmentEvent(s, r) =>
        assert Step(c, e) == Dispatch(TakeAck(c, s), AckFlag(c, s), s, r);
        DispatchSending(TakeAck(c, s), AckFlag(c, s), s, r, n);
    }
  }

  lemma DispatchSending(c: Conn, flags: set<Flag>, s: Segment, r: Reply, n: u16)
    requires c.state != Closed && Dispatch(c, flags, s, r).jump == SendNoopts(PSH_ACK, n)
    ensures var d := Dispatch(c, flags, s, r).conn; Holding(d, d.sndNxt, n) && d.state == Established
  {
    if c.state == SynRcvd {
      CallAndSendHolds(Received(c.(state := Established, len := 0), |s.data|), {Connected} + NewDataFlag(s), s.data, r, n);
    } else if c.state == SynSent {
      var c1 := AdoptMss(c, s.mss).(state := Established, rcvNxt := Plus32(s.seqno, 1), len := 0);
      CallAndSendHolds(c1, {Connected, NewData}, [], r, n);
    } else {
      var wnd := if s.wnd > c.initialmss || s.wnd == 0 then c.initialmss else s.wnd;
      CallAndSendHolds(Received(c, |s.data|).(mss := wnd), flags + NewDataFlag(s), s.data, r, n);
    }
  }

  lemma StepHolds(c: Conn, e: Event, seqno: u32, n: u16)
    requires Holding(c, seqno, n) && !Opens(e) && !TakesAck(c, e)
    ensures Holding(Step(c, e).conn, seqno, n)
    ensures forall m :: SendsData(c, e, m) ==> m == n
  {
    if c.state == Established && e.SegmentEvent? && !e.s.ctl.rst && !OutOfSequence(c, e.s) && !e.s.ctl.fin {
      var s, r := e.s, e.r;
      var wnd := if s.wnd > c.initialmss || s.wnd == 0 then c.initialmss else s.wnd;
      CallAndSendHolds(Received(c, |s.data|).(mss := wnd), NewDataFlag(s), s.data, r, n);
      assert {} + NewDataFlag(s) == NewDataFlag(s);
    }
  }

  /** A run without opens in which no acknowledgement is taken. */
  predicate Unacked(c: Conn, es: seq<Event>)
    decreases |es|
  {
    es == [] || (!Opens(es[0]) && !TakesAck(c, es[0]) && Unacked(Step(c, es[0]).conn, es[1..]))
  }

  lemma {:induction false} RunHolds(c: Conn, es: seq<Event>, seqno: u32, n: u16)
    requires Holding(c, seqno, n) && Unacked(c, es)
    ensures Holding(Run(c, es), seqno, n)
    decreases |es|
  {
    if es != [] {
      StepHolds(c, es[0], seqno, n);
      RunHolds(Step(c, es[0]).conn, es[1..], seqno, n);
    }
  }

  /**
   * Between two advances of snd_nxt all data transmissions carry one sequence number and one
   * length: `first` and `last` send data and nothing after `first` takes an acknowledgement.
   */
  lemma StopAndWait(c: Conn, first: Event, es: seq<Event>, last: Event, n: u16, m: u16)
    requires !Opens(first) && SendsData(c, first, n)
    requires Unacked(Step(c, first).conn, es)
    requires var d := Run(Step(c, first).conn, es); !Opens(last) && !TakesAck(d, last) && SendsData(d, last, m)
    ensures m == n
    ensures Step(Run(Step(c, first).conn, es), last).conn.sndNxt == Step(c, first).conn.sndNxt
  {
    var c1 := Step(c, first).conn;
    SendingHolds(c, first, n);
    RunHolds(c1, es, c1.sndNxt, n);
    StepHolds(Run(c1, es), last, c1.sndNxt, n);
  }

  // ---- Giving up ----

  /** Ticks from the first expiry of the timer with `nrtx` retransmissions done to the last. */
  function BackoffTicks(nrtx: nat, limit: nat): nat
    requires nrtx <= limit <= UIP_MAXRTX
    decreases limit - nrtx
  {
    if nrtx == limit then 1 else 1 + Backoff(nrtx) + BackoffTicks(nrtx + 1, limit)
  }

  function RetryLimit(s: State): byte
  {
    if Opening(s) then UIP_MAXSYNRTX else UIP_MAXRTX
  }

  /** The connection has a SYN, a FIN or data outstanding, or is on a closing timer. */
  predicate Expiring(c: Conn)
  {
    c.state == TimeWait || c.state == FinWait2 || c.state == Closed || c.len > 0
  }

  /** Timer ticks until the connection is CLOSED when nothing more is received. */
  function TicksLeft(c: Conn): nat
    requires Inv(c) && Expiring(c)
  {
    if c.state == Closed then 0
    else if c.state == TimeWait || c.state == FinWait2 then
      if c.timer < UIP_TIME_WAIT_TIMEOUT then UIP_TIME_WAIT_TIMEOUT - c.timer
      else UIP_TIME_WAIT_TIMEOUT + 256 - c.timer
    else c.timer + BackoffTicks(c.nrtx, RetryLimit(c.state))
  }

  lemma TickCountsDown(c: Conn, r: Reply)
    requires Inv(c) && Expiring(c) && c.state != Closed
    ensures Inv(Tick(c, r).conn) && Expiring(Tick(c, r).conn)
    ensures TicksLeft(Tick(c, r).conn) == TicksLeft(c) - 1
  {
  }

  function Ticks(c: Conn, rs: seq<Reply>): Conn
    decreases |rs|
  {
    if rs == [] then c else Ticks(Tick(c, rs[0]).conn, rs[1..])
  }

  /** The connection is CLOSED after exactly TicksLeft ticks, whatever the application answers. */
  lemma {:induction false} GivesUpExactly(c: Conn, rs: seq<Reply>)
    requires Inv(c) && Expiring(c)
    ensures Ticks(c, rs).state == Closed <==> |rs| >= TicksLeft(c)
    decreases |rs|
  {
    if rs != [] {
      if c.state == Closed {
        assert Tick(c, rs[0]).conn == c;
      } else {
        TickCountsDown(c, rs[0]);
      }
      GivesUpExactly(Tick(c, rs[0]).conn, rs[1..]);
    }
  }

  /** The numbers behind TicksLeft. */
  lemma TicksLeftValues(c: Conn)
    requires Inv(c) && Expiring(c)
    ensures c.state != Closed && c.len > 0 && !Opening(c.state) && c.nrtx == 0 ==> TicksLeft(c) == c.timer + 246
    ensures Opening(c.state) && c.nrtx == 0 ==> TicksLeft(c) == c.timer + 99
    ensures c.state == TimeWait && c.timer == 0 ==> TicksLeft(c) == 120
    ensures c.state == FinWait2 ==> TicksLeft(c) <= 256
    ensures TicksLeft(c) <= 501
  {
    BackoffTicksValue(c.nrtx, RetryLimit(c.state));
  }

  lemma {:induction false} BackoffTicksValue(nrtx: nat, limit: nat)
    requires nrtx <= limit && (limit == UIP_MAXRTX || limit == UIP_MAXSYNRTX)
    ensures limit == UIP_MAXRTX && nrtx == 0 ==> BackoffTicks(nrtx, limit) == 246
    ensures limit == UIP_MAXSYNRTX && nrtx == 0 ==> BackoffTicks(nrtx, limit) == 99
    ensures BackoffTicks(nrtx, limit) <= 246
  {
    assert BackoffTicks(limit, limit) == 1;
    if limit == UIP_MAXRTX {
      assert BackoffTicks(7, 8) == 50;
      assert BackoffTicks(6, 8) == 99;
      assert BackoffTicks(5, 8) == 148;
      assert BackoffTicks(4, 8) == 197;
      assert BackoffTicks(3, 8) == 222;
      assert BackoffTicks(2, 8) == 235;
      assert BackoffTicks(1, 8) == 242;
    } else {
      assert BackoffTicks(4, 5) == 50;
      assert BackoffTicks(3, 5) == 75;
      assert BackoffTicks(2, 5) == 88;
      assert BackoffTicks(1, 5) == 95;
    }
  }

  /** A fresh passive open that never hears again is gone after 102 ticks, an active one after 100. */
  lemma FreshOpensExpire(c: Conn, s: Segment, iss: u32)
    requires Inv(c)
    ensures var p := PassiveOpen(c, s, iss).conn; Inv(p) && Expiring(p) && TicksLeft(p) == 102
    ensures var a := ActiveOpen(c, iss); Inv(a) && Expiring(a) && TicksLeft(a) == 100
  {
    BackoffTicksValue(0, UIP_MAXSYNRTX);
  }

  // ---- Closing ----

  /**
   * The FIN of uip_close takes the number of the first byte that is not acknowledged.  That is
   * the first free number exactly when nothing is outstanding.
   */
  lemma CloseNeedsSilence(c: Conn, shown: set<Flag>, data: seq<byte>, r: Reply, input: Segment)
    requires r.action == CloseConn
    ensures var o := CallAndSend(c, shown, data, r);
            && o.jump == SendNodata(FIN_ACK) && o.conn.state == FinWait1
            && Emitted(o, r.window, input).value.seqno == c.sndNxt
            && (Emitted(o, r.window, input).value.seqno == Plus32(c.sndNxt, c.len) <==> c.len == 0)
  {
    Plus32Zero(c.sndNxt);
    if Plus32(c.sndNxt, 0) == Plus32(c.sndNxt, c.len) {
      Plus32Injective(c.sndNxt, 0, c.len);
    }
  }

  predicate NoOpens(es: seq<Event>) { forall e :: e in es ==> !Opens(e) }

  lemma PastStep(c: Conn, e: Event)
    requires Past(c.state) && !Opens(e)
    ensures Past(Step(c, e).conn.state) && forall n :: !SendsData(c, e, n)
  {
  }

  /** Once the FIN is out no data is sent any more, acknowledged or not. */
  lemma {:induction false} NeverSentAgain(c: Conn, es: seq<Event>, e: Event, n: u16)
    requires Past(c.state) && NoOpens(es) && !Opens(e)
    ensures Past(Run(c, es).state) && !SendsData(Run(c, es), e, n)
    decreases |es|
  {
    if es == [] {
      PastStep(c, e);
    } else {
      assert es[0] in es;
      PastStep(c, es[0]);
      NeverSentAgain(Step(c, es[0]).conn, es[1..], e, n);
    }
  }
}
