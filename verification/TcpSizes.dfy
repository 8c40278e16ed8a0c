/**
 * The segment size of a connection over its runs (uip/uip.c:455, 1326-1357, 1495-1526, 1621-1626),
 * and the events of a protosocket that the connection makes.
 */
module TcpSizes {
  import opened Words
  import opened Tcp
  import opened TcpRuns
  import P = Psock

  /** The two sizes are zero together, and with size zero no data is ever outstanding. */
  predicate Sized(c: Conn)
  {
    && (c.mss == 0 <==> c.initialmss == 0)
    && (c.state == Established && c.initialmss == 0 ==> c.len == 0)
  }

  lemma CallAndSendSized(c: Conn, shown: set<Flag>, data: seq<byte>, r: Reply)
    requires Sized(c) && c.state == Established
    ensures var o := CallAndSend(c, shown, data, r);
            Sized(o.conn) && o.conn.mss == c.mss && o.conn.initialmss == c.initialmss
  {
  }

  /** Every event keeps it, and no call that announces an acknowledgement is made with size zero. */
  lemma StepSized(c: Conn, e: Event)
    requires Sized(c)
    ensures var o := Step(c, e);
            Sized(o.conn) && (o.call.Some? && AckData in o.call.value.flags ==> o.conn.mss > 0)
  {
    match e {
      case TimerEvent(r) => if c.state == Established && c.len == 0 { CallAndSendSized(c, {Poll}, [], r); }
      case PollEvent(r) => if c.state == Established { CallAndSendSized(c, {Poll}, [], r); }
      case SegmentEvent(s, r) =>
        if c.state != Closed && !s.ctl.rst && !OutOfSequence(c, s) {
          DispatchSized(TakeAck(c, s), AckFlag(c, s), s, r);
        }
      case _ =>
    }
  }

  /** After the acknowledgement; the flag is set only when something was outstanding. */
  lemma DispatchSized(c: Conn, flags: set<Flag>, s: Segment, r: Reply)
    requires c.state != Closed && Sized(c) && flags <= {AckData}
    requires c.state == Established && AckData in flags ==> c.initialmss > 0
    ensures var o := Dispatch(c, flags, s, r);
            Sized(o.conn) && (o.call.Some? && AckData in o.call.value.flags ==> o.conn.mss > 0)
  {
    if c.state == SynRcvd && AckData in flags {
      CallAndSendSized(Received(c.(state := Established, len := 0), |s.data|), {Connected} + NewDataFlag(s), s.data, r);
    } else if c.state == SynSent && AckData in flags && s.ctl == SYN_ACK {
      var c1 := AdoptMss(c, s.mss).(state := Established, rcvNxt := Plus32(s.seqno, 1), len := 0);
      CallAndSendSized(c1, {Connected, NewData}, [], r);
    } else if c.state == Established && !s.ctl.fin {
      var wnd := if s.wnd > c.initialmss || s.wnd == 0 then c.initialmss else s.wnd;
      CallAndSendSized(Received(c, |s.data|).(mss := wnd), flags + NewDataFlag(s), s.data, r);
    }
  }

  /** The zeroed table entry starts every run. */
  lemma InitialSized(c: Conn)
    requires c.state == Closed && c.mss == c.initialmss == 0
    ensures Sized(c)
  {
  }

  lemma {:induction false} ReachableSized(c: Conn, es: seq<Event>)
    requires Sized(c)
    ensures Sized(Run(c, es))
    decreases |es|
  {
    if es != [] {
      StepSized(c, es[0]);
      ReachableSized(Step(c, es[0]).conn, es[1..]);
    }
  }

  /** The event that a protosocket sees in a call, with the size that uip_mss() then gives. */
  function EventOf(call: Call, mss: u16): P.Event
  {
    P.Event(NewData in call.flags, call.data, Rexmit in call.flags, AckData in call.flags, mss)
  }

  /** Over every run, psock_send meets an acknowledgement with a size that is not zero. */
  lemma AcknowledgedWithSize(c: Conn, es: seq<Event>, e: Event)
    requires Sized(c)
    ensures var o := Step(Run(c, es), e);
            o.call.Some? && EventOf(o.call.value, o.conn.mss).acked ==> EventOf(o.call.value, o.conn.mss).mss > 0
  {
    ReachableSized(c, es);
    StepSized(Run(c, es), e);
  }

  /** Size zero stays, and no data goes out. */
  lemma SilentStep(c: Conn, e: Event)
    requires Sized(c) && c.initialmss == 0 && c.state != SynSent && !Opens(e)
    ensures var o := Step(c, e);
            && Sized(o.conn) && o.conn.initialmss == 0 && o.conn.state != SynSent
            && forall n :: !SendsData(c, e, n)
  {
    StepSized(c, e);
    if e.SegmentEvent? && c.state != Closed && !e.s.ctl.rst && !OutOfSequence(c, e.s) {
      assert Step(c, e) == Dispatch(TakeAck(c, e.s), AckFlag(c, e.s), e.s, e.r);
      SilentDispatch(TakeAck(c, e.s), AckFlag(c, e.s), e.s, e.r);
    }
  }

  lemma SilentDispatch(c: Conn, flags: set<Flag>, s: Segment, r: Reply)
    requires Sized(c) && c.initialmss == 0 && c.state != SynSent && c.state != Closed
    ensures var o := Dispatch(c, flags, s, r);
            o.conn.initialmss == 0 && o.conn.state != SynSent && forall n :: o.jump != SendNoopts(PSH_ACK, n)
  {
  }

  /**
   * A connection that a SYN without MSS option opens in a fresh table entry has size zero: over
   * no run does it ever send data.
   */
  lemma {:induction false} NoOptionNoData(c: Conn, s: Segment, iss: u32, es: seq<Event>, e: Event, n: u16)
    requires c.mss == c.initialmss == 0 && s.mss == None && NoOpens(es) && !Opens(e)
    ensures !SendsData(Run(PassiveOpen(c, s, iss).conn, es), e, n)
  {
    SilentRun(PassiveOpen(c, s, iss).conn, es, e, n);
  }

  lemma {:induction false} SilentRun(c: Conn, es: seq<Event>, e: Event, n: u16)
    requires Sized(c) && c.initialmss == 0 && c.state != SynSent && NoOpens(es) && !Opens(e)
    ensures !SendsData(Run(c, es), e, n)
    decreases |es|
  {
    if es == [] {
      SilentStep(c, e);
    } else {
      assert es[0] in es;
      SilentStep(c, es[0]);
      SilentRun(Step(c, es[0]).conn, es[1..], e, n);
    }
  }
}
