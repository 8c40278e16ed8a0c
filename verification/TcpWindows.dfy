/**
 * How much is sent at once (uip/uip.c:1335-1342, 1507-1511, 1609-1626, 1666-1698): what is offered, up to
 * the peer's window and the segment size agreed at the open.
 */
module TcpWindows {
  import opened Words
  import opened Tcp
  import opened TcpRuns
  import TcpSafety

  function Min(x: nat, y: nat): nat { if x < y then x else y }

  /** What may be sent at once: a window of zero, and none heard yet, do not limit it. */
  function MostWith(agreed: u16, window: Option<u16>): nat
  {
    if window.Some? && window.value > 0 then Min(agreed, window.value) else agreed
  }

  /** A segment that ESTABLISHED takes in, and with it its window. */
  predicate TellsWindow(c: Conn, e: Event)
  {
    && e.SegmentEvent? && c.state == Established && !e.s.ctl.rst && !e.s.ctl.fin && !OutOfSequence(c, e.s)
  }

  /** Nothing is outstanding once the event's acknowledgement has been taken. */
  predicate NothingOut(c: Conn, e: Event) { TcpSafety.Rest(c, TakesAck(c, e)) == 0 || Opening(c.state) }

  function ReplyTo(e: Event): Reply
    requires !Opens(e)
  {
    e.r
  }

  // ---- One event ----

  /** New data in answer to a call in ESTABLISHED. */
  lemma FirstOfCall(c: Conn, shown: set<Flag>, data: seq<byte>, r: Reply)
    requires c.len == 0 && Abort !in shown && Close !in shown
    ensures var o := CallAndSend(c, shown, data, r);
            var n := Min(r.slen, c.mss);
            && (r.action == Carry && n > 0 <==> o.jump.SendNoopts? && o.jump.ctl == PSH_ACK)
            && (o.jump.SendNoopts? && o.jump.ctl == PSH_ACK ==> o.jump.n == n == o.conn.len && o.conn.nrtx == 0)
            && o.conn.mss == c.mss && o.conn.initialmss == c.initialmss && o.conn.timer == c.timer
  {
  }

  /**
   * With nothing outstanding, the data that goes out for a segment in ESTABLISHED is what was
   * offered, up to that segment's window and the size agreed; and if anything was offered and
   * the application was called, it goes out.
   */
  lemma FirstOnWire(c: Conn, s: Segment, r: Reply, input: Segment)
    requires TellsWindow(c, SegmentEvent(s, r)) && TcpSafety.Rest(c, Acks(c, s)) == 0 && c.initialmss <= UIP_TCP_MSS
    ensures var o := Input(c, s, r);
            var n := Min(r.slen, MostWith(c.initialmss, Some(s.wnd)));
            && ((Acks(c, s) || s.data != []) && r.action == Carry && n > 0 <==>
                  o.jump.SendNoopts? && o.jump.ctl == PSH_ACK)
            && (o.jump.SendNoopts? && o.jump.ctl == PSH_ACK ==>
                  var data := Emitted(o, r.window, input).value.data;
                  data == r.window[..n] && |data| == n && (s.wnd > 0 ==> n <= s.wnd))
  {
    var c1 := Received(TakeAck(c, s), |s.data|).(mss := MostWith(c.initialmss, Some(s.wnd)));
    var shown := AckFlag(c, s) + NewDataFlag(s);
    assert Input(c, s, r) == if shown == {} then Output(c1, Drop, None) else CallAndSend(c1, shown, s.data, r);
    FirstOfCall(c1, shown, s.data, r);
  }

  // ---- Runs ----

  /** The window last told in ESTABLISHED. */
  function LastWindow(c: Conn, es: seq<Event>, last: Option<u16>): Option<u16>
    decreases |es|
  {
    if es == [] then last
    else LastWindow(Step(c, es[0]).conn, es[1..], if TellsWindow(c, es[0]) then Some(es[0].s.wnd) else last)
  }

  /** mss is what may be sent at once. */
  predicate Agrees(c: Conn, last: Option<u16>)
  {
    && (c.state == Established ==> c.mss == MostWith(c.initialmss, last))
    && (Opening(c.state) ==> last == None && c.mss == c.initialmss)
  }

  function TellNext(c: Conn, e: Event, last: Option<u16>): Option<u16>
  {
    if TellsWindow(c, e) then Some(e.s.wnd) else last
  }

  lemma StepAgrees(c: Conn, e: Event, last: Option<u16>)
    requires !Opens(e) && Agrees(c, last)
    ensures Agrees(Step(c, e).conn, TellNext(c, e, last))
  {
    match e {
      case TimerEvent(r) => TickKeepsMss(c, r);
      case PollEvent(r) =>
      case SegmentEvent(s, r) =>
        if c.state == Established {
          EstablishedAgrees(c, s, r, last);
        } else if Opening(c.state) {
          OpeningAgrees(c, s, r);
        } else {
          ClosingNotBack(c, s, r);
        }
    }
  }

  lemma TickKeepsMss(c: Conn, r: Reply)
    ensures var d := Tick(c, r).conn;
            && d.mss == c.mss && d.initialmss == c.initialmss
            && (d.state == Established ==> c.state == Established) && (Opening(d.state) ==> c.state == d.state)
  {
  }

  lemma EstablishedAgrees(c: Conn, s: Segment, r: Reply, last: Option<u16>)
    requires c.state == Established && Agrees(c, last)
    ensures Agrees(Input(c, s, r).conn, TellNext(c, SegmentEvent(s, r), last))
    ensures Input(c, s, r).conn.initialmss == c.initialmss
  {
  }

  lemma OpeningAgrees(c: Conn, s: Segment, r: Reply)
    requires Opening(c.state) && Agrees(c, None)
    ensures Agrees(Input(c, s, r).conn, None)
  {
  }

  lemma ClosingNotBack(c: Conn, s: Segment, r: Reply)
    requires c.state != Established && !Opening(c.state)
    ensures var d := Step(c, SegmentEvent(s, r)).conn; d.state != Established && !Opening(d.state)
  {
  }

  lemma {:induction false} RunAgrees(c: Conn, es: seq<Event>, last: Option<u16>)
    requires NoOpens(es) && Agrees(c, last)
    ensures Agrees(Run(c, es), LastWindow(c, es, last))
    decreases |es|
  {
    if es != [] {
      assert es[0] in es;
      StepAgrees(c, es[0], last);
      RunAgrees(Step(c, es[0]).conn, es[1..], TellNext(c, es[0], last));
    }
  }

  /** Data sent in one step with nothing outstanding. */
  lemma FirstOfStep(c: Conn, e: Event, n: u16, last: Option<u16>)
    requires !Opens(e) && Agrees(c, last) && SendsData(c, e, n) && NothingOut(c, e)
    ensures var d := Step(c, e).conn;
            && n == Min(ReplyTo(e).slen, MostWith(d.initialmss, TellNext(c, e, last))) && d.len == n && d.nrtx == 0
  {
    match e {
      case TimerEvent(r) => TimerFirst(c, r, n);
      case PollEvent(r) => FirstOfCall(c, {Poll}, [], r);
      case SegmentEvent(s, r) =>
        if c.state == Established {
          var c1 := Received(TakeAck(c, s), |s.data|).(mss := MostWith(c.initialmss, Some(s.wnd)));
          FirstOfCall(c1, AckFlag(c, s) + NewDataFlag(s), s.data, r);
        } else {
          OpeningFirst(c, s, r, n);
        }
    }
  }

  lemma TimerFirst(c: Conn, r: Reply, n: u16)
    requires Tick(c, r).jump == SendNoopts(PSH_ACK, n) && (c.len == 0 || Opening(c.state))
    ensures c.state == Established && c.len == 0 && n == Min(r.slen, c.mss)
    ensures var d := Tick(c, r).conn; d.initialmss == c.initialmss && d.len == n && d.nrtx == 0
  {
    if c.state == Established && c.len == 0 {
      FirstOfCall(c, {Poll}, [], r);
    }
  }

  lemma OpeningFirst(c: Conn, s: Segment, r: Reply, n: u16)
    requires c.state != Established && Agrees(c, None) && SendsData(c, SegmentEvent(s, r), n)
    ensures Opening(c.state)
    ensures var d := Input(c, s, r).conn; n == Min(r.slen, d.initialmss) && d.len == n && d.nrtx == 0
  {
    if c.state.SynRcvd? && Acks(c, s) {
      FirstOfCall(Received(TakeAck(c, s).(state := Established, len := 0), |s.data|), {Connected} + NewDataFlag(s), s.data, r);
    } else if c.state.SynSent? && Acks(c, s) && s.ctl == SYN_ACK {
      var c1 := AdoptMss(TakeAck(c, s), s.mss).(state := Established, rcvNxt := Plus32(s.seqno, 1), len := 0);
      FirstOfCall(c1, {Connected, NewData}, [], r);
    }
  }

  /**
   * Every first transmission of a connection, over every run from its opening, is exactly as long
   * as what is offered, the size agreed at the open and the window last told in ESTABLISHED
   * allow; and it starts with all its retries.
   */
  lemma FirstTransmission(c: Conn, es: seq<Event>, e: Event, n: u16)
    requires Opening(c.state) && c.mss == c.initialmss && NoOpens(es) && !Opens(e)
    requires SendsData(Run(c, es), e, n) && NothingOut(Run(c, es), e)
    ensures var d := Step(Run(c, es), e).conn;
            && n == Min(ReplyTo(e).slen, MostWith(d.initialmss, TellNext(Run(c, es), e, LastWindow(c, es, None))))
            && d.len == n && d.nrtx == 0
  {
    RunAgrees(c, es, None);
    FirstOfStep(Run(c, es), e, n, LastWindow(c, es, None));
  }

  // ---- The size agreed ----

  /** The size agreed does not change after the opening. */
  lemma StepKeepsAgreed(c: Conn, e: Event)
    requires !Opens(e) && c.state != SynSent
    ensures var d := Step(c, e).conn; d.initialmss == c.initialmss && d.state != SynSent
  {
    if e.TimerEvent? {
      TickKeepsMss(c, e.r);
    }
  }

  lemma {:induction false} RunKeepsAgreed(c: Conn, es: seq<Event>)
    requires NoOpens(es) && c.state != SynSent
    ensures Run(c, es).initialmss == c.initialmss
    decreases |es|
  {
    if es != [] {
      assert es[0] in es;
      StepKeepsAgreed(c, es[0]);
      RunKeepsAgreed(Step(c, es[0]).conn, es[1..]);
    }
  }

  /** A server never sends more at once than the client's SYN allows. */
  lemma OptionIsKept(slot: Conn, syn: Segment, iss: u32, m: u16, es: seq<Event>, e: Event, n: u16)
    requires syn.mss == Some(m) && NoOpens(es) && !Opens(e)
    requires var c := PassiveOpen(slot, syn, iss).conn; SendsData(Run(c, es), e, n) && NothingOut(Run(c, es), e)
    ensures n <= m
  {
    var c := PassiveOpen(slot, syn, iss).conn;
    FirstTransmission(c, es, e, n);
    RunKeepsAgreed(c, es);
    StayNotSynSent(c, es);
    StepKeepsAgreed(Run(c, es), e);
  }

  lemma {:induction false} StayNotSynSent(c: Conn, es: seq<Event>)
    requires NoOpens(es) && c.state != SynSent
    ensures Run(c, es).state != SynSent
    decreases |es|
  {
    if es != [] {
      assert es[0] in es;
      StepKeepsAgreed(c, es[0]);
      StayNotSynSent(Step(c, es[0]).conn, es[1..]);
    }
  }

  /** A client takes the size from the SYNACK, up to its own limit. */
  lemma ClientAdoptsOption(c: Conn, s: Segment, r: Reply, m: u16)
    requires c.state == SynSent && !s.ctl.rst && s.ctl == SYN_ACK && Acks(c, s) && s.mss == Some(m)
    ensures Input(c, s, r).conn.initialmss == Min(m, UIP_TCP_MSS)
  {
  }

  // ---- What does not limit it ----

  /** The window in the segment that completes the opening is not looked at. */
  lemma OpeningWindowIgnored(c: Conn, s: Segment, r: Reply, w: u16)
    requires Opening(c.state)
    ensures Input(c, s, r) == Input(c, s.(wnd := w), r) || Input(c, s, r).jump == SendReset
    ensures c.state == SynRcvd ==> Input(c, s, r) == Input(c, s.(wnd := w), r)
  {
  }

  /** After a window of 100 a window of 0 lets 300 bytes go out at once: the code probes with a whole segment. */
  lemma ZeroWindowProbes(c: Conn, s: Segment, r: Reply)
    requires c.state == Established && c.len == 0 && c.mss == 100 && c.initialmss == 366
    requires s == Segment(c.rcvNxt, c.sndNxt, ACK, 0, None, [7]) && r.action == Carry && r.slen == 300
    ensures Input(c, s, r).jump == SendNoopts(PSH_ACK, 300)
  {
  }

  /** A passive open without MSS option starts with what the table entry's last peer allowed. */
  lemma StaleSize(slot: Conn, syn: Segment, iss: u32)
    requires syn.mss == None
    ensures var c := PassiveOpen(slot, syn, iss).conn; c.mss == slot.mss && c.initialmss == slot.initialmss
  {
  }
}
