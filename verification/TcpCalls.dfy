/**
 * What the application is told and when, and what its abort and its silence do
 * (uip/uip.c:696-703, 747-755, 801-807, 1385-1395, 1473-1484, 1533-1545, 1560-1576, 1644-1664, 1721-1786).
 */
module TcpCalls {
  import opened Words
  import opened Tcp
  import opened TcpRuns
  import TcpSafety
  import opened TcpWindows

  predicate Told(o: Output, f: Flag) { o.call.Some? && f in o.call.value.flags }

  /** The application is told of the connection exactly when the acknowledgement of the SYN is taken. */
  lemma ConnectedIff(c: Conn, e: Event)
    requires !Opens(e)
    ensures Told(Step(c, e), Connected) <==>
            Opening(c.state) && TakesAck(c, e) && (c.state.SynSent? ==> e.s.ctl == SYN_ACK)
    ensures Opening(c.state) && Step(c, e).conn.state == Established ==> Told(Step(c, e), Connected)
  {
  }

  /** In ESTABLISHED it is called exactly for what is new: an acknowledgement, data, or both, and shown that data. */
  lemma CalledForNews(c: Conn, s: Segment, r: Reply)
    requires c.state == Established && !s.ctl.rst && !s.ctl.fin && !OutOfSequence(c, s)
    ensures var o := Input(c, s, r);
            && (o.call.Some? <==> Acks(c, s) || s.data != [])
            && (Told(o, AckData) <==> Acks(c, s)) && (Told(o, NewData) <==> s.data != [])
            && (o.call.Some? ==> o.call.value.data == s.data && o.call.value.flags <= {AckData, NewData})
  {
  }

  /** The peer's FIN is passed on with the data in front of it, once nothing is outstanding, and answered with a FIN. */
  lemma PeerCloses(c: Conn, s: Segment, r: Reply)
    requires c.state == Established && !s.ctl.rst && s.ctl.fin && !OutOfSequence(c, s)
    ensures var o := Input(c, s, r);
            var taken := TcpSafety.Rest(c, Acks(c, s)) == 0;
            && (Told(o, Close) <==> taken)
            && (taken ==> o.call.value.data == s.data && (Told(o, NewData) <==> s.data != []) && (Told(o, AckData) <==> Acks(c, s)))
            && (taken ==> o.conn.state == LastAck && o.conn.len == 1 && o.conn.nrtx == 0 && o.jump == SendNodata(FIN_ACK))
            && (!taken ==> o == Output(c, Drop, None))
  {
  }

  /** A reset closes the connection in every state, says so to the application, and is not answered. */
  lemma ResetCloses(c: Conn, s: Segment, r: Reply)
    requires c.state != Closed && s.ctl.rst
    ensures Input(c, s, r) == Output(c.(state := Closed), Drop, Some(Call({Abort}, [])))
  {
  }

  /** An abort reaches the peer: its reset closes the connection there, and the application there is told. */
  lemma AbortReachesPeer(c: Conn, shown: set<Flag>, data: seq<byte>, r: Reply, input: Segment, peer: Conn, rp: Reply)
    requires r.action == AbortConn && peer.state != Closed
    ensures var o := CallAndSend(c, shown, data, r);
            && o.conn.state == Closed && Emitted(o, r.window, input).Some?
            && var p := Input(peer, Emitted(o, r.window, input).value, rp);
            p.conn.state == Closed && Told(p, Abort)
  {
  }

  /** With nothing outstanding the application is asked at every tick, and in answer to every poll request. */
  lemma AskedWhenIdle(c: Conn, r: Reply)
    ensures Told(Tick(c, r), Poll) <==> c.state == Established && c.len == 0
    ensures Told(Tcp.PollRequest(c, r), Poll) <==> c.state == Established && c.len == 0
    ensures !(c.state == Established && c.len == 0) ==> Tcp.PollRequest(c, r) == Output(c, Drop, None)
  {
  }

  /** A call in which the application may send new data: of a poll, a connection, an acknowledgement or new data. */
  predicate Invites(o: Output) { o.call.Some? && o.call.value.flags !! {Rexmit, TimedOut, Close, Abort} }

  /**
   * What the application answers to such a call goes out: its close as a FIN, its abort as a RST,
   * and, with nothing outstanding, its data; without data an acknowledgement of what came in.
   */
  lemma AnswerGoesOut(c: Conn, e: Event)
    requires !Opens(e) && Invites(Step(c, e))
    ensures var r, o := ReplyTo(e), Step(c, e);
            match r.action
            case AbortConn => o.conn.state == Closed && o.jump == SendNodata(RST_ACK)
            case CloseConn => o.conn.state == FinWait1 && o.conn.len == 1 && o.conn.nrtx == 0 && o.jump == SendNodata(FIN_ACK)
            case Carry =>
              && o.conn.state == Established && o.conn.nrtx == 0
              && (NothingOut(c, e) ==>
                    && o.conn.len == Min(r.slen, o.conn.mss)
                    && o.jump == if o.conn.len > 0 then SendNoopts(PSH_ACK, o.conn.len)
                                 else if Told(o, NewData) then SendNoopts(ACK, 0) else Drop)
  {
    if e.SegmentEvent? {
      InvitesFrom(c, e.s, e.r);
    }
  }

  /** Segments invite in the opening states and in ESTABLISHED only. */
  lemma InvitesFrom(c: Conn, s: Segment, r: Reply)
    requires Invites(Step(c, SegmentEvent(s, r)))
    ensures Opening(c.state) || c.state == Established
    ensures !s.ctl.rst && !OutOfSequence(c, s) && (c.state == Established ==> !s.ctl.fin)
  {
  }

  /** It is asked for a retransmission exactly when one is due in ESTABLISHED. */
  lemma AskedAgainWhenDue(c: Conn, r: Reply)
    ensures Told(Tick(c, r), Rexmit) <==> c.state == Established && c.len > 0 && c.timer == 0 && !GivesUp(c)
    ensures Told(Tick(c, r), TimedOut) <==>
            c.state != Closed && c.state != TimeWait && c.state != FinWait2 && c.len > 0 && c.timer == 0 && GivesUp(c)
  {
  }

  /** A client that hears anything but the SYNACK it waits for gives up, and says so to both sides. */
  lemma SynSentRefuses(c: Conn, s: Segment, r: Reply)
    requires c.state == SynSent && !s.ctl.rst && !OutOfSequence(c, s) && !(Acks(c, s) && s.ctl == SYN_ACK)
    ensures var o := Input(c, s, r);
            && o.conn.state == Closed && Told(o, Abort) && Emitted(o, r.window, s).Some?
            && Emitted(o, r.window, s).value.ctl.rst && Emitted(o, r.window, s).value.seqno == s.ackno
  {
  }

  // ---- The closing states ----

  /** The transitions of RFC 793 figure 6 that a segment in sequence brings about. */
  function Figure6(s: State, acks: bool, fin: bool): State
  {
    match s
    case FinWait1 => if fin && acks then TimeWait else if fin then Closing else if acks then FinWait2 else FinWait1
    case FinWait2 => if fin then TimeWait else FinWait2
    case Closing => if acks then TimeWait else Closing
    case LastAck => if acks then Closed else LastAck
    case _ => s
  }

  predicate ClosingState(s: State) { s.FinWait1? || s.FinWait2? || s.Closing? || s.LastAck? || s.TimeWait? }

  /** The closing states follow the diagram; TIME_WAIT starts with its whole time, and the end is told. */
  lemma FollowsFigure6(c: Conn, s: Segment, r: Reply)
    requires ClosingState(c.state) && !s.ctl.rst && !OutOfSequence(c, s)
    ensures var o := Input(c, s, r);
            && o.conn.state == Figure6(c.state, Acks(c, s), s.ctl.fin)
            && (o.conn.state.TimeWait? && !c.state.TimeWait? ==> o.conn.timer == 0)
            && (Told(o, Close) <==> (s.ctl.fin && (c.state.FinWait1? || c.state.FinWait2?)) || o.conn.state == Closed)
  {
  }

  /** From there it closes after 120 ticks. */
  lemma TimeWaitLasts(c: Conn, s: Segment, r: Reply)
    requires Inv(c) && ClosingState(c.state) && !c.state.TimeWait? && !s.ctl.rst && !OutOfSequence(c, s)
    requires Figure6(c.state, Acks(c, s), s.ctl.fin) == TimeWait
    ensures var d := Input(c, s, r).conn; Inv(d) && TicksLeft(d) == 120
  {
    InputGood(c, s, r);
    FollowsFigure6(c, s, r);
  }

  /** In TIME_WAIT everything but a reset is acknowledged. */
  lemma TimeWaitAcknowledges(c: Conn, s: Segment, r: Reply)
    requires c.state == TimeWait && c.len == 0 && !s.ctl.rst
    ensures Input(c, s, r) == Output(c, SendAck, None)
  {
  }
}
