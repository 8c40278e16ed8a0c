/**
 * Retransmission (uip/uip.c:735-800): what is outstanding is sent again at every expiry of the timer,
 * and when, until the connection gives up.
 */
module TcpRepeats {
  import opened Words
  import opened Tcp
  import opened TcpRuns
  import TcpSafety

  /** Something is outstanding. */
  predicate Outstanding(c: Conn)
  {
    Inv(c) && c.len > 0 && c.state != Closed
  }

  /** The application, when it is asked to, hands over something. */
  predicate Repeats(c: Conn, r: Reply) { c.state == Established ==> r.action == Carry && r.slen > 0 }

  /** What is sent again in each state. */
  function Repetition(c: Conn): Jump
  {
    match c.state
    case SynSent => SendSyn(SYN)
    case SynRcvd => SendSyn(SYN_ACK)
    case Established => SendNoopts(PSH_ACK, c.len)
    case _ => SendNodata(FIN_ACK)
  }

  /** At the expiry of the timer the whole of what is outstanding is sent again, and nothing else changes. */
  lemma TickRepeats(c: Conn, r: Reply, input: Segment)
    requires Outstanding(c) && c.timer == 0 && !GivesUp(c) && Repeats(c, r)
    ensures var o := Tick(c, r);
            && o.jump == Repetition(c) && o.conn == c.(timer := Backoff(c.nrtx), nrtx := c.nrtx + 1)
            && Emitted(o, r.window, input).Some?
    ensures var s := Emitted(Tick(c, r), r.window, input).value;
            && s.seqno == c.sndNxt && TcpSafety.Units(s) == c.len && s.ackno == c.rcvNxt && !s.ctl.rst
            && (s.data == if c.state == Established then r.window[..c.len] else [])
            && s.ctl.syn == Opening(c.state) && s.ctl.ack == (c.state != SynSent)
            && (s.ctl.fin <==> c.state.FinWait1? || c.state.Closing? || c.state.LastAck?)
  {
  }

  /** At the last expiry the application is told, and the peer is sent a reset. */
  lemma TickGivesUp(c: Conn, r: Reply, input: Segment)
    requires Outstanding(c) && c.timer == 0 && GivesUp(c)
    ensures var o := Tick(c, r);
            && o.conn.state == Closed && o.jump == SendNodata(RST_ACK) && o.call == Some(Call({TimedOut}, []))
            && Emitted(o, r.window, input).Some? && Emitted(o, r.window, input).value.ctl.rst
  {
  }

  lemma TickWaits(c: Conn, r: Reply)
    requires Outstanding(c) && c.timer > 0
    ensures Tick(c, r) == Output(c.(timer := c.timer - 1), Drop, None)
  {
  }

  // ---- Silent runs ----

  /** A transmission at a tick, counted from some moment. */
  datatype Transmission = Transmission(at: nat, jump: Jump)

  /** Everything the connection sends while nothing is received. */
  function Transmissions(c: Conn, rs: seq<Reply>, from: nat): seq<Transmission>
    decreases |rs|
  {
    if rs == [] then []
    else
      var o := Tick(c, rs[0]);
      (if o.jump == Drop then [] else [Transmission(from + 1, o.jump)]) + Transmissions(o.conn, rs[1..], from + 1)
  }

  /** A repetition at each expiry, with the timer at `t` now, and a reset at the last. */
  function Schedule(t: nat, nrtx: nat, limit: nat, from: nat, j: Jump): seq<Transmission>
    requires nrtx <= limit <= UIP_MAXRTX
    decreases limit - nrtx
  {
    if nrtx == limit then [Transmission(from + t + 1, SendNodata(RST_ACK))]
    else [Transmission(from + t + 1, j)] + Schedule(Backoff(nrtx), nrtx + 1, limit, from + t + 1, j)
  }

  predicate AllRepeat(c: Conn, rs: seq<Reply>) { forall r :: r in rs ==> Repeats(c, r) }

  lemma {:induction false} ClosedIsSilent(c: Conn, rs: seq<Reply>, from: nat)
    requires c.state == Closed
    ensures Transmissions(c, rs, from) == []
    decreases |rs|
  {
    if rs != [] {
      ClosedIsSilent(c, rs[1..], from + 1);
    }
  }

  /**
   * Over a silent run that is long enough, what is outstanding is sent again exactly as often as
   * is allowed, exactly at the times the backoff sets, and then the connection is reset.
   */
  lemma {:induction false} SentOnSchedule(c: Conn, rs: seq<Reply>, from: nat)
    requires Outstanding(c) && AllRepeat(c, rs) && |rs| >= TicksLeft(c)
    ensures Transmissions(c, rs, from) == Schedule(c.timer, c.nrtx, RetryLimit(c.state), from, Repetition(c))
    decreases |rs|
  {
    var r, rest := rs[0], rs[1..];
    var o := Tick(c, r);
    assert r in rs;
    if c.timer == 0 && GivesUp(c) {
      TickGivesUp(c, r, TcpSafety.NoSegment);
      ClosedIsSilent(o.conn, rest, from + 1);
    } else {
      Onward(c, r);
      StillRepeat(c, o.conn, rs);
      SentOnSchedule(o.conn, rest, from + 1);
      if c.timer > 0 {
        assert [] + Transmissions(o.conn, rest, from + 1) == Transmissions(o.conn, rest, from + 1);
        ScheduleWaits(c.timer, c.nrtx, RetryLimit(c.state), from, Repetition(c));
      }
    }
  }

  /** A tick at which the connection does not give up. */
  lemma Onward(c: Conn, r: Reply)
    requires Outstanding(c) && Repeats(c, r) && !(c.timer == 0 && GivesUp(c))
    ensures var o := Tick(c, r);
            && Outstanding(o.conn) && o.conn.state == c.state && Repetition(o.conn) == Repetition(c)
            && TicksLeft(o.conn) == TicksLeft(c) - 1
            && o.jump == (if c.timer > 0 then Drop else Repetition(c))
            && o.conn.timer == (if c.timer > 0 then c.timer - 1 else Backoff(c.nrtx))
            && o.conn.nrtx == (if c.timer > 0 then c.nrtx else c.nrtx + 1)
  {
    TickCountsDown(c, r);
    if c.timer > 0 {
      TickWaits(c, r);
    } else {
      TickRepeats(c, r, TcpSafety.NoSegment);
    }
  }

  lemma ScheduleWaits(t: nat, nrtx: nat, limit: nat, from: nat, j: Jump)
    requires 0 < t && nrtx <= limit <= UIP_MAXRTX
    ensures Schedule(t, nrtx, limit, from, j) == Schedule(t - 1, nrtx, limit, from + 1, j)
  {
  }

  lemma StillRepeat(c: Conn, d: Conn, rs: seq<Reply>)
    requires AllRepeat(c, rs) && rs != [] && d.state == c.state
    ensures AllRepeat(d, rs[1..])
  {
    forall r | r in rs[1..] ensures Repeats(d, r) {
      assert r in rs;
    }
  }

  /** The schedule is as long as the retries left, and ends when the connection does. */
  lemma {:induction false} ScheduleEnds(t: nat, nrtx: nat, limit: nat, from: nat, j: Jump)
    requires nrtx <= limit <= UIP_MAXRTX
    ensures var s := Schedule(t, nrtx, limit, from, j);
            && |s| == limit - nrtx + 1
            && s[limit - nrtx] == Transmission(from + t + BackoffTicks(nrtx, limit), SendNodata(RST_ACK))
            && forall i :: 0 <= i < limit - nrtx ==> s[i].jump == j
    decreases limit - nrtx
  {
    if nrtx < limit {
      ScheduleEnds(Backoff(nrtx), nrtx + 1, limit, from + t + 1, j);
    }
  }

  /** The times in numbers, for data or a FIN sent with the timer at `t`. */
  lemma ScheduleOfData(t: nat, j: Jump)
    ensures Schedule(t, 0, UIP_MAXRTX, 0, j) ==
            [Transmission(t + 1, j), Transmission(t + 5, j), Transmission(t + 12, j), Transmission(t + 25, j),
             Transmission(t + 50, j), Transmission(t + 99, j), Transmission(t + 148, j), Transmission(t + 197, j),
             Transmission(t + 246, SendNodata(RST_ACK))]
  {
    LastThree(t, j);
    assert Schedule(24, 4, 8, t + 25, j) == [Transmission(t + 50, j)] + Schedule(48, 5, 8, t + 50, j);
    assert Schedule(12, 3, 8, t + 12, j) == [Transmission(t + 25, j)] + Schedule(24, 4, 8, t + 25, j);
    assert Schedule(6, 2, 8, t + 5, j) == [Transmission(t + 12, j)] + Schedule(12, 3, 8, t + 12, j);
    assert Schedule(3, 1, 8, t + 1, j) == [Transmission(t + 5, j)] + Schedule(6, 2, 8, t + 5, j);
  }

  lemma LastThree(t: nat, j: Jump)
    ensures Schedule(48, 5, 8, t + 50, j) ==
            [Transmission(t + 99, j), Transmission(t + 148, j), Transmission(t + 197, j),
             Transmission(t + 246, SendNodata(RST_ACK))]
  {
    assert Schedule(48, 8, 8, t + 197, j) == [Transmission(t + 246, SendNodata(RST_ACK))];
    assert Schedule(48, 7, 8, t + 148, j) == [Transmission(t + 197, j)] + Schedule(48, 8, 8, t + 197, j);
    assert Schedule(48, 6, 8, t + 99, j) == [Transmission(t + 148, j)] + Schedule(48, 7, 8, t + 148, j);
  }
}
