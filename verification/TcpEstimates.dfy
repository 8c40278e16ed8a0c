/**
 * The round-trip estimator in the runs of a connection (uip/uip.c:735-740, 1422-1457): which
 * exchanges are measured, what a measurement counts, and what comes of it.
 */
module TcpEstimates {
  import opened Words
  import opened Tcp
  import opened TcpRuns
  import R = RttEstimator

  function RttOf(c: Conn): Rtt { Rtt(c.sa, c.sv, c.rto) }

  /** The exchange is measured: everything outstanding is acknowledged, and none of it was sent twice. */
  predicate Sampled(c: Conn, e: Event) { TakesAck(c, e) && c.nrtx == 0 }

  /** The estimate changes at such an event and at no other; the timer starts again at every acknowledgement. */
  lemma StepSamples(c: Conn, e: Event)
    requires !Opens(e)
    ensures RttOf(Step(c, e).conn) == if Sampled(c, e) then Estimate(RttOf(c), c.timer) else RttOf(c)
    ensures TakesAck(c, e) && Step(c, e).conn.state == Established ==> Step(c, e).conn.timer == Step(c, e).conn.rto
  {
    match e {
      case TimerEvent(r) => QuietTick(c, r);
      case PollEvent(r) =>
      case SegmentEvent(s, r) =>
        if c.state != Closed && !s.ctl.rst && !OutOfSequence(c, s) {
          AckSamples(c, s);
          DispatchKeeps(TakeAck(c, s), AckFlag(c, s), s, r);
        }
    }
  }

  lemma QuietTick(c: Conn, r: Reply)
    ensures RttOf(Tick(c, r).conn) == RttOf(c)
  {
  }

  lemma AckSamples(c: Conn, s: Segment)
    ensures var d := TakeAck(c, s);
            && RttOf(d) == (if Acks(c, s) && c.nrtx == 0 then Estimate(RttOf(c), c.timer) else RttOf(c))
            && (Acks(c, s) ==> d.timer == d.rto)
  {
  }

  lemma DispatchKeeps(c: Conn, flags: set<Flag>, s: Segment, r: Reply)
    requires c.state != Closed
    ensures var d := Dispatch(c, flags, s, r).conn; RttOf(d) == RttOf(c) && (d.state == Established ==> d.timer == c.timer)
  {
  }

  /** With measurements that the 8-bit arithmetic can hold, it is the estimator on unbounded numbers. */
  lemma StepIsExact(c: Conn, e: Event, r: nat)
    requires !Opens(e) && r <= 31 && R.Bounded(RttOf(c), r)
    requires Sampled(c, e) ==> 0 <= R.Measured(RttOf(c), c.timer) <= r
    ensures var d := Step(c, e).conn;
            && R.Exact(d.sa, d.sv) == (if Sampled(c, e) then R.Ideal(R.Exact(c.sa, c.sv), R.Measured(RttOf(c), c.timer))
                                       else R.Exact(c.sa, c.sv))
            && d.rto == (if Sampled(c, e) then d.sa / 8 + d.sv else c.rto)
            && R.Bounded(RttOf(d), r)
  {
    StepSamples(c, e);
    if Sampled(c, e) {
      R.EstimateIsExact(RttOf(c), c.timer, r);
    }
  }

  /** What the timer showed at each exchange that was measured. */
  function Samples(c: Conn, es: seq<Event>): seq<byte>
    decreases |es|
  {
    if es == [] then []
    else (if Sampled(c, es[0]) then [c.timer] else []) + Samples(Step(c, es[0]).conn, es[1..])
  }

  /** Over every run the connection's estimate is the estimator's, fed with those samples. */
  lemma {:induction false} RunSamples(c: Conn, es: seq<Event>)
    requires NoOpens(es)
    ensures RttOf(Run(c, es)) == R.Run(RttOf(c), Samples(c, es))
    decreases |es|
  {
    if es != [] {
      assert es[0] in es;
      var d := Step(c, es[0]).conn;
      StepSamples(c, es[0]);
      RunSamples(d, es[1..]);
      if Sampled(c, es[0]) {
        RunCons(RttOf(c), c.timer, Samples(d, es[1..]));
      } else {
        assert [] + Samples(d, es[1..]) == Samples(d, es[1..]);
      }
    }
  }

  lemma RunCons(e: Rtt, timer: byte, timers: seq<byte>)
    ensures R.Run(e, [timer] + timers) == R.Run(Estimate(e, timer), timers)
  {
    assert ([timer] + timers)[1..] == timers;
  }

  /** No 8-bit operation of the run wraps when every measurement lies in 0..r. */
  lemma RunNeverWraps(c: Conn, es: seq<Event>, r: nat)
    requires NoOpens(es) && r <= 31 && R.Bounded(RttOf(c), r) && R.AllMeasured(RttOf(c), Samples(c, es), 0, r)
    ensures var d := Run(c, es);
            && R.Exact(d.sa, d.sv) == R.IdealRun(RttOf(c), Samples(c, es), R.Exact(c.sa, c.sv))
            && R.Bounded(RttOf(d), r) && (Samples(c, es) != [] ==> d.rto <= 5 * r + 3)
  {
    RunSamples(c, es);
    R.NeverWraps(RttOf(c), Samples(c, es), r);
  }

  /** Enough measurements of m settle the connection's estimate at m and its timeout in m..m+3. */
  lemma RunConverges(c: Conn, es: seq<Event>, m: nat, r: nat)
    requires NoOpens(es) && m <= r <= 31 && R.Bounded(RttOf(c), r) && R.AllMeasured(RttOf(c), Samples(c, es), m, m)
    requires |Samples(c, es)| >= R.Needed(RttOf(c), m, r) && |Samples(c, es)| > 0
    ensures var d := Run(c, es); d.sa / 8 == m && d.sv <= 3 && m <= d.rto <= m + 3
  {
    RunSamples(c, es);
    R.Converges(RttOf(c), Samples(c, es), m, r);
  }

  // ---- What a measurement counts ----

  function TickCount(es: seq<Event>): nat
  {
    if es == [] then 0 else (if es[0].TimerEvent? then 1 else 0) + TickCount(es[1..])
  }

  /** While data is outstanding the timer runs with the ticks and with nothing else. */
  lemma TimerRuns(c: Conn, e: Event)
    requires c.state == Established && c.len > 0 && !Opens(e) && !TakesAck(c, e)
    requires Step(c, e).conn.state == Established && (e.TimerEvent? ==> c.timer > 0)
    ensures var d := Step(c, e).conn;
            && d.len > 0 && d.timer == (if e.TimerEvent? then c.timer - 1 else c.timer)
            && (c.nrtx == 0 ==> d.nrtx == 0) && RttOf(d) == RttOf(c)
  {
  }

  lemma {:induction false} LeftForGood(c: Conn, es: seq<Event>)
    requires c.state != Established && !Opening(c.state) && NoOpens(es)
    ensures Run(c, es).state != Established
    decreases |es|
  {
    if es != [] {
      assert es[0] in es;
      NotBack(c, es[0]);
      LeftForGood(Step(c, es[0]).conn, es[1..]);
    }
  }

  lemma NotBack(c: Conn, e: Event)
    requires c.state != Established && !Opening(c.state) && !Opens(e)
    ensures var s := Step(c, e).conn.state; s != Established && !Opening(s)
  {
  }

  /** Leaving ESTABLISHED does not lead back to an opening state. */
  lemma NotOpening(c: Conn, e: Event)
    requires c.state == Established && !Opens(e)
    ensures !Opening(Step(c, e).conn.state)
  {
  }

  lemma {:induction false} TimerCounts(c: Conn, es: seq<Event>)
    requires c.state == Established && c.len > 0 && NoOpens(es) && Unacked(c, es)
    requires Run(c, es).state == Established && TickCount(es) <= c.timer
    ensures var d := Run(c, es);
            && d.len > 0 && d.timer == c.timer - TickCount(es) && RttOf(d) == RttOf(c) && (c.nrtx == 0 ==> d.nrtx == 0)
    decreases |es|
  {
    if es != [] {
      assert es[0] in es;
      var d := Step(c, es[0]).conn;
      if d.state != Established {
        NotOpening(c, es[0]);
        LeftForGood(d, es[1..]);
      }
      TimerRuns(c, es[0]);
      TimerCounts(d, es[1..]);
    }
  }

  /**
   * Data goes out with the timer at rto.  If it is acknowledged after k ticks, and before the
   * timer expires, the acknowledgement is a measurement of k.
   */
  lemma MeasuresTicks(c: Conn, es: seq<Event>, ack: Event)
    requires c.state == Established && c.len > 0 && c.timer == c.rto && c.nrtx == 0
    requires NoOpens(es) && Unacked(c, es) && Run(c, es).state == Established && TickCount(es) <= c.rto && TickCount(es) < 128
    requires TakesAck(Run(c, es), ack)
    ensures Sampled(Run(c, es), ack)
    ensures R.Measured(RttOf(Run(c, es)), Run(c, es).timer) == TickCount(es)
  {
    TimerCounts(c, es);
  }
}
