/** Bounds and convergence of the 8-bit round-trip estimator (uip/uip.c:1436-1449). */
module RttEstimator {
  import opened Words
  import opened Tcp

  /** The measurement the code makes: what has run off the timer since it was set to rto. */
  function Measured(e: Rtt, timer: byte): int { SignedChar(e.rto - timer) }

  function Abs(x: int): nat { if x < 0 then -x else x }

  /** The same estimator on unbounded integers. */
  datatype Exact = Exact(sa: int, sv: int)

  function Ideal(x: Exact, m: int): Exact
  {
    var d := m - x.sa / 8;
    Exact(x.sa + d, x.sv + Abs(d) - x.sv / 4)
  }

  /** Eight-bit state that measurements up to `r` cannot leave. */
  predicate Bounded(e: Rtt, r: nat) { e.sa <= 8 * r + 7 && e.sv <= 4 * r + 3 }

  /** Every measurement of the run lies in lo..hi. */
  predicate AllMeasured(e: Rtt, timers: seq<byte>, lo: nat, hi: nat)
    decreases |timers|
  {
    timers == [] ||
    (lo <= Measured(e, timers[0]) <= hi && AllMeasured(Estimate(e, timers[0]), timers[1..], lo, hi))
  }

  function Run(e: Rtt, timers: seq<byte>): Rtt
    decreases |timers|
  {
    if timers == [] then e else Run(Estimate(e, timers[0]), timers[1..])
  }

  function IdealRun(e: Rtt, timers: seq<byte>, x: Exact): Exact
    decreases |timers|
  {
    if timers == [] then x
    else IdealRun(Estimate(e, timers[0]), timers[1..], Ideal(x, Measured(e, timers[0])))
  }

  /** No addition of one estimation wraps, and the bounds are kept. */
  lemma EstimateIsExact(e: Rtt, timer: byte, r: nat)
    requires r <= 31 && Bounded(e, r) && 0 <= Measured(e, timer) <= r
    ensures var f := Estimate(e, timer);
            && Exact(f.sa, f.sv) == Ideal(Exact(e.sa, e.sv), Measured(e, timer))
            && f.rto == f.sa / 8 + f.sv
            && Bounded(f, r) && f.rto <= 5 * r + 3
  {
    var d := Measured(e, timer) - e.sa / 8;
    assert -31 <= d <= 31;
    assert Deviation(e, timer) == d;
    assert e.sa + d <= 8 * r + 7;
  }

  /** Over every run with measurements in 0..r the 8-bit estimator is the unbounded one. */
  lemma {:induction false} NeverWraps(e: Rtt, timers: seq<byte>, r: nat)
    requires r <= 31 && Bounded(e, r) && AllMeasured(e, timers, 0, r)
    ensures var f := Run(e, timers);
            && Exact(f.sa, f.sv) == IdealRun(e, timers, Exact(e.sa, e.sv))
            && Bounded(f, r) && (timers != [] ==> f.rto <= 5 * r + 3)
    decreases |timers|
  {
    if timers != [] {
      EstimateIsExact(e, timers[0], r);
      NeverWraps(Estimate(e, timers[0]), timers[1..], r);
      if timers[1..] == [] {
        assert Run(e, timers) == Estimate(e, timers[0]);
      }
    }
  }

  /** Both opens start within the bounds. */
  lemma OpensAreBounded(c: Conn, s: Segment, iss: u32, r: nat)
    ensures r >= 1 ==> var p := PassiveOpen(c, s, iss).conn; Bounded(Rtt(p.sa, p.sv, p.rto), r)
    ensures r >= 4 ==> var a := ActiveOpen(c, iss); Bounded(Rtt(a.sa, a.sv, a.rto), r)
  {
  }

  /** The smoothed time moves towards a constant measurement and never past it. */
  lemma NoOvershoot(e: Rtt, timer: byte, m: nat, r: nat)
    requires m <= r <= 31 && Bounded(e, r) && Measured(e, timer) == m
    ensures e.sa / 8 <= m ==> e.sa / 8 <= Estimate(e, timer).sa / 8 <= m
    ensures e.sa / 8 >= m ==> m <= Estimate(e, timer).sa / 8 <= e.sa / 8
    ensures e.sa / 8 != m ==> SaDistance(Estimate(e, timer), m) < SaDistance(e, m)
  {
    EstimateIsExact(e, timer, r);
  }

  /** How far `sa` is from the values whose eighth is m. */
  function SaDistance(e: Rtt, m: nat): nat
  {
    if e.sa < 8 * m then 8 * m - e.sa else if e.sa > 8 * m + 7 then e.sa - (8 * m + 7) else 0
  }

  /** Measurements of m that are enough for the estimator to settle. */
  function Needed(e: Rtt, m: nat, r: nat): nat
  {
    if SaDistance(e, m) > 0 then SaDistance(e, m) + 4 * r else if e.sv > 3 then e.sv - 3 else 0
  }

  lemma NeededShrinks(e: Rtt, timer: byte, m: nat, r: nat)
    requires m <= r <= 31 && Bounded(e, r) && Measured(e, timer) == m
    ensures Needed(e, m, r) > 0 ==> Needed(Estimate(e, timer), m, r) < Needed(e, m, r)
    ensures Needed(e, m, r) == 0 ==> Needed(Estimate(e, timer), m, r) == 0
  {
    EstimateIsExact(e, timer, r);
    if SaDistance(e, m) > 0 {
      NoOvershoot(e, timer, m, r);
    }
  }

  /** Under a constant measurement m the smoothed time becomes m and rto settles in m..m+3. */
  lemma {:induction false} Converges(e: Rtt, timers: seq<byte>, m: nat, r: nat)
    requires m <= r <= 31 && Bounded(e, r) && AllMeasured(e, timers, m, m)
    requires |timers| >= Needed(e, m, r) && |timers| > 0
    ensures var f := Run(e, timers); f.sa / 8 == m && f.sv <= 3 && m <= f.rto <= m + 3
    decreases |timers|
  {
    var f := Estimate(e, timers[0]);
    EstimateIsExact(e, timers[0], r);
    NeededShrinks(e, timers[0], m, r);
    if |timers| == 1 {
      assert timers[1..] == [];
      assert Run(f, timers[1..]) == f;
    } else {
      Converges(f, timers[1..], m, r);
    }
  }

  /** 12r + 7 measurements always suffice. */
  lemma NeededBound(e: Rtt, m: nat, r: nat)
    requires m <= r && Bounded(e, r)
    ensures Needed(e, m, r) <= 12 * r + 7
  {
  }

  // ---- The bound of 31 is sharp ----

  /** What is left of the timer when the acknowledgement comes after 32 ticks, or at the last one. */
  function After32(e: Rtt): byte { if e.rto < 32 then 0 else e.rto - 32 }

  /** The smoothed time is still below 32 and the next measurement lies above it. */
  predicate Climbing(e: Rtt)
  {
    1 <= e.sv <= 131 && e.sa / 8 < e.rto <= e.sa / 8 + e.sv
  }

  lemma ClimbsOn(e: Rtt)
    requires Climbing(e)
    ensures 0 <= Measured(e, After32(e)) <= 32 && After32(e) <= e.rto
    ensures e.sa < 255 ==> Climbing(Estimate(e, After32(e))) && e.sa < Estimate(e, After32(e)).sa
    ensures e.sa == 255 ==> Estimate(e, After32(e)).sa == 0
    ensures Ideal(Exact(e.sa, e.sv), Measured(e, After32(e))).sa ==
            if e.sa == 255 then 256 else Estimate(e, After32(e)).sa
    ensures Ideal(Exact(e.sa, e.sv), Measured(e, After32(e))).sv == Estimate(e, After32(e)).sv
  {
    var m := if e.rto < 32 then e.rto else 32;
    assert Measured(e, After32(e)) == m;
    var d := m - e.sa / 8;
    assert 1 <= d <= 32 && Deviation(e, After32(e)) == d;
  }

  /** A run of measurements of at most 32 at whose end the 8-bit value is 0 where it should be 256. */
  lemma {:induction false} ClimbWraps(e: Rtt) returns (timers: seq<byte>)
    requires Climbing(e)
    ensures timers != [] && AllMeasured(e, timers, 0, 32)
    ensures Run(e, timers).sa == 0 && IdealRun(e, timers, Exact(e.sa, e.sv)).sa == 256
    decreases 255 - e.sa
  {
    ClimbsOn(e);
    var f := Estimate(e, After32(e));
    if e.sa == 255 {
      timers := [After32(e)];
      assert timers[1..] == [];
    } else {
      var rest := ClimbWraps(f);
      timers := [After32(e)] + rest;
      assert timers[1..] == rest;
    }
  }

  /** Both opens can be followed by such a run. */
  lemma ThirtyTwoWraps(c: Conn, s: Segment, iss: u32) returns (passive: seq<byte>, active: seq<byte>)
    ensures var p := PassiveOpen(c, s, iss).conn;
            var e := Rtt(p.sa, p.sv, p.rto);
            && AllMeasured(e, passive, 0, 32)
            && Run(e, passive).sa == 0 && IdealRun(e, passive, Exact(e.sa, e.sv)).sa == 256
    ensures var a := ActiveOpen(c, iss);
            var e := Rtt(a.sa, a.sv, a.rto);
            && AllMeasured(e, active, 0, 32)
            && Run(e, active).sa == 0 && IdealRun(e, active, Exact(e.sa, e.sv)).sa == 256
  {
    var p, a := PassiveOpen(c, s, iss).conn, ActiveOpen(c, iss);
    passive := ClimbWraps(Rtt(p.sa, p.sv, p.rto));
    active := ClimbWraps(Rtt(a.sa, a.sv, a.rto));
  }
}
