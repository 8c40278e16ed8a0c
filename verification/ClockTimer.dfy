/** The timer library on a 16-bit signed clock that wraps (uip/timer.c:64-124, main.c:90-138). */
module ClockTimer {
  /** clock_time_t: a 16-bit int on the target. */
  type i16 = x: int | -0x8000 <= x < 0x8000

  /** What a 16-bit int holds of an unbounded value. */
  function Wrap16(n: int): i16 { (n + 0x8000) % 0x1_0000 - 0x8000 }

  /** timer_expired's test. */
  predicate IsExpired(start: i16, interval: i16, now: i16) { Wrap16(now - start) >= interval }

  class Timer {
    var start: i16
    var interval: i16

    /** timer_set */
    method Set(newInterval: i16, now: i16)
      modifies this
      ensures interval == newInterval && start == now
    {
      interval := newInterval;
      start := now;
    }

    /** timer_reset */
    method Reset()
      modifies this
      ensures interval == old(interval) && start == Wrap16(old(start) + interval)
    {
      start := Wrap16(start + interval);
    }

    /** timer_restart */
    method Restart(now: i16)
      modifies this
      ensures interval == old(interval) && start == now
    {
      start := now;
    }

    /** timer_expired */
    method Expired(now: i16) returns (expired: bool)
      ensures expired <==> IsExpired(start, interval, now)
    {
      expired := Wrap16(now - start) >= interval;
    }

    /** One pass of the main loop: reset the timer if it has expired. */
    method Poll(now: i16) returns (fired: bool)
      modifies this
      ensures fired <==> IsExpired(old(start), old(interval), now)
      ensures interval == old(interval) && start == PollStart(old(start), interval, now)
    {
      fired := Expired(now);
      if fired {
        Reset();
      }
    }
  }

  function PollStart(start: i16, interval: i16, now: i16): i16
  {
    if IsExpired(start, interval, now) then Wrap16(start + interval) else start
  }

  lemma WrapDifference(a: int, b: int)
    ensures Wrap16(Wrap16(a) - Wrap16(b)) == Wrap16(a - b)
    ensures Wrap16(Wrap16(a) + b) == Wrap16(a + b)
  {
    var p := (a + 0x8000) / 0x1_0000;
    var q := (b + 0x8000) / 0x1_0000;
    assert Wrap16(a) == a - p * 0x1_0000 && Wrap16(b) == b - q * 0x1_0000;
    WrapShift(a - b, q - p);
    WrapShift(a + b, -p);
  }

  lemma WrapShift(n: int, k: int)
    ensures Wrap16(n + k * 0x1_0000) == Wrap16(n)
  {
  }

  /** The value of the start field after the polls, made at the true times `polls`. */
  function StartAfter(t0: nat, interval: i16, polls: seq<nat>): i16
  {
    if polls == [] then Wrap16(t0)
    else
      var before := polls[..|polls| - 1];
      PollStart(StartAfter(t0, interval, before), interval, Wrap16(polls[|polls| - 1]))
  }

  /** How often the timer fired in these polls. */
  function Fired(t0: nat, interval: i16, polls: seq<nat>): nat
  {
    if polls == [] then 0
    else
      var before := polls[..|polls| - 1];
      var expired := IsExpired(StartAfter(t0, interval, before), interval, Wrap16(polls[|polls| - 1]));
      Fired(t0, interval, before) + (if expired then 1 else 0)
  }

  function LastTime(t0: nat, polls: seq<nat>): nat
  {
    if polls == [] then t0 else polls[|polls| - 1]
  }

  /** Polls in order of time, at most `gap` ticks apart. */
  predicate Regular(t0: nat, polls: seq<nat>, gap: nat)
  {
    polls == [] ||
    (var before := polls[..|polls| - 1];
     LastTime(t0, before) <= LastTime(t0, polls) <= LastTime(t0, before) + gap && Regular(t0, before, gap))
  }

  /**
   * After any number of polls the start field is the true time T0 + k * interval, where k is
   * the number of whole intervals that have passed, and the timer has fired exactly k times.
   */
  lemma {:induction false} NoDrift(t0: nat, interval: i16, polls: seq<nat>, gap: nat)
    requires 0 < interval && gap <= interval && interval + gap <= 0x7fff && Regular(t0, polls, gap)
    ensures var k := Fired(t0, interval, polls);
            && StartAfter(t0, interval, polls) == Wrap16(t0 + k * interval)
            && k * interval <= LastTime(t0, polls) - t0 < (k + 1) * interval
  {
    if polls != [] {
      var before := polls[..|polls| - 1];
      NoDrift(t0, interval, before, gap);
      OnePoll(t0, interval, Fired(t0, interval, before), LastTime(t0, before), LastTime(t0, polls), gap);
    }
  }

  /** A poll at time `now` after `k` firings, the last poll having been made at time `last`. */
  lemma OnePoll(t0: nat, interval: i16, k: nat, last: nat, now: nat, gap: nat)
    requires 0 < interval && gap <= interval && interval + gap <= 0x7fff && last <= now <= last + gap
    requires k * interval <= last - t0 < (k + 1) * interval
    ensures var start := Wrap16(t0 + k * interval);
            var k1 := if IsExpired(start, interval, Wrap16(now)) then k + 1 else k;
            && PollStart(start, interval, Wrap16(now)) == Wrap16(t0 + k1 * interval)
            && k1 * interval <= now - t0 < (k1 + 1) * interval
  {
    Distribute(k, interval);
    var kt := k * interval;
    ExpiredIsTrueTime(t0 + kt, interval, now);
    WrapDifference(t0 + kt, interval);
  }

  lemma Distribute(k: nat, interval: int)
    ensures (k + 1) * interval == k * interval + interval
    ensures (k + 2) * interval == k * interval + interval + interval
  {
  }

  /** Within one turn of the clock the test is right exactly while less than half a turn has passed. */
  lemma ExpiredIsTrueTime(start: nat, interval: i16, now: nat)
    requires interval > 0 && start <= now < start + 0x1_0000
    ensures IsExpired(Wrap16(start), interval, Wrap16(now)) <==> interval <= now - start < 0x8000
  {
    WrapDifference(now, start);
  }
}
