/**
 * One periodic timer over a whole run, measured against true, unbounded time. A run is the sequence
 * of true times (in seconds) at which passes of `timer_periodic` read the clock for the timer.
 */
module TimerRuns {
  import opened Clock
  import opened Machine
  import opened Timers

  datatype Progress = Progress(start: u32, count: nat)

  /** The stored start of the timer of callback `c` and its firings so far, as the code computes them in 32 bits. */
  function After(c: Callback, s: nat, d: u32, times: seq<nat>): (r: Progress)
  {
    if times == [] then Progress(ClockAt(s), 0)
    else
      var last := |times| - 1;
      var p := After(c, s, d, times[..last]);
      var t := Timer(p.start, d, c);
      if Expired(t, ClockAt(times[last])) then Progress(Advanced(t).start, p.count + 1) else p
  }

  /** The nominal start of the period after `count` firings. */
  function Due(s: nat, d: nat, count: nat): (r: nat)
  {
    s + count * d
  }

  function LastTime(s: nat, times: seq<nat>): (r: nat)
  {
    if times == [] then s else times[|times| - 1]
  }

  ghost predicate Ascending(s: nat, times: seq<nat>)
  {
    forall i :: 0 <= i < |times| ==> LastTime(s, times[..i]) <= times[i]
  }

  /** At every read less than 2^32 seconds have passed since the nominal start of the current period. */
  ghost predicate LagBounded(c: Callback, s: nat, d: u32, times: seq<nat>)
  {
    forall i :: 0 <= i < |times| ==> times[i] < Due(s, d, After(c, s, d, times[..i]).count) + CLOCK_RANGE
  }

  lemma ElapsedIsTrue(from: nat, to: nat)
    requires from <= to < from + CLOCK_RANGE
    ensures Elapsed(ClockAt(to), ClockAt(from)) == to - from
  {
    var p, q := from / CLOCK_RANGE, to / CLOCK_RANGE;
    assert from == CLOCK_RANGE * p + ClockAt(from) && to == CLOCK_RANGE * q + ClockAt(to);
    assert q == p || q == p + 1;
  }

  lemma StartAdvances(from: nat, d: u32)
    ensures ToU32(ClockAt(from) + d) == ClockAt(from + d)
  {
    var p := from / CLOCK_RANGE;
    assert from == CLOCK_RANGE * p + ClockAt(from);
    if ClockAt(from) + d < CLOCK_RANGE {
      assert from + d == CLOCK_RANGE * p + (ClockAt(from) + d);
    } else {
      assert from + d == CLOCK_RANGE * (p + 1) + (ClockAt(from) + d - CLOCK_RANGE);
    }
  }

  lemma DueNext(s: nat, d: nat, count: nat)
    ensures Due(s, d, count + 1) == Due(s, d, count) + d
  {
  }

  /** One read, less than 2^32 seconds into the period: the 32-bit test is the true one. */
  lemma OneRead(c: Callback, s: nat, d: u32, p: Progress, time: nat)
    requires p.start == ClockAt(Due(s, d, p.count))
    requires Due(s, d, p.count) <= time < Due(s, d, p.count) + CLOCK_RANGE
    ensures Expired(Timer(p.start, d, c), ClockAt(time)) <==> time >= Due(s, d, p.count + 1)
    ensures ToU32(p.start + d) == ClockAt(Due(s, d, p.count + 1))
  {
    ElapsedIsTrue(Due(s, d, p.count), time);
    StartAdvances(Due(s, d, p.count), d);
    DueNext(s, d, p.count);
  }

  /** Whatever its callback, a timer has expired exactly if true time has reached its start plus its interval. */
  lemma JudgedOnTime(t: Timer, from: nat, time: nat)
    requires t.start == from % 0x1_0000_0000 && from <= time < from + 0x1_0000_0000
    ensures Expired(t, ClockAt(time)) <==> time >= from + t.interval
    ensures Advanced(t) == Timer((from + t.interval) % 0x1_0000_0000, t.interval, t.callback)
  {
    ElapsedIsTrue(from, time);
    StartAdvances(from, t.interval);
  }

  /** In true time: the timer stays until it is due, then moves on one interval or goes, as its callback answers. */
  function Fate(c: Callback, d: u32, from: nat, time: nat, answer: bool): (r: Option<Timer>)
  {
    if time < from + d then Some(Timer(ClockAt(from), d, c))
    else if answer then Some(Timer(ClockAt(from + d), d, c)) else None
  }

  /**
   * A pass calls a callback exactly if the true time it read for its timer has reached the true start plus
   * the interval, whichever callback it is, and once; the timer then stays, one interval on, exactly if
   * the callback answers true. The period began less than 2^32 seconds ago.
   */
  lemma PassFiresOnTime(ts: seq<Timer>, times: seq<nat>, answers: seq<bool>, c: Callback, from: nat)
    requires Distinct(ts) && |ts| <= |times| && |ts| <= |answers|
    requires IndexOf(ts, c) < |ts| && ts[IndexOf(ts, c)].start == ClockAt(from)
    requires from <= times[IndexOf(ts, c)] < from + CLOCK_RANGE
    ensures var i := IndexOf(ts, c);
            var due := from + ts[i].interval;
            && Count(Fired(ts, Clocks(times), answers, |ts|), c) == (if times[i] >= due then 1 else 0)
            && Find(Kept(ts, Clocks(times), answers, |ts|), c) == Fate(c, ts[i].interval, from, times[i], answers[i])
  {
    TimerOnTime(ts[IndexOf(ts, c)], from, times[IndexOf(ts, c)], answers[IndexOf(ts, c)]);
    PassByTimes(ts, times, answers, c);
  }

  lemma PassByTimes(ts: seq<Timer>, times: seq<nat>, answers: seq<bool>, c: Callback)
    requires Distinct(ts) && |ts| <= |times| && |ts| <= |answers| && IndexOf(ts, c) < |ts|
    ensures var i := IndexOf(ts, c);
            && Count(Fired(ts, Clocks(times), answers, |ts|), c)
               == (if Expired(ts[i], ClockAt(times[i])) then 1 else 0)
            && Find(Kept(ts, Clocks(times), answers, |ts|), c) == AfterPass(ts[i], ClockAt(times[i]), answers[i])
  {
    PassFiresExpired(ts, Clocks(times), answers, |ts|, c);
    PassTreatsEachTimer(ts, Clocks(times), answers, |ts|, c);
  }

  lemma TimerOnTime(t: Timer, from: nat, time: nat, answer: bool)
    requires t.start == ClockAt(from) && from <= time < from + CLOCK_RANGE
    ensures Expired(t, ClockAt(time)) <==> time >= from + t.interval
    ensures AfterPass(t, ClockAt(time), answer) == Fate(t.callback, t.interval, from, time, answer)
  {
    JudgedOnTime(t, from, time);
  }

  lemma PrefixOfPrefix<T>(s: seq<T>, i: nat, n: nat)
    requires i <= n <= |s|
    ensures s[..n][..i] == s[..i]
  {
  }

  lemma RunPrefix(c: Callback, s: nat, d: u32, times: seq<nat>)
    requires times != [] && Ascending(s, times) && LagBounded(c, s, d, times)
    ensures var before := times[..|times| - 1]; Ascending(s, before) && LagBounded(c, s, d, before)
  {
    var n := |times| - 1;
    forall i | 0 <= i < n
      ensures LastTime(s, times[..n][..i]) <= times[..n][i]
      ensures times[..n][i] < Due(s, d, After(c, s, d, times[..n][..i]).count) + CLOCK_RANGE
    {
      PrefixOfPrefix(times, i, n);
    }
  }

  /**
   * No drift and no early firing, across any number of clock wraps: the stored start is the nominal
   * start of the current period, which the last pass has reached.
   */
  lemma {:induction false} StartNeverDrifts(c: Callback, s: nat, d: u32, times: seq<nat>)
    requires Ascending(s, times) && LagBounded(c, s, d, times)
    ensures var p := After(c, s, d, times);
            p.start == ClockAt(Due(s, d, p.count)) && Due(s, d, p.count) <= LastTime(s, times)
    decreases |times|
  {
    if times != [] {
      var last := |times| - 1;
      var p := After(c, s, d, times[..last]);
      RunPrefix(c, s, d, times);
      StartNeverDrifts(c, s, d, times[..last]);
      OneRead(c, s, d, p, times[last]);
    }
  }

  /** A pass fires the timer for the (k+1)-th time exactly if the true time has reached s + (k+1)d. */
  lemma FiresExactlyWhenDue(c: Callback, s: nat, d: u32, times: seq<nat>)
    requires times != [] && Ascending(s, times) && LagBounded(c, s, d, times)
    ensures var before := After(c, s, d, times[..|times| - 1]).count;
            var reached := times[|times| - 1] >= Due(s, d, before + 1);
            After(c, s, d, times).count == if reached then before + 1 else before
  {
    var last := |times| - 1;
    var p := After(c, s, d, times[..last]);
    RunPrefix(c, s, d, times);
    StartNeverDrifts(c, s, d, times[..last]);
    OneRead(c, s, d, p, times[last]);
  }

  // ---------- passes at least as frequent as the timer ----------

  ghost predicate GapsWithin(s: nat, d: nat, times: seq<nat>)
  {
    forall i :: 0 <= i < |times| ==> LastTime(s, times[..i]) <= times[i] <= LastTime(s, times[..i]) + d
  }

  lemma GapsPrefix(s: nat, d: nat, times: seq<nat>)
    requires times != [] && GapsWithin(s, d, times)
    ensures GapsWithin(s, d, times[..|times| - 1])
  {
    var n := |times| - 1;
    forall i | 0 <= i < n
      ensures LastTime(s, times[..n][..i]) <= times[..n][i] <= LastTime(s, times[..n][..i]) + d
    {
      PrefixOfPrefix(times, i, n);
    }
  }

  /** The timer is in the period that contains the true time. */
  ghost predicate InStep(s: nat, d: nat, p: Progress, time: nat)
  {
    && p.start == ClockAt(Due(s, d, p.count))
    && Due(s, d, p.count) <= time < Due(s, d, p.count + 1)
  }

  lemma StepsTogether(c: Callback, s: nat, d: u32, p: Progress, time: nat, next: nat)
    requires 0 < d <= 0x8000_0000 && InStep(s, d, p, time) && time <= next <= time + d
    ensures var t := Timer(p.start, d, c);
            InStep(s, d, if Expired(t, ClockAt(next)) then Progress(Advanced(t).start, p.count + 1) else p, next)
  {
    DueNext(s, d, p.count);
    DueNext(s, d, p.count + 1);
    OneRead(c, s, d, p, next);
  }

  lemma {:induction false} KeepsUp(c: Callback, s: nat, d: u32, times: seq<nat>)
    requires 0 < d <= 0x8000_0000 && GapsWithin(s, d, times)
    ensures InStep(s, d, After(c, s, d, times), LastTime(s, times))
    decreases |times|
  {
    if times == [] {
      DueNext(s, d, 0);
    } else {
      var last := |times| - 1;
      GapsPrefix(s, d, times);
      KeepsUp(c, s, d, times[..last]);
      StepsTogether(c, s, d, After(c, s, d, times[..last]), LastTime(s, times[..last]), times[last]);
    }
  }

  lemma ScaleMonotone(a: nat, b: nat, d: nat)
    requires a <= b
    ensures a * d <= b * d
  {
  }

  lemma Quotient(x: nat, d: nat, k: nat)
    requires 0 < d && k * d <= x < (k + 1) * d
    ensures x / d == k
  {
    var q := x / d;
    assert q * d <= x < q * d + d == (q + 1) * d;
    if q < k {
      ScaleMonotone(q + 1, k, d);
    } else if q > k {
      ScaleMonotone(k + 1, q, d);
    }
  }

  /**
   * When consecutive reads are at most one interval apart, for a run of any length, the firings after
   * a read at time T number exactly the whole intervals since the timer was set.
   */
  lemma FiringsAreWholeIntervals(c: Callback, s: nat, d: u32, times: seq<nat>)
    requires 0 < d <= 0x8000_0000 && GapsWithin(s, d, times)
    ensures LastTime(s, times) >= s
    ensures After(c, s, d, times).count == (LastTime(s, times) - s) / d
    ensures After(c, s, d, times).start == ClockAt(Due(s, d, After(c, s, d, times).count))
  {
    KeepsUp(c, s, d, times);
    var p := After(c, s, d, times);
    assert p.count * d <= LastTime(s, times) - s < (p.count + 1) * d;
    Quotient(LastTime(s, times) - s, d, p.count);
  }
}
