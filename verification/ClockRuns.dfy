/** Timers under the interrupt: any interleaving of clock ticks and passes, and the firings it leads to. */
module ClockRuns {
  import opened Clock
  import opened Machine
  import opened TimerRuns
  import opened Timers

  /** The second in which the interrupt count stands. */
  function Second(ticks: nat): (s: nat)
  {
    ticks / TICKS_PER_SECOND
  }

  /** Interrupts since the last read. */
  function SinceRead(events: seq<ClockEvent>): (n: nat)
    ensures n <= TicksIn(events)
  {
    if events == [] || events[|events| - 1].Read? then 0 else SinceRead(events[..|events| - 1]) + 1
  }

  /** The program reads the clock again before more than `limit` interrupts have gone by. */
  ghost predicate Frequent(events: seq<ClockEvent>, limit: nat)
  {
    forall i :: 0 <= i <= |events| ==> SinceRead(events[..i]) <= limit
  }

  lemma FrequentPrefix(events: seq<ClockEvent>, limit: nat)
    requires events != [] && Frequent(events, limit)
    ensures Frequent(events[..|events| - 1], limit) && SinceRead(events[..|events| - 1]) <= limit
  {
    var n := |events| - 1;
    forall i | 0 <= i <= n ensures SinceRead(events[..n][..i]) <= limit {
      assert events[..n][..i] == events[..i];
    }
  }

  lemma SecondIsMonotone(x: nat, y: nat)
    requires x <= y
    ensures Second(x) <= Second(y)
  {
  }

  /** The last read happened `SinceRead` interrupts ago, or none has happened yet. */
  lemma {:induction false} LastReadTime(ticks: nat, events: seq<ClockEvent>)
    ensures LastTime(Second(ticks), ReadTimes(ticks, events)) == Second(ticks + TicksIn(events) - SinceRead(events))
  {
    if events != [] {
      LastReadTime(ticks, events[..|events| - 1]);
    }
  }

  lemma GapsAppend(s: nat, d: nat, times: seq<nat>, time: nat)
    requires GapsWithin(s, d, times) && LastTime(s, times) <= time <= LastTime(s, times) + d
    ensures GapsWithin(s, d, times + [time])
  {
    var all := times + [time];
    forall i | 0 <= i < |all| ensures LastTime(s, all[..i]) <= all[i] <= LastTime(s, all[..i]) + d {
      assert all[..i] == times[..i];
      assert i == |times| ==> times[..i] == times;
    }
  }

  lemma AscendingAppend(s: nat, times: seq<nat>, time: nat)
    requires Ascending(s, times) && LastTime(s, times) <= time
    ensures Ascending(s, times + [time])
  {
    var all := times + [time];
    forall i | 0 <= i < |all| ensures LastTime(s, all[..i]) <= all[i] {
      assert all[..i] == times[..i];
      assert i == |times| ==> times[..i] == times;
    }
  }

  /** The clock never runs backwards between reads. */
  lemma {:induction false} ReadsAscend(ticks: nat, events: seq<ClockEvent>)
    ensures Ascending(Second(ticks), ReadTimes(ticks, events))
  {
    if events != [] {
      var before := events[..|events| - 1];
      ReadsAscend(ticks, before);
      LastReadTime(ticks, before);
      if events[|events| - 1].Read? {
        SecondIsMonotone(ticks + TicksIn(before) - SinceRead(before), ticks + TicksIn(before));
        AscendingAppend(Second(ticks), ReadTimes(ticks, before), Second(ticks + TicksIn(before)));
      }
    }
  }

  lemma SecondsBetween(x: nat, y: nat, d: nat)
    requires x <= y <= x + TICKS_PER_SECOND * d
    ensures Second(x) <= Second(y) <= Second(x) + d
  {
    assert (x + TICKS_PER_SECOND * d) / TICKS_PER_SECOND == x / TICKS_PER_SECOND + d;
  }

  /** Reads at most 1000 d interrupts apart are at most d seconds apart. */
  lemma {:induction false} ReadsAreFrequent(ticks: nat, d: nat, events: seq<ClockEvent>)
    requires Frequent(events, TICKS_PER_SECOND * d)
    ensures GapsWithin(Second(ticks), d, ReadTimes(ticks, events))
    decreases |events|
  {
    if events != [] {
      var before := events[..|events| - 1];
      FrequentPrefix(events, TICKS_PER_SECOND * d);
      ReadsAreFrequent(ticks, d, before);
      LastReadTime(ticks, before);
      if events[|events| - 1].Read? {
        SecondsBetween(ticks + TicksIn(before) - SinceRead(before), ticks + TicksIn(before), d);
        GapsAppend(Second(ticks), d, ReadTimes(ticks, before), Second(ticks + TicksIn(before)));
      }
    }
  }

  /**
   * A timer set after `ticks` interrupts and judged at least every 1000 d of them has fired, after the
   * pass that ends the run, once for each whole interval of the seconds that went by.
   */
  lemma FiringsCountInterrupts(c: Callback, ticks: nat, d: u32, events: seq<ClockEvent>)
    requires 0 < d <= 0x8000_0000 && Frequent(events, TICKS_PER_SECOND * d)
    requires events != [] && events[|events| - 1].Read?
    ensures Second(ticks + TicksIn(events)) >= Second(ticks)
    ensures After(c, Second(ticks), d, ReadTimes(ticks, events)).count
         == (Second(ticks + TicksIn(events)) - Second(ticks)) / d
  {
    ReadsAreFrequent(ticks, d, events);
    LastReadTime(ticks, events);
    FiringsAreWholeIntervals(c, Second(ticks), d, ReadTimes(ticks, events));
  }

  lemma {:induction false} ReadsWithin(ticks: nat, events: seq<ClockEvent>, end: nat)
    requires ticks + TicksIn(events) <= end
    ensures forall i :: 0 <= i < |ReadTimes(ticks, events)| ==> ReadTimes(ticks, events)[i] <= Second(end)
    decreases |events|
  {
    if events != [] {
      var before := events[..|events| - 1];
      ReadsWithin(ticks, before, end);
      SecondIsMonotone(ticks + TicksIn(before), end);
    }
  }

  lemma DueIsLater(s: nat, d: nat, count: nat)
    ensures Due(s, d, count) >= s
  {
  }

  lemma ShortRunsLagLittle(c: Callback, s: nat, d: u32, times: seq<nat>, end: nat)
    requires forall i :: 0 <= i < |times| ==> times[i] <= end
    requires end < s + CLOCK_RANGE
    ensures LagBounded(c, s, d, times)
  {
    forall i | 0 <= i < |times| ensures times[i] < Due(s, d, After(c, s, d, times[..i]).count) + CLOCK_RANGE {
      DueIsLater(s, d, After(c, s, d, times[..i]).count);
    }
  }

  lemma ReadsLagLittle(c: Callback, ticks: nat, d: u32, events: seq<ClockEvent>)
    requires TicksIn(events) <= TICKS_PER_SECOND * 0xFFFF_FFFF
    ensures LagBounded(c, Second(ticks), d, ReadTimes(ticks, events))
  {
    ReadsWithin(ticks, events, ticks + TicksIn(events));
    SecondsBetween(ticks, ticks + TicksIn(events), 0xFFFF_FFFF);
    ShortRunsLagLittle(c, Second(ticks), d, ReadTimes(ticks, events), Second(ticks + TicksIn(events)));
  }

  /** The timer stands at the nominal start of its period, which true time has reached. */
  ghost predicate OnSchedule(s: nat, d: nat, p: Progress, time: nat)
  {
    p.start == ClockAt(Due(s, d, p.count)) && Due(s, d, p.count) <= time
  }

  lemma EndsWithRead(ticks: nat, events: seq<ClockEvent>)
    requires events != [] && events[|events| - 1].Read?
    ensures var times := ReadTimes(ticks, events);
            && times != [] && times[|times| - 1] == Second(ticks + TicksIn(events))
            && times[..|times| - 1] == ReadTimes(ticks, events[..|events| - 1])
  {
  }

  /**
   * However seldom the timer is judged, for 2^32 - 1 seconds from its start it neither drifts nor fires
   * early, and each pass that finds it due fires it once.
   */
  lemma NoDriftUnderInterrupts(c: Callback, ticks: nat, d: u32, events: seq<ClockEvent>)
    requires TicksIn(events) <= TICKS_PER_SECOND * 0xFFFF_FFFF
    requires events != [] && events[|events| - 1].Read?
    ensures var s, end := Second(ticks), Second(ticks + TicksIn(events));
            var p := After(c, s, d, ReadTimes(ticks, events));
            var before := After(c, s, d, ReadTimes(ticks, events[..|events| - 1]));
            && OnSchedule(s, d, p, end)
            && p.count == if end >= Due(s, d, before.count + 1) then before.count + 1 else before.count
  {
    ReadsAscend(ticks, events);
    ReadsLagLittle(c, ticks, d, events);
    EndsWithRead(ticks, events);
    StartNeverDrifts(c, Second(ticks), d, ReadTimes(ticks, events));
    FiresExactlyWhenDue(c, Second(ticks), d, ReadTimes(ticks, events));
  }
}
