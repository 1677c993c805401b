/**
 * The ARP clock under the main loop: `net_init` sets `arp_flush` on a ten-second timer, and every
 * later pass of `timer_periodic`, among any other timers, advances it.
 */
module MainLoop {
  import opened Machine
  import opened Addresses
  import ArpAgeing
  import opened ArpTable
  import opened Clock
  import opened ClockRuns
  import opened Timers
  import opened TimerRuns

  const ARP_FLUSH_INTERVAL: u32 := 10

  datatype System = System(timers: seq<Timer>, now: byte, table: seq<Entry>)

  /**
   * A pass reads the clock for timer `i` at the true time `times[i]`, and callback `i`, if called,
   * answers `answers[i]`. Between passes other timers are set and cleared, and addresses are learned.
   */
  datatype Event =
    | Pass(times: seq<nat>, answers: seq<bool>)
    | SetOther(id: Callback, interval: u32, time: nat)
    | ClearOther(id: Callback)
    | Learn(ip: Ip, mac: Mac)

  predicate Allowed(sys: System, e: Event)
  {
    match e
    case Pass(times, answers) => |sys.timers| <= |times| && |sys.timers| <= |answers|
    case SetOther(id, _, _) => id != ArpFlush
    case ClearOther(id) => id != ArpFlush
    case Learn(_, _) => true
  }

  /** `arp_flush` always answers true. */
  function Answers(timers: seq<Timer>, answers: seq<bool>): (r: seq<bool>)
    requires |timers| <= |answers|
    ensures |r| == |timers|
  {
    seq(|timers|, i requires 0 <= i < |timers| => timers[i].callback == ArpFlush || answers[i])
  }

  /** `arp_flush` run so many times. */
  function FlushedTimes(sys: System, n: nat): (r: System)
    ensures r.timers == sys.timers && |r.table| == |sys.table|
  {
    if n == 0 then sys
    else
      var r := FlushedTimes(sys, n - 1);
      r.(now := Ticked(r.now), table := Flushed(AsWritten, r.table, r.now))
  }

  function Step(sys: System, e: Event): (r: System)
    requires Allowed(sys, e) && 0 < |sys.table|
    ensures |r.table| == |sys.table|
  {
    match e
    case Pass(times, answers) =>
      var clocks, given, n := Clocks(times), Answers(sys.timers, answers), |sys.timers|;
      FlushedTimes(sys, Count(Fired(sys.timers, clocks, given, n), ArpFlush))
        .(timers := Kept(sys.timers, clocks, given, n))
    case SetOther(id, interval, time) => sys.(timers := WithTimer(sys.timers, id, interval, ClockAt(time)))
    case ClearOther(id) => sys.(timers := Cleared(sys.timers, id))
    case Learn(ip, mac) => sys.(table := Updated(AsWritten, sys.table, sys.now, ip, mac))
  }

  /** Every event of a run is allowed where it occurs. */
  ghost predicate Runnable(sys: System, events: seq<Event>)
    requires 0 < |sys.table|
    decreases |events|, 0
  {
    events != [] ==>
      var last := |events| - 1;
      Runnable(sys, events[..last]) && Allowed(Run(sys, events[..last]), events[last])
  }

  ghost function Run(sys: System, events: seq<Event>): (r: System)
    requires 0 < |sys.table| && Runnable(sys, events)
    ensures |r.table| == |sys.table|
    decreases |events|, 1
  {
    if events == [] then sys else Step(Run(sys, events[..|events| - 1]), events[|events| - 1])
  }

  /** The true times at which passes judged the timer of callback `c`. */
  ghost function Reads(sys: System, events: seq<Event>, c: Callback): (r: seq<nat>)
    requires 0 < |sys.table| && Runnable(sys, events)
    decreases |events|
  {
    if events == [] then []
    else
      var last := |events| - 1;
      var before, mid := Reads(sys, events[..last], c), Run(sys, events[..last]);
      var i := IndexOf(mid.timers, c);
      if events[last].Pass? && i < |mid.timers| then before + [events[last].times[i]] else before
  }

  /** How often one event calls callback `c`. */
  function FiringsOf(sys: System, e: Event, c: Callback): (n: nat)
    requires Allowed(sys, e)
  {
    match e
    case Pass(times, answers) =>
      Count(Fired(sys.timers, Clocks(times), Answers(sys.timers, answers), |sys.timers|), c)
    case _ => 0
  }

  /** How often a run calls it. */
  ghost function Firings(sys: System, events: seq<Event>, c: Callback): (n: nat)
    requires 0 < |sys.table| && Runnable(sys, events)
    decreases |events|
  {
    if events == [] then 0
    else
      var last := |events| - 1;
      Firings(sys, events[..last], c) + FiringsOf(Run(sys, events[..last]), events[last], c)
  }

  /** The event neither sets nor clears the timer of `c`, and if `c` is called it answers true. */
  predicate Spares(sys: System, e: Event, c: Callback)
    requires Allowed(sys, e)
  {
    match e
    case Pass(times, answers) =>
      IndexOf(sys.timers, c) < |sys.timers| ==> Answers(sys.timers, answers)[IndexOf(sys.timers, c)]
    case SetOther(id, _, _) => id != c
    case ClearOther(id) => id != c
    case Learn(_, _) => true
  }

  ghost predicate Spared(sys: System, events: seq<Event>, c: Callback)
    requires 0 < |sys.table| && Runnable(sys, events)
    decreases |events|
  {
    events != [] ==>
      var last := |events| - 1;
      Spared(sys, events[..last], c) && Spares(Run(sys, events[..last]), events[last], c)
  }

  /** A run of events that ends in `last`, with the ARP timer judged at the times `seen`. */
  ghost predicate Reaches(sys: System, events: seq<Event>, last: System, seen: seq<nat>)
  {
    0 < |sys.table| && Runnable(sys, events) && Run(sys, events) == last && Reads(sys, events, ArpFlush) == seen
  }

  lemma ReachesNext(sys: System, events: seq<Event>, last: System, seen: seq<nat>, e: Event)
    requires Reaches(sys, events, last, seen) && Allowed(last, e)
    ensures 0 < |last.table|
    ensures var i := IndexOf(last.timers, ArpFlush);
            Reaches(sys, events + [e], Step(last, e),
                    if e.Pass? && i < |last.timers| then seen + [e.times[i]] else seen)
  {
    assert (events + [e])[..|events|] == events;
  }

  /** The clock value after so many ticks. */
  function TickedTimes(now: byte, n: nat): (r: byte)
  {
    if n == 0 then now else Ticked(TickedTimes(now, n - 1))
  }

  lemma {:induction false} TickedIsModulo(now: byte, n: nat)
    ensures TickedTimes(now, n) == (now + n) % 0x100
  {
    if n > 0 {
      TickedIsModulo(now, n - 1);
      var q := (now + n - 1) / 0x100;
      assert now + n - 1 == 0x100 * q + TickedTimes(now, n - 1);
    }
  }

  /** One event moves a spared timer as its own run does. */
  lemma StepOfTimer(sys: System, e: Event, t: Timer)
    requires Allowed(sys, e) && 0 < |sys.table| && Distinct(sys.timers)
    requires Find(sys.timers, t.callback) == Some(t) && Spares(sys, e, t.callback)
    ensures Distinct(Step(sys, e).timers)
    ensures var i := IndexOf(sys.timers, t.callback);
            var fires := e.Pass? && Timers.Expired(t, ClockAt(e.times[i]));
            && Find(Step(sys, e).timers, t.callback) == Some(if fires then Advanced(t) else t)
            && FiringsOf(sys, e, t.callback) == if fires then 1 else 0
  {
    match e {
      case Pass(times, answers) =>
        var clocks, given, n := Clocks(times), Answers(sys.timers, answers), |sys.timers|;
        PassKeepsDistinct(sys.timers, clocks, given, n);
        PassTreatsEachTimer(sys.timers, clocks, given, n, t.callback);
        PassFiresExpired(sys.timers, clocks, given, n, t.callback);
      case SetOther(id, interval, time) =>
        WithTimerFinds(sys.timers, id, interval, ClockAt(time), t.callback);
      case ClearOther(id) =>
        ClearedFinds(sys.timers, id, t.callback);
      case Learn(ip, mac) =>
    }
  }

  lemma AfterAppended(c: Callback, s: nat, d: u32, times: seq<nat>, time: nat)
    ensures var p := After(c, s, d, times);
            After(c, s, d, times + [time])
            == if Timers.Expired(Timer(p.start, d, c), ClockAt(time))
               then Progress(ToU32(p.start + d), p.count + 1) else p
  {
    assert (times + [time])[..|times|] == times;
  }

  /** The timer of `c`, called `fired` times so far, is where its own run over `seen`, begun at `s`, puts it. */
  ghost predicate TimerFollows(sys: System, fired: nat, c: Callback, s: nat, d: u32, seen: seq<nat>)
  {
    var p := After(c, s, d, seen);
    Distinct(sys.timers) && Find(sys.timers, c) == Some(Timer(p.start, d, c)) && fired == p.count
  }

  lemma StepFollows(sys: System, e: Event, fired: nat, c: Callback, s: nat, d: u32, seen: seq<nat>)
    requires Allowed(sys, e) && 0 < |sys.table| && Spares(sys, e, c) && TimerFollows(sys, fired, c, s, d, seen)
    ensures IndexOf(sys.timers, c) < |sys.timers|
    ensures TimerFollows(Step(sys, e), fired + FiringsOf(sys, e, c), c, s, d,
                         if e.Pass? then seen + [e.times[IndexOf(sys.timers, c)]] else seen)
  {
    StepOfTimer(sys, e, Timer(After(c, s, d, seen).start, d, c));
    if e.Pass? {
      AfterAppended(c, s, d, seen, e.times[IndexOf(sys.timers, c)]);
    }
  }

  /** The timer of any callback follows its own run, and its callback is called as often, whatever others do. */
  lemma {:induction false} RunFollowsTimer(sys: System, events: seq<Event>, c: Callback, s: nat, d: u32)
    requires 0 < |sys.table| && Runnable(sys, events) && Distinct(sys.timers) && Spared(sys, events, c)
    requires Find(sys.timers, c) == Some(Timer(ClockAt(s), d, c))
    ensures TimerFollows(Run(sys, events), Firings(sys, events, c), c, s, d, Reads(sys, events, c))
    decreases |events|
  {
    if events != [] {
      var last := |events| - 1;
      RunFollowsTimer(sys, events[..last], c, s, d);
      StepFollows(Run(sys, events[..last]), events[last], Firings(sys, events[..last], c), c, s, d,
                  Reads(sys, events[..last], c));
    }
  }

  /**
   * With its timer judged at most one interval apart, a callback has been called, after a pass at true time
   * T, exactly floor((T - s) / d) times, and its current period began that many intervals after `s`.
   */
  lemma TimerKeepsTime(sys: System, events: seq<Event>, c: Callback, s: nat, d: u32)
    requires 0 < |sys.table| && Runnable(sys, events) && Distinct(sys.timers) && Spared(sys, events, c)
    requires Find(sys.timers, c) == Some(Timer(ClockAt(s), d, c)) && 0 < d <= 0x8000_0000
    requires GapsWithin(s, d, Reads(sys, events, c))
    ensures OnTime(Run(sys, events), Firings(sys, events, c), c, s, d, LastTime(s, Reads(sys, events, c)))
  {
    RunFollowsTimer(sys, events, c, s, d);
    FollowingTimer(Run(sys, events), Firings(sys, events, c), c, s, d, Reads(sys, events, c));
  }

  /** floor((t - s) / d) */
  function WholeIntervals(s: nat, t: nat, d: nat): (n: nat)
    requires d > 0
  {
    if t >= s then (t - s) / d else 0
  }

  /** At true time `t`, `c` has been called floor((t - s) / d) times, and its timer is in the period that follows. */
  ghost predicate OnTime(sys: System, fired: nat, c: Callback, s: nat, d: u32, t: nat)
    requires d > 0
  {
    && t >= s && fired == WholeIntervals(s, t, d)
    && Find(sys.timers, c) == Some(Timer(ClockAt(Due(s, d, fired)), d, c))
  }

  lemma FollowingTimer(sys: System, fired: nat, c: Callback, s: nat, d: u32, seen: seq<nat>)
    requires TimerFollows(sys, fired, c, s, d, seen) && GapsWithin(s, d, seen) && 0 < d <= 0x8000_0000
    ensures OnTime(sys, fired, c, s, d, LastTime(s, seen))
  {
    FiringsAreWholeIntervals(c, s, d, seen);
  }

  // ---------- the ARP timer and clock ----------

  lemma {:induction false} ArpIsSpared(sys: System, events: seq<Event>)
    requires 0 < |sys.table| && Runnable(sys, events)
    ensures Spared(sys, events, ArpFlush)
    decreases |events|
  {
    if events != [] {
      ArpIsSpared(sys, events[..|events| - 1]);
    }
  }

  /** The ARP timer and clock of a state are where a run over `seen`, begun at `s`, puts them. */
  ghost predicate Follows(sys: System, start: byte, s: nat, seen: seq<nat>)
  {
    var p := After(ArpFlush, s, ARP_FLUSH_INTERVAL, seen);
    && Distinct(sys.timers)
    && Find(sys.timers, ArpFlush) == Some(Timer(p.start, ARP_FLUSH_INTERVAL, ArpFlush))
    && sys.now == TickedTimes(start, p.count)
  }

  lemma StepOfArpClock(sys: System, e: Event, t: Timer)
    requires Allowed(sys, e) && 0 < |sys.table| && Distinct(sys.timers) && Find(sys.timers, ArpFlush) == Some(t)
    ensures var fires := e.Pass? && Timers.Expired(t, ClockAt(e.times[IndexOf(sys.timers, ArpFlush)]));
            Step(sys, e).now == if fires then Ticked(sys.now) else sys.now
  {
    if e.Pass? {
      PassFiresExpired(sys.timers, Clocks(e.times), Answers(sys.timers, e.answers), |sys.timers|, ArpFlush);
      assert FlushedTimes(sys, 1).now == Ticked(FlushedTimes(sys, 0).now);
    }
  }

  lemma StepFollowsArp(sys: System, e: Event, start: byte, s: nat, seen: seq<nat>)
    requires Allowed(sys, e) && 0 < |sys.table| && Follows(sys, start, s, seen)
    ensures IndexOf(sys.timers, ArpFlush) < |sys.timers|
    ensures Follows(Step(sys, e), start, s, if e.Pass? then seen + [e.times[IndexOf(sys.timers, ArpFlush)]] else seen)
  {
    var t := Timer(After(ArpFlush, s, ARP_FLUSH_INTERVAL, seen).start, ARP_FLUSH_INTERVAL, ArpFlush);
    StepOfTimer(sys, e, t);
    StepOfArpClock(sys, e, t);
    if e.Pass? {
      AfterAppended(ArpFlush, s, ARP_FLUSH_INTERVAL, seen, e.times[IndexOf(sys.timers, ArpFlush)]);
    }
  }

  /** The table's ARP timer and the ARP clock follow the timer's own run, whatever else happens. */
  lemma {:induction false} RunFollowsArpTimer(sys: System, events: seq<Event>, s: nat)
    requires 0 < |sys.table| && Runnable(sys, events) && Distinct(sys.timers)
    requires Find(sys.timers, ArpFlush) == Some(Timer(ClockAt(s), ARP_FLUSH_INTERVAL, ArpFlush))
    ensures Follows(Run(sys, events), sys.now, s, Reads(sys, events, ArpFlush))
    decreases |events|
  {
    if events != [] {
      var last := |events| - 1;
      RunFollowsArpTimer(sys, events[..last], s);
      StepFollowsArp(Run(sys, events[..last]), events[last], sys.now, s, Reads(sys, events[..last], ArpFlush));
    }
  }

  /** From `start` at time `s` the ARP clock has advanced by floor((t - s) / 10), modulo 256. */
  predicate ShowsTens(now: byte, start: byte, s: nat, t: nat)
  {
    t >= s && now == (start + (t - s) / 10) % 0x100
  }

  /** It has done so by the last time seen. */
  predicate ClockKeepsTime(sys: System, start: byte, s: nat, seen: seq<nat>)
  {
    ShowsTens(sys.now, start, s, LastTime(s, seen))
  }

  lemma FollowingClock(sys: System, start: byte, s: nat, seen: seq<nat>)
    requires Follows(sys, start, s, seen) && GapsWithin(s, ARP_FLUSH_INTERVAL, seen)
    ensures ClockKeepsTime(sys, start, s, seen)
  {
    FiringsAreWholeIntervals(ArpFlush, s, ARP_FLUSH_INTERVAL, seen);
    TickedIsModulo(start, After(ArpFlush, s, ARP_FLUSH_INTERVAL, seen).count);
  }

  ghost predicate ArpTimerSet(sys: System, s: nat)
  {
    Distinct(sys.timers) && Find(sys.timers, ArpFlush) == Some(Timer(ClockAt(s), ARP_FLUSH_INTERVAL, ArpFlush))
  }

  /** `net_init` at true time `s`, on whatever timers were already set. */
  lemma NetInitSetsArpTimer(sys: System, s: nat)
    requires Distinct(sys.timers)
    ensures ArpTimerSet(sys.(timers := WithTimer(sys.timers, ArpFlush, ARP_FLUSH_INTERVAL, ClockAt(s))), s)
  {
    WithTimerFinds(sys.timers, ArpFlush, ARP_FLUSH_INTERVAL, ClockAt(s), ArpFlush);
  }

  /**
   * When the passes judge the ARP timer at most ten seconds apart, the ARP clock after a pass at true
   * time T has advanced by exactly floor((T - s) / 10), modulo 256: across wraps of both clocks, and
   * whatever other timers do.
   */
  lemma ArpClockKeepsTime(sys: System, s: nat, events: seq<Event>)
    requires ArpTimerSet(sys, s) && 0 < |sys.table| && Runnable(sys, events)
    requires GapsWithin(s, ARP_FLUSH_INTERVAL, Reads(sys, events, ArpFlush))
    ensures ClockKeepsTime(Run(sys, events), sys.now, s, Reads(sys, events, ArpFlush))
  {
    RunFollowsArpTimer(sys, events, s);
    FollowingClock(Run(sys, events), sys.now, s, Reads(sys, events, ArpFlush));
  }

  /**
   * The same from the interrupt: passes judge the ARP timer at least every 10000 ticks, in any
   * interleaving, and the ARP clock counts the tens of seconds since `net_init`.
   */
  lemma ArpClockCountsInterrupts(sys: System, ticks: nat, events: seq<Event>, interrupts: seq<ClockEvent>)
    requires ArpTimerSet(sys, Second(ticks)) && 0 < |sys.table| && Runnable(sys, events)
    requires Reads(sys, events, ArpFlush) == ReadTimes(ticks, interrupts)
    requires Frequent(interrupts, TICKS_PER_SECOND * ARP_FLUSH_INTERVAL)
    requires interrupts != [] && interrupts[|interrupts| - 1].Read?
    ensures ShowsTens(Run(sys, events).now, sys.now, Second(ticks), Second(ticks + TicksIn(interrupts)))
  {
    var seen := Reads(sys, events, ArpFlush);
    ReadsAreFrequent(ticks, ARP_FLUSH_INTERVAL, interrupts);
    LastReadTime(ticks, interrupts);
    assert LastTime(Second(ticks), seen) == Second(ticks + TicksIn(interrupts));
    ArpClockKeepsTime(sys, Second(ticks), events);
    KeptUntil(Run(sys, events), sys.now, Second(ticks), seen, Second(ticks + TicksIn(interrupts)));
  }

  lemma KeptUntil(sys: System, start: byte, s: nat, seen: seq<nat>, t: nat)
    requires ClockKeepsTime(sys, start, s, seen) && LastTime(s, seen) == t
    ensures ShowsTens(sys.now, start, s, t)
  {
  }

  // ---------- how long an entry lives, in seconds ----------

  /** What one event of the main loop is to the ARP table. */
  function ArpEventsOf(sys: System, e: Event): (r: seq<ArpAgeing.Event>)
    requires Allowed(sys, e)
  {
    match e
    case Pass(times, answers) =>
      ArpAgeing.Ticks(Count(Fired(sys.timers, Clocks(times), Answers(sys.timers, answers), |sys.timers|), ArpFlush))
    case Learn(ip, mac) => [ArpAgeing.Learn(ip, mac)]
    case _ => []
  }

  ghost function ArpEvents(sys: System, events: seq<Event>): (r: seq<ArpAgeing.Event>)
    requires 0 < |sys.table| && Runnable(sys, events)
    decreases |events|
  {
    if events == [] then []
    else
      var last := |events| - 1;
      ArpEvents(sys, events[..last]) + ArpEventsOf(Run(sys, events[..last]), events[last])
  }

  /** A main-loop state and an aged ARP state hold the same table and clock. */
  ghost predicate Holds(sys: System, a: ArpAgeing.Aged)
  {
    ArpAgeing.WellShaped(a) && a.table == sys.table && a.now == sys.now
  }

  lemma {:induction false} RepeatedFlushes(sys: System, a: ArpAgeing.Aged, n: nat)
    requires Holds(sys, a)
    ensures Holds(FlushedTimes(sys, n), ArpAgeing.Run(AsWritten, a, ArpAgeing.Ticks(n)))
  {
    if n > 0 {
      RepeatedFlushes(sys, a, n - 1);
      ArpAgeing.RunThen(AsWritten, a, ArpAgeing.Ticks(n - 1), ArpAgeing.Flush);
    }
  }

  lemma StepHolds(sys: System, e: Event, a: ArpAgeing.Aged)
    requires Allowed(sys, e) && 0 < |sys.table| && Holds(sys, a)
    ensures Holds(Step(sys, e), ArpAgeing.Run(AsWritten, a, ArpEventsOf(sys, e)))
  {
    match e {
      case Pass(times, answers) =>
        var fired := Fired(sys.timers, Clocks(times), Answers(sys.timers, answers), |sys.timers|);
        RepeatedFlushes(sys, a, Count(fired, ArpFlush));
      case Learn(ip, mac) =>
        ArpAgeing.RunOne(AsWritten, a, ArpAgeing.Learn(ip, mac));
      case _ =>
    }
  }

  lemma {:induction false} RunHolds(sys: System, events: seq<Event>, a: ArpAgeing.Aged)
    requires 0 < |sys.table| && Runnable(sys, events) && Holds(sys, a)
    ensures Holds(Run(sys, events), ArpAgeing.Run(AsWritten, a, ArpEvents(sys, events)))
    decreases |events|
  {
    if events != [] {
      var last := |events| - 1;
      RunHolds(sys, events[..last], a);
      var mid := Run(sys, events[..last]);
      StepHolds(mid, events[last], ArpAgeing.Run(AsWritten, a, ArpEvents(sys, events[..last])));
      ArpAgeing.RunConcat(AsWritten, a, ArpEvents(sys, events[..last]), ArpEventsOf(mid, events[last]));
    }
  }

  /** Firings of the ARP timer are flushes of the ARP table. */
  lemma {:induction false} FlushesAreFirings(sys: System, events: seq<Event>)
    requires 0 < |sys.table| && Runnable(sys, events)
    ensures ArpAgeing.Flushes(ArpEvents(sys, events)) == Firings(sys, events, ArpFlush)
    decreases |events|
  {
    if events != [] {
      var last := |events| - 1;
      var mid := Run(sys, events[..last]);
      FlushesAreFirings(sys, events[..last]);
      ArpAgeing.FlushesConcat(ArpEvents(sys, events[..last]), ArpEventsOf(mid, events[last]));
      FlushesOfEvent(mid, events[last]);
    }
  }

  lemma FlushesOfEvent(sys: System, e: Event)
    requires Allowed(sys, e)
    ensures ArpAgeing.Flushes(ArpEventsOf(sys, e)) == FiringsOf(sys, e, ArpFlush)
  {
    ArpAgeing.FlushesOfTicks(FiringsOf(sys, e, ArpFlush));
  }

  /**
   * An entry present when the current ARP period began at true time `s`, freshly stamped, and neither
   * refreshed nor evicted since, is still live after a pass at true time T exactly while
   * T - s is below 1200 seconds, in whole periods of ten; stamped above 135 it never expires.
   */
  lemma EntryLivesTwentyMinutes(sys: System, s: nat, events: seq<Event>, a: ArpAgeing.Aged, i: nat)
    requires ArpTimerSet(sys, s) && 0 < |sys.table| && Runnable(sys, events)
    requires GapsWithin(s, ARP_FLUSH_INTERVAL, Reads(sys, events, ArpFlush))
    requires Holds(sys, a) && ArpAgeing.Invariant(AsWritten, a)
    requires i < |a.table| && Live(a.table[i]) && a.born[i] == a.tick
    requires ArpAgeing.Untouched(AsWritten, a, ArpEvents(sys, events), i)
    ensures var t := LastTime(s, Reads(sys, events, ArpFlush));
            t >= s && |Run(sys, events).table| == |a.table|
            && (Live(Run(sys, events).table[i])
                <==> t - s < 1200 || a.table[i].time > 135)
  {
    RunHolds(sys, events, a);
    FlushesAreFirings(sys, events);
    ArpIsSpared(sys, events);
    TimerKeepsTime(sys, events, ArpFlush, s, ARP_FLUSH_INTERVAL);
    ArpAgeing.EntryLifetime(AsWritten, a, ArpEvents(sys, events), i);
  }
}
