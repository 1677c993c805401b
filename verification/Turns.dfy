/**
 * The loop of `main` as its timers and its ARP table see it: each turn teaches some addresses, then reads
 * the clock once for each of the two timers.
 */
module Turns {
  import opened Addresses
  import opened ArpTable
  import opened Clock
  import opened ClockRuns
  import opened Machine
  import opened MainLoop
  import opened TimerRuns
  import ArpAgeing
  import Timers

  /** One turn: what it teaches, the interrupts up to the first reading, and those up to the second. */
  datatype Beat = Beat(learned: seq<Event>, receiving: nat, between: nat)

  /** Interrupts so far, the state, and how often the status has been shown. */
  datatype Moment = Moment(ticks: nat, system: System, shown: nat)

  predicate AllLearn(learned: seq<Event>)
  {
    forall i :: 0 <= i < |learned| ==> learned[i].Learn?
  }

  function LearnedAll(sys: System, learned: seq<Event>): (r: System)
    requires 0 < |sys.table| && AllLearn(learned)
    ensures r.timers == sys.timers && r.now == sys.now && |r.table| == |sys.table|
  {
    if learned == [] then sys else Step(LearnedAll(sys, learned[..|learned| - 1]), learned[|learned| - 1])
  }

  /** The ARP timer in front of the status timer, as `main` leaves them. */
  predicate TwoTimers(sys: System)
  {
    && 0 < |sys.table| && |sys.timers| == 2
    && sys.timers[0].callback == Timers.ArpFlush && sys.timers[1].callback == Timers.DisplayStatus
  }

  /** The pass of a turn begun after `ticks` interrupts; both callbacks answer true. */
  function PassOf(ticks: nat, receiving: nat, between: nat): (e: Event)
  {
    Pass([Second(ticks + receiving), Second(ticks + receiving + between)], [true, true])
  }

  predicate IsBeat(m: Moment, b: Beat, r: Moment)
  {
    && TwoTimers(m.system) && AllLearn(b.learned)
    && r.ticks == m.ticks + b.receiving + b.between
    && var taught, e := LearnedAll(m.system, b.learned), PassOf(m.ticks, b.receiving, b.between);
       r.system == Step(taught, e) && r.shown == m.shown + FiringsOf(taught, e, Timers.DisplayStatus)
  }

  ghost predicate IsBeatRun(moments: seq<Moment>, beats: seq<Beat>)
  {
    && |moments| == |beats| + 1
    && forall i {:trigger IsBeat(moments[i], beats[i], moments[i + 1])} :: 0 <= i < |beats| ==>
         IsBeat(moments[i], beats[i], moments[i + 1])
  }

  /** As both callbacks answer true, both timers stay where they are. */
  lemma PassKeepsTimers(sys: System, ticks: nat, receiving: nat, between: nat)
    requires TwoTimers(sys)
    ensures TwoTimers(Step(sys, PassOf(ticks, receiving, between)))
  {
    var e := PassOf(ticks, receiving, between);
    AllStay(sys.timers, Clocks(e.times), Answers(sys.timers, e.answers), 2);
  }

  lemma {:induction false} AllStay(ts: seq<Timers.Timer>, clocks: seq<u32>, answers: seq<bool>, n: nat)
    requires n <= |ts| && |ts| <= |clocks| && |ts| <= |answers|
    requires forall i :: 0 <= i < n ==> answers[i]
    ensures |Timers.Kept(ts, clocks, answers, n)| == n
    ensures forall i :: 0 <= i < n ==> Timers.Kept(ts, clocks, answers, n)[i].callback == ts[i].callback
  {
    if n > 0 {
      AllStay(ts, clocks, answers, n - 1);
    }
  }

  // ---------- turns as runs of events ----------

  /** One of the two callbacks of the firmware. */
  predicate IsFirmware(c: Timers.Callback)
  {
    c == Timers.ArpFlush || c == Timers.DisplayStatus
  }

  /** The interrupt count at which a turn judges the timer of `c`: the ARP timer first, then the status timer. */
  function JudgeTick(c: Timers.Callback, m: Moment, b: Beat): (r: nat)
  {
    m.ticks + b.receiving + if c == Timers.ArpFlush then 0 else b.between
  }

  /** The true times at which the first turns judged the timer, one each. */
  ghost predicate JudgedAt(c: Timers.Callback, moments: seq<Moment>, beats: seq<Beat>, seen: seq<nat>)
    requires |seen| <= |beats| < |moments|
  {
    forall i :: 0 <= i < |seen| ==> seen[i] == Second(JudgeTick(c, moments[i], beats[i]))
  }

  lemma {:induction false} LearningReaches(sys: System, events: seq<Event>, last: System, seen: seq<nat>,
                                           learned: seq<Event>)
    requires Reaches(sys, events, last, seen) && 0 < |last.table| && AllLearn(learned)
    ensures Reaches(sys, events + learned, LearnedAll(last, learned), seen)
  {
    if learned == [] {
      assert events + learned == events;
    } else {
      var k := |learned| - 1;
      LearningReaches(sys, events, last, seen, learned[..k]);
      ReachesNext(sys, events + learned[..k], LearnedAll(last, learned[..k]), seen, learned[k]);
      assert events + learned[..k] + [learned[k]] == events + learned;
    }
  }

  lemma PassReaches(sys: System, events: seq<Event>, last: System, seen: seq<nat>,
                    ticks: nat, receiving: nat, between: nat)
    requires Reaches(sys, events, last, seen) && TwoTimers(last)
    ensures Reaches(sys, events + [PassOf(ticks, receiving, between)], Step(last, PassOf(ticks, receiving, between)),
                    seen + [Second(ticks + receiving)])
  {
    assert Timers.IndexOf(last.timers, Timers.ArpFlush) == 0;
    ReachesNext(sys, events, last, seen, PassOf(ticks, receiving, between));
  }

  lemma TaughtTimers(last: System, learned: seq<Event>)
    requires TwoTimers(last) && AllLearn(learned)
    ensures TwoTimers(LearnedAll(last, learned))
  {
  }

  lemma BeatReaches(sys: System, events: seq<Event>, seen: seq<nat>, m: Moment, b: Beat, r: Moment)
    requires Reaches(sys, events, m.system, seen) && IsBeat(m, b, r)
    ensures Reaches(sys, events + b.learned + [PassOf(m.ticks, b.receiving, b.between)], r.system,
                    seen + [Second(m.ticks + b.receiving)])
  {
    var taught := LearnedAll(m.system, b.learned);
    TaughtTimers(m.system, b.learned);
    LearningReaches(sys, events, m.system, seen, b.learned);
    PassReaches(sys, events + b.learned, taught, seen, m.ticks, b.receiving, b.between);
  }

  lemma StartsHere(sys: System)
    requires 0 < |sys.table|
    ensures Reaches(sys, [], sys, [])
  {
  }

  lemma {:induction false} TimersStay(moments: seq<Moment>, beats: seq<Beat>, n: nat)
    requires IsBeatRun(moments, beats) && n <= |beats| && TwoTimers(moments[0].system)
    ensures TwoTimers(moments[n].system)
  {
    if n > 0 {
      var i := n - 1;
      var m, b := moments[i], beats[i];
      TimersStay(moments, beats, i);
      assert IsBeat(m, b, moments[i + 1]);
      PassKeepsTimers(LearnedAll(m.system, b.learned), m.ticks, b.receiving, b.between);
    }
  }

  /** The loop is a run of module MainLoop, of the events returned. */
  lemma {:induction false} LoopReaches(moments: seq<Moment>, beats: seq<Beat>, n: nat)
    returns (events: seq<Event>, seen: seq<nat>)
    requires IsBeatRun(moments, beats) && n <= |beats| && TwoTimers(moments[0].system)
    ensures Reaches(moments[0].system, events, moments[n].system, seen)
    ensures |seen| == n && JudgedAt(Timers.ArpFlush, moments, beats, seen)
  {
    if n == 0 {
      StartsHere(moments[0].system);
      events, seen := [], [];
    } else {
      var i := n - 1;
      var m, b := moments[i], beats[i];
      var before, times := LoopReaches(moments, beats, i);
      assert IsBeat(m, b, moments[i + 1]);
      BeatReaches(moments[0].system, before, times, m, b, moments[i + 1]);
      events := before + b.learned + [PassOf(m.ticks, b.receiving, b.between)];
      seen := times + [Second(m.ticks + b.receiving)];
    }
  }

  // ---------- what the two timers do ----------

  /** The interrupt count when `c` was last judged in the first `n` turns, or when its timer was set. */
  function LastJudged(c: Timers.Callback, since: nat, moments: seq<Moment>, beats: seq<Beat>, n: nat): (r: nat)
    requires n <= |beats| < |moments|
  {
    if n == 0 then since else JudgeTick(c, moments[n - 1], beats[n - 1])
  }

  /** No more than `d` seconds of interrupts pass from one judging to the next. */
  ghost predicate Prompt(c: Timers.Callback, since: nat, d: nat, moments: seq<Moment>, beats: seq<Beat>)
    requires |beats| < |moments|
  {
    forall i :: 0 <= i < |beats| ==>
      JudgeTick(c, moments[i], beats[i]) <= LastJudged(c, since, moments, beats, i) + TICKS_PER_SECOND * d
  }

  lemma PromptTurn(c: Timers.Callback, since: nat, d: nat, moments: seq<Moment>, beats: seq<Beat>, i: nat)
    requires IsBeatRun(moments, beats) && i < |beats|
    requires Prompt(c, since, d, moments, beats) && since <= moments[0].ticks
    ensures var from := Second(LastJudged(c, since, moments, beats, i));
            from <= Second(JudgeTick(c, moments[i], beats[i])) <= from + d
  {
    if i > 0 {
      var j := i - 1;
      assert IsBeat(moments[j], beats[j], moments[j + 1]);
    }
    SecondsBetween(LastJudged(c, since, moments, beats, i), JudgeTick(c, moments[i], beats[i]), d);
  }

  lemma JudgedLast(c: Timers.Callback, since: nat, moments: seq<Moment>, beats: seq<Beat>, seen: seq<nat>, i: nat)
    requires i <= |seen| <= |beats| < |moments| && JudgedAt(c, moments, beats, seen)
    ensures LastTime(Second(since), seen[..i]) == Second(LastJudged(c, since, moments, beats, i))
  {
  }

  lemma PromptTurnsKeepUp(c: Timers.Callback, since: nat, d: nat, moments: seq<Moment>, beats: seq<Beat>,
                          seen: seq<nat>)
    requires IsBeatRun(moments, beats) && |seen| <= |beats| && JudgedAt(c, moments, beats, seen)
    requires Prompt(c, since, d, moments, beats) && since <= moments[0].ticks
    ensures GapsWithin(Second(since), d, seen)
    ensures LastTime(Second(since), seen) == Second(LastJudged(c, since, moments, beats, |seen|))
  {
    forall i | 0 <= i < |seen|
      ensures LastTime(Second(since), seen[..i]) <= seen[i] <= LastTime(Second(since), seen[..i]) + d
    {
      PromptTurn(c, since, d, moments, beats, i);
      JudgedLast(c, since, moments, beats, seen, i);
    }
    JudgedLast(c, since, moments, beats, seen, |seen|);
    assert seen[..|seen|] == seen;
  }

  /** The timer of `c`, with interval `d`, was set when so many interrupts had passed. */
  ghost predicate TimerSetAt(sys: System, c: Timers.Callback, d: u32, since: nat)
  {
    Timers.Distinct(sys.timers) && Timers.Find(sys.timers, c) == Some(Timers.Timer(ClockAt(Second(since)), d, c))
  }

  /**
   * When each turn judges the ARP timer within ten seconds of the turn before, the ARP clock counts the
   * tens of seconds since the timer was set, modulo 256, whatever the turns teach.
   */
  lemma LoopKeepsTime(moments: seq<Moment>, beats: seq<Beat>, n: nat)
    requires IsBeatRun(moments, beats) && n <= |beats| && TwoTimers(moments[0].system)
    requires Prompt(Timers.ArpFlush, moments[0].ticks, ARP_FLUSH_INTERVAL, moments, beats)
    requires ArpTimerSet(moments[0].system, Second(moments[0].ticks))
    ensures ShowsTens(moments[n].system.now, moments[0].system.now, Second(moments[0].ticks),
                      Second(LastJudged(Timers.ArpFlush, moments[0].ticks, moments, beats, n)))
  {
    var c, since := Timers.ArpFlush, moments[0].ticks;
    var events, seen := LoopReaches(moments, beats, n);
    PromptTurnsKeepUp(c, since, ARP_FLUSH_INTERVAL, moments, beats, seen);
    ArpClockKeepsTime(moments[0].system, Second(since), events);
    KeptUntil(moments[n].system, moments[0].system.now, Second(since), seen,
              Second(LastJudged(c, since, moments, beats, n)));
  }

  lemma PassShows(sys: System, ticks: nat, receiving: nat, between: nat, fired: nat, s: nat, d: u32, seen: seq<nat>)
    requires TwoTimers(sys) && TimerFollows(sys, fired, Timers.DisplayStatus, s, d, seen)
    ensures var e := PassOf(ticks, receiving, between);
            && Allowed(sys, e)
            && TimerFollows(Step(sys, e), fired + FiringsOf(sys, e, Timers.DisplayStatus), Timers.DisplayStatus, s, d,
                            seen + [Second(ticks + receiving + between)])
  {
    assert Timers.IndexOf(sys.timers, Timers.DisplayStatus) == 1;
    StepFollows(sys, PassOf(ticks, receiving, between), fired, Timers.DisplayStatus, s, d, seen);
  }

  lemma BeatShows(m: Moment, b: Beat, r: Moment, fired: nat, s: nat, d: u32, seen: seq<nat>) returns (calls: nat)
    requires IsBeat(m, b, r) && TimerFollows(m.system, fired, Timers.DisplayStatus, s, d, seen)
    ensures TimerFollows(r.system, fired + calls, Timers.DisplayStatus, s, d,
                         seen + [Second(JudgeTick(Timers.DisplayStatus, m, b))])
    ensures r.shown == m.shown + calls
  {
    var taught := LearnedAll(m.system, b.learned);
    PassShows(taught, m.ticks, b.receiving, b.between, fired, s, d, seen);
    calls := FiringsOf(taught, PassOf(m.ticks, b.receiving, b.between), Timers.DisplayStatus);
  }

  /** The status timer follows its own run, and the status is shown as often as it fires. */
  lemma {:induction false} StatusFollows(moments: seq<Moment>, beats: seq<Beat>, n: nat, s: nat, d: u32)
    returns (seen: seq<nat>, fired: nat)
    requires IsBeatRun(moments, beats) && n <= |beats|
    requires TimerFollows(moments[0].system, 0, Timers.DisplayStatus, s, d, [])
    ensures |seen| == n && JudgedAt(Timers.DisplayStatus, moments, beats, seen)
    ensures TimerFollows(moments[n].system, fired, Timers.DisplayStatus, s, d, seen)
    ensures moments[n].shown == moments[0].shown + fired
  {
    if n == 0 {
      seen, fired := [], 0;
    } else {
      var i := n - 1;
      var times, sofar := StatusFollows(moments, beats, i, s, d);
      assert IsBeat(moments[i], beats[i], moments[i + 1]);
      var calls := BeatShows(moments[i], beats[i], moments[i + 1], sofar, s, d, times);
      seen := times + [Second(JudgeTick(Timers.DisplayStatus, moments[i], beats[i]))];
      fired := sofar + calls;
    }
  }

  /**
   * When each turn judges the status timer, of interval `d`, within `d` seconds of the turn before, the
   * status has been shown once for each whole interval of the seconds since the timer was set.
   */
  lemma LoopShowsStatus(moments: seq<Moment>, beats: seq<Beat>, n: nat, since: nat, d: u32)
    requires IsBeatRun(moments, beats) && n <= |beats| && TwoTimers(moments[0].system)
    requires since <= moments[0].ticks && 0 < d <= 0x8000_0000
    requires Prompt(Timers.DisplayStatus, since, d, moments, beats)
    requires TimerSetAt(moments[0].system, Timers.DisplayStatus, d, since)
    ensures var last := Second(LastJudged(Timers.DisplayStatus, since, moments, beats, n));
            last >= Second(since) && moments[n].shown == moments[0].shown + WholeIntervals(Second(since), last, d)
  {
    var c, m := Timers.DisplayStatus, moments[0];
    var seen, fired := StatusFollows(moments, beats, n, Second(since), d);
    PromptTurnsKeepUp(c, since, d, moments, beats, seen);
    FollowingTimer(moments[n].system, fired, c, Second(since), d, seen);
  }

  /** The state is one that module ArpAgeing reaches from boot. */
  lemma LoopIsReachable(moments: seq<Moment>, beats: seq<Beat>, n: nat)
    requires IsBeatRun(moments, beats) && n <= |beats| && TwoTimers(moments[0].system)
    requires Holds(moments[0].system, ArpAgeing.Boot())
    ensures exists events: seq<ArpAgeing.Event> ::
              Holds(moments[n].system, ArpAgeing.Run(AsWritten, ArpAgeing.Boot(), events))
  {
    var events, seen := LoopReaches(moments, beats, n);
    RunHolds(moments[0].system, events, ArpAgeing.Boot());
  }
}
