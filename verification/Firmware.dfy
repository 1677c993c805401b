/**
 * The loop of `main`: `net_periodic`, then `timer_periodic`, for ever. A run is the sequence of states
 * between turns, of any length; what holds of every run is shown from what one turn does.
 */
module Firmware {
  import opened Addresses
  import opened ArpTable
  import opened Clock
  import opened ClockRuns
  import opened Frame
  import opened Machine
  import opened MainLoop
  import opened Startup
  import opened Station
  import opened Turns
  import ArpAgeing
  import Arp = ArpProtocol
  import Net
  import TimerList
  import Timers
  import Udp
  import Wire

  /** What stays as `main` set it: the host configuration and the port bindings. */
  datatype Setup = Setup(host: HostConfig, slots: seq<Udp.Slot>)

  /**
   * One turn: the frames that wait, the interrupts up to the reading of the clock for the first timer, and
   * those from there to the reading for the second.
   */
  datatype Turn = Turn(pending: seq<Arrival>, receiving: nat, between: nat)

  /** The state between turns, all that was sent, and how often the status was shown. */
  datatype Loop = Loop(ticks: nat, system: System, memory: seq<byte>, sent: seq<seq<byte>>, shown: nat)

  function StackOf(c: Setup, sys: System): (s: Net.StackState)
  {
    Net.StackState(c.host, sys.now, sys.table, c.slots)
  }

  predicate CanTurn(c: Setup, l: Loop, t: Turn)
  {
    TwoTimers(l.system) && IsMemory(l.memory) && AllEnd(c.slots, t.pending, |t.pending|)
  }

  function Received(c: Setup, l: Loop, t: Turn): (r: Served)
    requires CanTurn(c, l, t)
    ensures |r.memory| == |l.memory| && |r.table| == |l.system.table|
  {
    Serve(StackOf(c, l.system), l.memory, t.pending, |t.pending|)
  }

  function TurnOnce(c: Setup, l: Loop, t: Turn): (r: Loop)
    requires CanTurn(c, l, t)
  {
    var served, e := Received(c, l, t), PassOf(l.ticks, t.receiving, t.between);
    var taught := l.system.(table := served.table);
    Loop(l.ticks + t.receiving + t.between, Step(taught, e), served.memory, l.sent + served.sent,
         l.shown + FiringsOf(taught, e, Timers.DisplayStatus))
  }

  predicate IsTurn(c: Setup, l: Loop, t: Turn, r: Loop)
  {
    CanTurn(c, l, t) && r == TurnOnce(c, l, t)
  }

  ghost predicate IsRun(c: Setup, turns: seq<Turn>, trace: seq<Loop>)
  {
    && |trace| == |turns| + 1
    && forall i {:trigger IsTurn(c, trace[i], turns[i], trace[i + 1])} :: 0 <= i < |turns| ==>
         IsTurn(c, trace[i], turns[i], trace[i + 1])
  }

  // ---------- what a turn teaches ----------

  /** What received bytes teach the ARP table: the sender of a request or reply for this host. */
  function LearnOf(host: HostConfig, c: seq<byte>): (r: seq<Event>)
    ensures |r| <= 1 && AllLearn(r)
  {
    if Wire.Introduces(c, host.ip) then [Learn(c[28..32], c[22..28])] else []
  }

  lemma FrameTeaches(c: Setup, sys: System, f: seq<byte>, received: seq<byte>)
    requires |received| <= |f| && f[..|received|] == received && 0 < |sys.table|
    ensures LearnedAll(sys, LearnOf(c.host, received))
         == sys.(table := Net.TableAfter(StackOf(c, sys), f, |received|))
  {
    Wire.TableOnBytes(StackOf(c, sys), f, |received|);
    var learn := LearnOf(c.host, received);
    if learn != [] {
      Wire.SameSlice(f, received, 28, 32);
      Wire.SameSlice(f, received, 22, 28);
      assert learn[..0] == [];
      assert LearnedAll(sys, learn) == Step(LearnedAll(sys, learn[..0]), learn[0]);
    }
  }

  lemma {:induction false} LearnedConcat(sys: System, x: seq<Event>, y: seq<Event>)
    requires 0 < |sys.table| && AllLearn(x) && AllLearn(y)
    ensures LearnedAll(sys, x + y) == LearnedAll(LearnedAll(sys, x), y)
  {
    if y == [] {
      assert x + y == x;
    } else {
      var k := |y| - 1;
      LearnedConcat(sys, x, y[..k]);
      assert (x + y)[..|x + y| - 1] == x + y[..k];
    }
  }

  /** What the first `n` arrivals teach. */
  function Lessons(host: HostConfig, pending: seq<Arrival>, n: nat): (r: seq<Event>)
    requires n <= |pending|
    ensures AllLearn(r)
  {
    if n == 0 then [] else Lessons(host, pending, n - 1) + LearnOf(host, Copied(pending[n - 1]))
  }

  lemma ArrivalTeaches(c: Setup, sys: System, learned: seq<Event>, before: Served, a: Arrival)
    requires 0 < |sys.table| && 0 < |before.table| && IsMemory(before.memory) && Ends(c.slots, a)
    requires AllLearn(learned) && LearnedAll(sys, learned) == sys.(table := before.table)
    ensures LearnedAll(sys, learned + LearnOf(c.host, Copied(a)))
         == sys.(table := ServeOne(StackOf(c, sys), before, a).table)
  {
    StoredIsAcceptable(c.slots, before.memory, a);
    LearnedConcat(sys, learned, LearnOf(c.host, Copied(a)));
    FrameTeaches(c, sys.(table := before.table), Stored(before.memory, a), Copied(a));
  }

  /** The table after receiving is what the lessons make of it. */
  lemma {:induction false} ReceivingTeaches(c: Setup, sys: System, memory: seq<byte>, pending: seq<Arrival>, n: nat)
    returns (learned: seq<Event>)
    requires 0 < |sys.table| && IsMemory(memory) && n <= |pending| && AllEnd(c.slots, pending, n)
    ensures learned == Lessons(c.host, pending, n) && AllLearn(learned)
    ensures LearnedAll(sys, learned) == sys.(table := Serve(StackOf(c, sys), memory, pending, n).table)
  {
    if n == 0 {
      learned := [];
    } else {
      var served, a := Serve(StackOf(c, sys), memory, pending, n - 1), pending[n - 1];
      var before := ReceivingTeaches(c, sys, memory, pending, n - 1);
      ArrivalTeaches(c, sys, before, served, a);
      learned := before + LearnOf(c.host, Copied(a));
    }
  }

  function BeatOf(c: Setup, l: Loop, t: Turn): (b: Beat)
    requires CanTurn(c, l, t)
  {
    Beat(Lessons(c.host, t.pending, |t.pending|), t.receiving, t.between)
  }

  function MomentOf(l: Loop): (m: Moment)
  {
    Moment(l.ticks, l.system, l.shown)
  }

  lemma TurnIsBeat(c: Setup, l: Loop, t: Turn, r: Loop)
    requires IsTurn(c, l, t, r)
    ensures IsBeat(MomentOf(l), BeatOf(c, l, t), MomentOf(r))
  {
    var learned := ReceivingTeaches(c, l.system, l.memory, t.pending, |t.pending|);
  }

  // ---------- every run ----------

  /** Live addresses are distinct, all that was sent came from the host, and beyond the buffer nothing changed. */
  ghost predicate SafeLoop(c: Setup, l: Loop, memory: seq<byte>)
    requires IsMemory(memory)
  {
    && DistinctKeys(l.system.table) && AllFromHost(l.sent, c.host)
    && |l.memory| == |memory| && l.memory[BUFFER_SIZE..] == memory[BUFFER_SIZE..]
  }

  lemma {:induction false} FlushesKeepKeysDistinct(sys: System, n: nat)
    requires DistinctKeys(sys.table)
    ensures DistinctKeys(FlushedTimes(sys, n).table)
  {
    if n > 0 {
      FlushesKeepKeysDistinct(sys, n - 1);
      FlushKeepsKeysDistinct(AsWritten, FlushedTimes(sys, n - 1).table, FlushedTimes(sys, n - 1).now);
    }
  }

  lemma PassKeepsKeysDistinct(sys: System, ticks: nat, receiving: nat, between: nat)
    requires TwoTimers(sys) && DistinctKeys(sys.table)
    ensures DistinctKeys(Step(sys, PassOf(ticks, receiving, between)).table)
  {
    var e := PassOf(ticks, receiving, between);
    var clocks, given := Clocks(e.times), Answers(sys.timers, e.answers);
    FlushesKeepKeysDistinct(sys, Timers.Count(Timers.Fired(sys.timers, clocks, given, 2), Timers.ArpFlush));
  }

  lemma TurnKeepsSafe(c: Setup, l: Loop, t: Turn, r: Loop, memory: seq<byte>)
    requires IsTurn(c, l, t, r) && IsMemory(memory) && SafeLoop(c, l, memory)
    ensures SafeLoop(c, r, memory)
  {
    ServeIsSafe(StackOf(c, l.system), l.memory, t.pending, |t.pending|);
    PassKeepsKeysDistinct(l.system.(table := Received(c, l, t).table), l.ticks, t.receiving, t.between);
  }

  lemma {:induction false} RunKeepsSafe(c: Setup, turns: seq<Turn>, trace: seq<Loop>, n: nat, memory: seq<byte>)
    requires IsRun(c, turns, trace) && n <= |turns| && IsMemory(memory) && SafeLoop(c, trace[0], memory)
    ensures SafeLoop(c, trace[n], memory)
  {
    if n > 0 {
      var i := n - 1;
      RunKeepsSafe(c, turns, trace, i, memory);
      assert IsTurn(c, trace[i], turns[i], trace[i + 1]);
      TurnKeepsSafe(c, trace[i], turns[i], trace[i + 1], memory);
    }
  }

  /** A run as its timers and its ARP table see it. */
  ghost predicate SeenAs(c: Setup, turns: seq<Turn>, trace: seq<Loop>, moments: seq<Moment>, beats: seq<Beat>)
  {
    && |trace| == |moments| == |turns| + 1 && |beats| == |turns|
    && (forall i :: 0 <= i < |moments| ==> moments[i] == MomentOf(trace[i]))
    && (forall i :: 0 <= i < |beats| ==>
          beats[i].receiving == turns[i].receiving && beats[i].between == turns[i].between)
    && IsBeatRun(moments, beats)
  }

  lemma TurnAt(c: Setup, turns: seq<Turn>, trace: seq<Loop>, i: nat) returns (b: Beat)
    requires IsRun(c, turns, trace) && i < |turns|
    ensures b.receiving == turns[i].receiving && b.between == turns[i].between
    ensures IsBeat(MomentOf(trace[i]), b, MomentOf(trace[i + 1]))
  {
    assert IsTurn(c, trace[i], turns[i], trace[i + 1]);
    TurnIsBeat(c, trace[i], turns[i], trace[i + 1]);
    b := BeatOf(c, trace[i], turns[i]);
  }

  lemma RunIsBeatRun(c: Setup, turns: seq<Turn>, trace: seq<Loop>) returns (moments: seq<Moment>, beats: seq<Beat>)
    requires IsRun(c, turns, trace)
    ensures SeenAs(c, turns, trace, moments, beats)
  {
    moments := seq(|trace|, i requires 0 <= i < |trace| => MomentOf(trace[i]));
    beats := [];
    for n := 0 to |turns|
      invariant |beats| == n
      invariant forall i :: 0 <= i < n ==>
        beats[i].receiving == turns[i].receiving && beats[i].between == turns[i].between
      invariant forall i {:trigger IsBeat(moments[i], beats[i], moments[i + 1])} :: 0 <= i < n ==>
        IsBeat(moments[i], beats[i], moments[i + 1])
    {
      var b := TurnAt(c, turns, trace, n);
      beats := beats + [b];
    }
  }

  /** The state `main` hands to its loop; it set the status timer when `shownFrom` interrupts had passed. */
  ghost predicate Booted(l: Loop, shownFrom: nat)
  {
    && IsMemory(l.memory) && l.sent == [] && l.shown == 0 && TwoTimers(l.system)
    && Holds(l.system, ArpAgeing.Boot()) && ArpTimerSet(l.system, Second(l.ticks))
    && shownFrom <= l.ticks && TimerSetAt(l.system, Timers.DisplayStatus, 1, shownFrom)
  }

  /** The interrupt count when the ARP timer was last judged in the first `n` turns, or when it was set. */
  function ArpJudged(turns: seq<Turn>, trace: seq<Loop>, n: nat): (r: nat)
    requires n <= |turns| < |trace|
  {
    if n == 0 then trace[0].ticks else trace[n - 1].ticks + turns[n - 1].receiving
  }

  /** The same of the status timer, read after the ARP timer. */
  function StatusJudged(turns: seq<Turn>, trace: seq<Loop>, n: nat, shownFrom: nat): (r: nat)
    requires n <= |turns| < |trace|
  {
    if n == 0 then shownFrom else trace[n - 1].ticks + turns[n - 1].receiving + turns[n - 1].between
  }

  /** Each turn judges the ARP timer within ten seconds, 10000 interrupts, of the turn before. */
  ghost predicate ArpPrompt(turns: seq<Turn>, trace: seq<Loop>)
    requires |turns| < |trace|
  {
    forall n :: 0 <= n < |turns| ==> ArpJudged(turns, trace, n + 1) <= ArpJudged(turns, trace, n) + 10000
  }

  /** Each turn judges the status timer within one second of the turn before. */
  ghost predicate StatusPrompt(turns: seq<Turn>, trace: seq<Loop>, shownFrom: nat)
    requires |turns| < |trace|
  {
    forall n :: 0 <= n < |turns| ==>
      StatusJudged(turns, trace, n + 1, shownFrom) <= StatusJudged(turns, trace, n, shownFrom) + 1000
  }

  /**
   * From power-up, after any number of turns and whatever arrives in them: live ARP addresses are distinct,
   * every frame sent came from the host, and nothing beyond the buffer was written; the ARP table is one
   * that updates and flushes reach from boot, so that what holds of those holds of it.
   */
  lemma EveryRunIsSafe(c: Setup, turns: seq<Turn>, trace: seq<Loop>, n: nat, shownFrom: nat)
    requires IsRun(c, turns, trace) && n <= |turns| && Booted(trace[0], shownFrom)
    ensures SafeLoop(c, trace[n], trace[0].memory)
    ensures exists events: seq<ArpAgeing.Event> ::
              Holds(trace[n].system, ArpAgeing.Run(AsWritten, ArpAgeing.Boot(), events))
  {
    BootIsSafe(c, trace[0], shownFrom);
    RunKeepsSafe(c, turns, trace, n, trace[0].memory);
    var moments, beats := RunIsBeatRun(c, turns, trace);
    LoopIsReachable(moments, beats, n);
  }

  lemma BootIsSafe(c: Setup, l: Loop, shownFrom: nat)
    requires Booted(l, shownFrom)
    ensures SafeLoop(c, l, l.memory)
  {
  }

  /** In a run that is prompt for it the ARP clock counts the tens of seconds since `net_init`, modulo 256. */
  lemma EveryPromptRunKeepsTime(c: Setup, turns: seq<Turn>, trace: seq<Loop>, n: nat, shownFrom: nat)
    requires IsRun(c, turns, trace) && n <= |turns| && Booted(trace[0], shownFrom) && ArpPrompt(turns, trace)
    ensures ShowsTens(trace[n].system.now, 0, Second(trace[0].ticks), Second(ArpJudged(turns, trace, n)))
  {
    var moments, beats := RunIsBeatRun(c, turns, trace);
    forall i | 0 <= i < |beats|
      ensures JudgeTick(Timers.ArpFlush, moments[i], beats[i])
           <= LastJudged(Timers.ArpFlush, trace[0].ticks, moments, beats, i) + TICKS_PER_SECOND * ARP_FLUSH_INTERVAL
    {
      assert ArpJudged(turns, trace, i + 1) <= ArpJudged(turns, trace, i) + 10000;
    }
    LoopKeepsTime(moments, beats, n);
  }

  /** In a run that is prompt for it the status is shown once a second: as often as seconds have gone by. */
  lemma EveryPromptRunShowsStatus(c: Setup, turns: seq<Turn>, trace: seq<Loop>, n: nat, shownFrom: nat)
    requires IsRun(c, turns, trace) && n <= |turns| && Booted(trace[0], shownFrom)
    requires StatusPrompt(turns, trace, shownFrom)
    ensures trace[n].shown == StatusJudged(turns, trace, n, shownFrom) / 1000 - shownFrom / 1000
  {
    var moments, beats := RunIsBeatRun(c, turns, trace);
    forall i | 0 <= i < |beats|
      ensures JudgeTick(Timers.DisplayStatus, moments[i], beats[i])
           <= LastJudged(Timers.DisplayStatus, shownFrom, moments, beats, i) + TICKS_PER_SECOND * 1
    {
      assert StatusJudged(turns, trace, i + 1, shownFrom) <= StatusJudged(turns, trace, i, shownFrom) + 1000;
    }
    LoopShowsStatus(moments, beats, n, shownFrom, 1);
  }

  // ---------- everything that is sent ----------

  /** All that arrives in the first `n` turns, in order. */
  function AllArrivals(turns: seq<Turn>, n: nat): (r: seq<Arrival>)
    requires n <= |turns|
  {
    if n == 0 then [] else AllArrivals(turns, n - 1) + turns[n - 1].pending
  }

  lemma {:induction false} ActualConcat(x: seq<seq<byte>>, y: seq<seq<byte>>)
    ensures Actual(x + y) == Actual(x) + Actual(y)
  {
    if y == [] {
      assert x + y == x;
    } else {
      var k := |y| - 1;
      ActualConcat(x, y[..k]);
      assert (x + y)[..|x + y| - 1] == x + y[..k];
    }
  }

  lemma RepliesConcat(c: Setup, p: seq<Arrival>, q: seq<Arrival>, x: seq<seq<byte>>, y: seq<seq<byte>>)
    requires RepliesTo(c.host, c.slots, p, x) && RepliesTo(c.host, c.slots, q, y)
    ensures RepliesTo(c.host, c.slots, p + q, x + y)
  {
    forall i | 0 <= i < |p + q| ensures IsReplyTo(c.host, c.slots, (p + q)[i], (x + y)[i]) {
      if i < |p| {
        assert IsReplyTo(c.host, c.slots, p[i], x[i]);
      } else {
        assert IsReplyTo(c.host, c.slots, q[i - |p|], y[i - |p|]);
      }
    }
  }

  /** Between two states the replies to some arrivals were sent, in order, and nothing besides. */
  ghost predicate Answered(c: Setup, before: Loop, after: Loop, arrivals: seq<Arrival>, replies: seq<seq<byte>>)
  {
    after.sent == before.sent + Actual(replies) && RepliesTo(c.host, c.slots, arrivals, replies)
  }

  lemma AnsweredInTurn(c: Setup, x: Loop, y: Loop, z: Loop, p: seq<Arrival>, q: seq<Arrival>,
                       earlier: seq<seq<byte>>, now: seq<seq<byte>>)
    requires Answered(c, x, y, p, earlier) && Answered(c, y, z, q, now)
    ensures Answered(c, x, z, p + q, earlier + now)
  {
    ActualConcat(earlier, now);
    RepliesConcat(c, p, q, earlier, now);
  }

  lemma TurnIsAnswered(c: Setup, l: Loop, t: Turn, r: Loop) returns (replies: seq<seq<byte>>)
    requires IsTurn(c, l, t, r)
    ensures Answered(c, l, r, t.pending, replies)
  {
    replies := ArrivalsAreAnswered(StackOf(c, l.system), l.memory, t.pending, |t.pending|);
    assert t.pending[..|t.pending|] == t.pending;
  }

  lemma AnsweredAt(c: Setup, turns: seq<Turn>, trace: seq<Loop>, i: nat) returns (replies: seq<seq<byte>>)
    requires IsRun(c, turns, trace) && i < |turns|
    ensures Answered(c, trace[i], trace[i + 1], turns[i].pending, replies)
  {
    assert IsTurn(c, trace[i], turns[i], trace[i + 1]);
    replies := TurnIsAnswered(c, trace[i], turns[i], trace[i + 1]);
  }

  lemma NothingAnswered(c: Setup, l: Loop)
    ensures Answered(c, l, l, [], [])
  {
  }

  /**
   * Over every run from power-up the frames sent are the replies to the arrivals, in the order in which they
   * arrived: to each arrival that is whole, the answer to its bytes, and nothing besides.
   */
  lemma {:induction false} EveryRunAnswers(c: Setup, turns: seq<Turn>, trace: seq<Loop>, n: nat)
    returns (replies: seq<seq<byte>>)
    requires IsRun(c, turns, trace) && n <= |turns|
    ensures Answered(c, trace[0], trace[n], AllArrivals(turns, n), replies)
  {
    replies := [];
    if n == 0 {
      NothingAnswered(c, trace[0]);
    } else {
      var earlier := EveryRunAnswers(c, turns, trace, n - 1);
      var now := AnsweredAt(c, turns, trace, n - 1);
      AnsweredInTurn(c, trace[0], trace[n - 1], trace[n], AllArrivals(turns, n - 1), turns[n - 1].pending,
                     earlier, now);
      replies := earlier + now;
    }
  }

  // ---------- the code ----------

  function SetupOf(iface: Interface): (c: Setup)
    reads iface, iface.stack, iface.stack.udp, iface.stack.udp.slots
  {
    Setup(iface.stack.host, iface.stack.udp.slots[..])
  }

  ghost function LoopOf(iface: Interface, timers: TimerList.TimerTable, clock: SystemClock, sent: seq<seq<byte>>,
                        shown: nat): (l: Loop)
    reads iface, iface.memory, iface.stack, iface.stack.arp, iface.stack.arp.table, timers, clock
  {
    Loop(clock.ticks, SystemOf(iface.stack, timers), iface.memory[..], sent, shown)
  }

  lemma PassReadings(sys: System, ticks: nat, receiving: nat, between: nat)
    requires TwoTimers(sys)
    ensures var e := PassOf(ticks, receiving, between);
            && Allowed(sys, e) && Answers(sys.timers, e.answers) == [true, true]
            && Clocks(e.times) == [Reading(ticks + receiving), Reading(ticks + receiving + between)]
  {
  }

  /** What `timer_periodic` and the calls of `arp_flush` leave is one pass. */
  lemma PassIsComplete(sys: System, e: Event, clocks: seq<u32>, given: seq<bool>, fired: seq<Timers.Callback>,
                       after: System)
    requires 0 < |sys.table| && e.Pass? && Allowed(sys, e)
    requires clocks == Clocks(e.times) && given == Answers(sys.timers, e.answers)
    requires fired == Timers.Fired(sys.timers, clocks, given, |sys.timers|)
    requires after.timers == Timers.Kept(sys.timers, clocks, given, |sys.timers|)
    requires after.(timers := sys.timers) == FlushedTimes(sys, Timers.Count(fired, Timers.ArpFlush))
    ensures after == Step(sys, e)
  {
  }

  method ReadTwice(clock: SystemClock, receiving: nat, between: nat) returns (clocks: seq<u32>)
    requires clock.Valid()
    modifies clock
    ensures clock.Valid() && clock.ticks == old(clock.ticks) + receiving + between
    ensures clocks == [Reading(old(clock.ticks) + receiving), Reading(old(clock.ticks) + receiving + between)]
  {
    Elapse(clock, receiving);
    var first := clock.Time();
    Elapse(clock, between);
    var second := clock.Time();
    clocks := [first, second];
  }

  /** `timer_periodic`: the two readings of the clock, the walk, and `arp_flush` if it fired. */
  method PassTimers(stack: Net.Stack, timers: TimerList.TimerTable, clock: SystemClock, receiving: nat, between: nat)
    returns (shown: nat)
    requires stack.Valid() && timers.Valid() && clock.Valid() && TwoTimers(SystemOf(stack, timers))
    modifies stack.arp, stack.arp.table, timers, timers.repr, clock
    ensures stack.Valid() && timers.Valid() && clock.Valid() && timers.repr == old(timers.repr)
    ensures clock.ticks == old(clock.ticks) + receiving + between
    ensures SystemOf(stack, timers) == Step(old(SystemOf(stack, timers)), PassOf(old(clock.ticks), receiving, between))
    ensures shown == FiringsOf(old(SystemOf(stack, timers)), PassOf(old(clock.ticks), receiving, between),
                               Timers.DisplayStatus)
  {
    ghost var sys, ticks := SystemOf(stack, timers), clock.ticks;
    var given := [true, true];
    var clocks := ReadTwice(clock, receiving, between);
    PassReadings(sys, ticks, receiving, between);
    var fired := timers.Periodic(clocks, given);
    shown := CallFired(stack, fired, sys.timers);
    PassIsComplete(sys, PassOf(ticks, receiving, between), clocks, given, fired, SystemOf(stack, timers));
  }

  /** The calls of the callbacks; `display_status` touches neither timers nor ARP, and is counted. */
  method CallFired(stack: Net.Stack, fired: seq<Timers.Callback>, ghost timers: seq<Timers.Timer>)
    returns (shown: nat)
    requires stack.Valid()
    modifies stack.arp, stack.arp.table
    ensures stack.Valid()
    ensures System(timers, stack.arp.time, stack.arp.table[..])
         == FlushedTimes(System(timers, old(stack.arp.time), old(stack.arp.table[..])),
                         Timers.Count(fired, Timers.ArpFlush))
    ensures shown == Timers.Count(fired, Timers.DisplayStatus)
  {
    ghost var sys := System(timers, stack.arp.time, stack.arp.table[..]);
    shown := 0;
    for i := 0 to |fired|
      invariant stack.Valid()
      invariant System(timers, stack.arp.time, stack.arp.table[..])
             == FlushedTimes(sys, Timers.Count(fired[..i], Timers.ArpFlush))
      invariant shown == Timers.Count(fired[..i], Timers.DisplayStatus)
    {
      assert fired[..i + 1][..i] == fired[..i];
      match fired[i] {
        case ArpFlush =>
          var again := stack.arp.Flush();
          assert again;
        case DisplayStatus =>
          shown := shown + 1;
        case Other(_) =>
      }
    }
    assert fired[..|fired|] == fired;
  }

  /** One turn of the loop. */
  method TakeTurn(iface: Interface, timers: TimerList.TimerTable, clock: SystemClock, t: Turn,
                  ghost earlier: seq<seq<byte>>, ghost before: nat) returns (sent: seq<seq<byte>>, shown: nat)
    requires iface.Valid() && timers.Valid() && clock.Valid()
    requires CanTurn(SetupOf(iface), LoopOf(iface, timers, clock, earlier, before), t)
    modifies iface, iface.memory, iface.stack.arp, iface.stack.arp.table, timers, timers.repr, clock
    ensures iface.Valid() && timers.Valid() && clock.Valid() && timers.repr == old(timers.repr)
    ensures SetupOf(iface) == old(SetupOf(iface))
    ensures IsTurn(SetupOf(iface), old(LoopOf(iface, timers, clock, earlier, before)), t,
                   LoopOf(iface, timers, clock, earlier + sent, before + shown))
  {
    ghost var c, l := SetupOf(iface), LoopOf(iface, timers, clock, earlier, before);
    ghost var served := Received(c, l, t);
    ghost var replies: seq<seq<byte>>;
    sent, replies := iface.Periodic(t.pending);
    assert Served(iface.stack.arp.table[..], iface.memory[..], sent) == served;
    shown := PassTimers(iface.stack, timers, clock, t.receiving, t.between);
    TurnIsComplete(c, l, t, LoopOf(iface, timers, clock, earlier + sent, before + shown));
  }

  lemma TurnIsComplete(c: Setup, l: Loop, t: Turn, r: Loop)
    requires CanTurn(c, l, t)
    requires r.ticks == l.ticks + t.receiving + t.between
    requires var taught, e := l.system.(table := Received(c, l, t).table), PassOf(l.ticks, t.receiving, t.between);
             r.system == Step(taught, e) && r.shown == l.shown + FiringsOf(taught, e, Timers.DisplayStatus)
    requires r.memory == Received(c, l, t).memory && r.sent == l.sent + Received(c, l, t).sent
    ensures IsTurn(c, l, t, r)
  {
  }

  /** `while(true)`, for as many turns as there are: a run of any length. */
  method TakeTurns(iface: Interface, timers: TimerList.TimerTable, clock: SystemClock, turns: seq<Turn>)
    returns (sent: seq<seq<byte>>, shown: nat, ghost trace: seq<Loop>)
    requires iface.Valid() && timers.Valid() && clock.Valid() && TwoTimers(SystemOf(iface.stack, timers))
    requires forall i :: 0 <= i < |turns| ==> AllEnd(SetupOf(iface).slots, turns[i].pending, |turns[i].pending|)
    modifies iface, iface.memory, iface.stack.arp, iface.stack.arp.table, timers, timers.repr, clock
    ensures iface.Valid() && timers.Valid() && clock.Valid() && SetupOf(iface) == old(SetupOf(iface))
    ensures IsRun(SetupOf(iface), turns, trace) && trace[0] == old(LoopOf(iface, timers, clock, [], 0))
    ensures trace[|turns|] == LoopOf(iface, timers, clock, sent, shown)
  {
    sent, shown, trace := [], 0, [LoopOf(iface, timers, clock, [], 0)];
    for n := 0 to |turns|
      invariant iface.Valid() && timers.Valid() && clock.Valid() && timers.repr == old(timers.repr)
      invariant SetupOf(iface) == old(SetupOf(iface)) && TwoTimers(SystemOf(iface.stack, timers))
      invariant IsRun(SetupOf(iface), turns[..n], trace) && trace[0] == old(LoopOf(iface, timers, clock, [], 0))
      invariant trace[n] == LoopOf(iface, timers, clock, sent, shown)
    {
      var more, times := TakeTurn(iface, timers, clock, turns[n], sent, shown);
      sent, shown := sent + more, shown + times;
      RunGrows(SetupOf(iface), turns[..n], trace, turns[n], LoopOf(iface, timers, clock, sent, shown));
      OneMore(turns, n);
      trace := trace + [LoopOf(iface, timers, clock, sent, shown)];
    }
    assert turns[..|turns|] == turns;
  }

  lemma OneMore<T>(s: seq<T>, n: nat)
    requires n < |s|
    ensures s[..n] + [s[n]] == s[..n + 1]
  {
  }

  lemma RunGrows(c: Setup, turns: seq<Turn>, trace: seq<Loop>, t: Turn, r: Loop)
    requires IsRun(c, turns, trace) && IsTurn(c, trace[|turns|], t, r)
    ensures IsRun(c, turns + [t], trace + [r]) && TwoTimers(r.system)
  {
    var before := trace[|turns|];
    PassKeepsTimers(before.system.(table := Received(c, before, t).table), before.ticks, t.receiving, t.between);
    forall i | 0 <= i < |turns| + 1
      ensures IsTurn(c, (trace + [r])[i], (turns + [t])[i], (trace + [r])[i + 1])
    {
      if i < |turns| {
        assert IsTurn(c, trace[i], turns[i], trace[i + 1]);
      }
    }
  }

  /** The firmware from power-up through so many turns; `memory` begins with the receive buffer. */
  method PowerUp(config: HostConfig, ttyDelay: nat, ethDelay: nat, memory: array<byte>, turns: seq<Turn>)
    returns (sent: seq<seq<byte>>, shown: nat, ghost trace: seq<Loop>, ghost c: Setup)
    requires IsMemory(memory[..])
    requires forall i :: 0 <= i < |turns| ==> AllEnd(BootSlots(), turns[i].pending, |turns[i].pending|)
    modifies memory
    ensures c == Setup(config, BootSlots()) && IsRun(c, turns, trace) && Booted(trace[0], ttyDelay)
    ensures trace[0].ticks == ttyDelay + ethDelay
    ensures trace[|turns|].sent == sent && trace[|turns|].shown == shown
  {
    var stack, timers, clock := Start(config, ttyDelay, ethDelay);
    var iface := new Interface(stack, memory);
    c := SetupOf(iface);
    sent, shown, trace := TakeTurns(iface, timers, clock, turns);
  }
}
