/** The millisecond interrupt behind the 32-bit clock of seconds. */
module Clock {
  import opened Machine

  const TICKS_PER_SECOND := 1000

  const CLOCK_RANGE: nat := 0x1_0000_0000

  /** The 32-bit clock at a true time in seconds. */
  function ClockAt(time: nat): (r: u32)
  {
    time % CLOCK_RANGE
  }

  /** What `clock_time` returns `ticks` interrupts after `clock_init`. */
  function Reading(ticks: nat): (r: u32)
  {
    ClockAt(ticks / TICKS_PER_SECOND)
  }

  /** What befalls the clock: the interrupt, or a read by the program between two interrupts. */
  datatype ClockEvent = Tick | Read

  function TicksIn(events: seq<ClockEvent>): (n: nat)
  {
    if events == [] then 0
    else TicksIn(events[..|events| - 1]) + if events[|events| - 1].Tick? then 1 else 0
  }

  /** The true times, in seconds, of the reads, when `ticks` interrupts came before. */
  function ReadTimes(ticks: nat, events: seq<ClockEvent>): (times: seq<nat>)
  {
    if events == [] then []
    else
      var before := events[..|events| - 1];
      if events[|events| - 1].Read? then ReadTimes(ticks, before) + [(ticks + TicksIn(before)) / TICKS_PER_SECOND]
      else ReadTimes(ticks, before)
  }

  function Clocks(times: seq<nat>): (r: seq<u32>)
    ensures |r| == |times|
  {
    seq(|times|, i requires 0 <= i < |times| => ClockAt(times[i]))
  }

  class SystemClock {
    var timestamp: u32
    var microtime: u16
    ghost var ticks: nat

    ghost predicate Valid()
      reads this
    {
      timestamp == Reading(ticks) && microtime == ticks % TICKS_PER_SECOND
    }

    constructor ()
      ensures Valid() && ticks == 0
    {
      timestamp, microtime, ticks := 0, 0, 0;
    }

    /** `clock_tick`: the seconds wrap modulo 2^32. */
    method Tick()
      requires Valid()
      modifies this
      ensures Valid() && ticks == old(ticks) + 1
    {
      TickReading(ticks);
      microtime := microtime + 1;
      if microtime == 1000 {
        microtime := 0;
        timestamp := ToU32(timestamp + 1);
      }
      ticks := ticks + 1;
    }

    method Time() returns (t: u32)
      requires Valid()
      ensures t == Reading(ticks)
    {
      t := timestamp;
    }

    /** Interrupts and reads in any order: each read shows the true second, modulo 2^32. */
    method Play(events: seq<ClockEvent>) returns (readings: seq<u32>)
      requires Valid()
      modifies this
      ensures Valid() && ticks == old(ticks) + TicksIn(events)
      ensures readings == Clocks(ReadTimes(old(ticks), events))
    {
      readings := [];
      for i := 0 to |events|
        invariant Valid() && ticks == old(ticks) + TicksIn(events[..i])
        invariant readings == Clocks(ReadTimes(old(ticks), events[..i]))
      {
        assert events[..i + 1][..i] == events[..i];
        match events[i] {
          case Tick =>
            Tick();
          case Read =>
            var t := Time();
            readings := readings + [t];
        }
      }
      assert events[..|events|] == events;
    }
  }

  lemma SecondsAndRest(ticks: nat, s: nat, m: nat)
    requires ticks == TICKS_PER_SECOND * s + m && m < TICKS_PER_SECOND
    ensures ticks / TICKS_PER_SECOND == s && ticks % TICKS_PER_SECOND == m
  {
  }

  lemma TickReading(ticks: nat)
    ensures (ticks + 1) % TICKS_PER_SECOND
         == if ticks % TICKS_PER_SECOND == 999 then 0 else ticks % TICKS_PER_SECOND + 1
    ensures Reading(ticks + 1) == if ticks % TICKS_PER_SECOND == 999 then ToU32(Reading(ticks) + 1) else Reading(ticks)
  {
    var s, m := ticks / TICKS_PER_SECOND, ticks % TICKS_PER_SECOND;
    if m == 999 {
      SecondsAndRest(ticks + 1, s + 1, 0);
      NextReading(s);
    } else {
      SecondsAndRest(ticks + 1, s, m + 1);
    }
  }

  lemma NextReading(s: nat)
    ensures (s + 1) % 0x1_0000_0000 == ToU32(s % 0x1_0000_0000 + 1)
  {
    var q, r := s / 0x1_0000_0000, s % 0x1_0000_0000;
    assert s + 1 == 0x1_0000_0000 * q + (r + 1);
    if r == 0xFFFF_FFFF {
      assert s + 1 == 0x1_0000_0000 * (q + 1);
    }
  }
}
