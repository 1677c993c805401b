/** What `main` does before its loop, and the state it hands over to the loop. */
module Startup {
  import opened Addresses
  import opened ArpTable
  import opened Clock
  import opened ClockRuns
  import opened Machine
  import opened Timers
  import ArpAgeing
  import MainLoop
  import Net
  import TimerList
  import Udp

  /** The timers and the ARP state that the main loop works on. */
  ghost function SystemOf(stack: Net.Stack, timers: TimerList.TimerTable): (s: MainLoop.System)
    reads stack, stack.arp, stack.arp.table, timers
  {
    MainLoop.System(timers.contents, stack.arp.time, stack.arp.table[..])
  }

  /** `net_init`, on whatever timers were already set: the ARP timer starts at the second it is called in. */
  method NetInit(stack: Net.Stack, timers: TimerList.TimerTable, clock: SystemClock, config: HostConfig)
    requires stack.Valid() && timers.Valid() && clock.Valid()
    modifies stack, stack.arp.table, timers, timers.repr
    ensures stack.Valid() && timers.Valid() && clock.Valid() && fresh(timers.repr - old(timers.repr))
    ensures stack.host == config && stack.arp.time == old(stack.arp.time)
    ensures forall i :: 0 <= i < stack.arp.table.Length ==>
              stack.arp.table[i] == old(stack.arp.table[i]).(ip := EMPTY_IP)
    ensures Mapping(stack.arp.table[..]) == map[]
    ensures timers.contents == WithTimer(old(timers.contents), ArpFlush, MainLoop.ARP_FLUSH_INTERVAL,
                                         Reading(clock.ticks))
    ensures MainLoop.ArpTimerSet(SystemOf(stack, timers), Second(clock.ticks))
  {
    ghost var before := timers.contents;
    stack.Init(config);
    var now := clock.Time();
    timers.Set(ArpFlush, MainLoop.ARP_FLUSH_INTERVAL, now);
    MainLoop.NetInitSetsArpTimer(MainLoop.System(before, stack.arp.time, stack.arp.table[..]), Second(clock.ticks));
  }

  /** The two timers of the firmware, the later one in front. */
  function BootTimers(early: u32, late: u32): (ts: seq<Timer>)
  {
    [Timer(late, MainLoop.ARP_FLUSH_INTERVAL, ArpFlush), Timer(early, 1, DisplayStatus)]
  }

  lemma BothTimersSet(early: u32, late: u32)
    ensures WithTimer(WithTimer([], DisplayStatus, 1, early), ArpFlush, MainLoop.ARP_FLUSH_INTERVAL, late)
         == BootTimers(early, late)
  {
    var one := WithTimer([], DisplayStatus, 1, early);
    assert one == [Timer(early, 1, DisplayStatus)];
    assert IndexOf(one, ArpFlush) == 1;
  }

  /** The echo service in the first slot, the others NULL. */
  function BootSlots(): (slots: seq<Udp.Slot>)
    ensures |slots| == Udp.UDP_MAX_BINDINGS
    ensures forall i :: 0 <= i < |slots| ==>
              slots[i] == if i == 0 then Udp.Bound(Udp.ECHO_PORT, Udp.EchoUdp) else Udp.Null
  {
    seq(Udp.UDP_MAX_BINDINGS, i => if i == 0 then Udp.Bound(Udp.ECHO_PORT, Udp.EchoUdp) else Udp.Null)
  }

  /** The port search of `udp_decode` then finds port 7, and no other. */
  lemma BootBindsEchoAlone(s: Net.StackState)
    requires s.slots == BootSlots()
    ensures Net.BindsEchoAlone(s)
  {
    forall port: u16 ensures Udp.BindingOf(s.slots, port) < |s.slots| <==> port == Udp.ECHO_PORT {
      assert s.slots[0] == Udp.Bound(Udp.ECHO_PORT, Udp.EchoUdp);
    }
  }

  /** So many interrupts while the program does something else. */
  method Elapse(clock: SystemClock, n: nat)
    requires clock.Valid()
    modifies clock
    ensures clock.Valid() && clock.ticks == old(clock.ticks) + n
  {
    for i := 0 to n
      invariant clock.Valid() && clock.ticks == old(clock.ticks) + i
    {
      clock.Tick();
    }
  }

  /** The clock, and the status timer set once the terminal is up. */
  method StartClock(delay: nat) returns (clock: SystemClock, timers: TimerList.TimerTable)
    ensures clock.Valid() && clock.ticks == delay && fresh(clock)
    ensures timers.Valid() && fresh(timers) && fresh(timers.repr)
    ensures timers.contents == WithTimer([], DisplayStatus, 1, Reading(delay))
  {
    clock := new SystemClock();
    Elapse(clock, delay);
    timers := new TimerList.TimerTable();
    var now := clock.Time();
    timers.Set(DisplayStatus, 1, now);
  }

  /**
   * `main` up to its loop; `tty_init` and `eth_init` last so many interrupts. The loop starts on the boot
   * state of the ARP table, with the ARP and status timers set, and the echo service alone bound.
   */
  method Start(config: HostConfig, ttyDelay: nat, ethDelay: nat)
    returns (stack: Net.Stack, timers: TimerList.TimerTable, clock: SystemClock)
    ensures stack.Valid() && timers.Valid() && clock.Valid() && clock.ticks == ttyDelay + ethDelay
    ensures stack.host == config
    ensures MainLoop.Holds(SystemOf(stack, timers), ArpAgeing.Boot())
    ensures MainLoop.ArpTimerSet(SystemOf(stack, timers), Second(clock.ticks))
    ensures timers.contents == BootTimers(Reading(ttyDelay), Reading(clock.ticks))
    ensures stack.udp.slots[..] == BootSlots() && |BootSlots()| == 10 && stack.arp.table.Length == 10
    ensures fresh(stack) && fresh(stack.arp) && fresh(stack.arp.table) && fresh(stack.udp) && fresh(stack.udp.slots)
    ensures fresh(timers) && fresh(timers.repr) && fresh(clock)
  {
    clock, timers := StartClock(ttyDelay);
    Elapse(clock, ethDelay);
    stack := new Net.Stack();
    BothTimersSet(Reading(ttyDelay), Reading(clock.ticks));
    NetInit(stack, timers, clock, config);
    assert timers.contents == BootTimers(Reading(ttyDelay), Reading(clock.ticks));
    var bound := stack.udp.Bind(Udp.ECHO_PORT, Udp.EchoUdp, 0);
    assert stack.arp.table[..] == ArpAgeing.Boot().table;
    assert stack.udp.slots[..] == BootSlots();
  }
}
