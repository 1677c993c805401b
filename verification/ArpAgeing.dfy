/**
 * Ageing over whole runs of updates and flushes. Each slot is paired with the unbounded tick at
 * which it was stamped, so that computed 8-bit ages can be compared with true ones.
 */
module ArpAgeing {
  import opened Machine
  import opened Addresses
  import opened ArpTable

  datatype Event = Learn(ip: Ip, mac: Mac) | Flush

  datatype Aged = Aged(now: byte, table: seq<Entry>, tick: nat, born: seq<nat>)

  predicate WellShaped(a: Aged)
  {
    0 < |a.table| == |a.born|
  }

  /** One call of `arp_update` or `arp_flush`. */
  function Step(rule: AgeRule, a: Aged, e: Event): (r: Aged)
    requires WellShaped(a)
    ensures WellShaped(r) && |r.table| == |a.table|
  {
    match e
    case Learn(ip, mac) =>
      a.(table := Updated(rule, a.table, a.now, ip, mac),
         born := a.born[Target(rule, a.table, a.now, ip) := a.tick])
    case Flush =>
      Aged(Ticked(a.now), Flushed(rule, a.table, a.now), a.tick + 1, a.born)
  }

  function Run(rule: AgeRule, a: Aged, events: seq<Event>): (r: Aged)
    requires WellShaped(a)
    ensures WellShaped(r) && |r.table| == |a.table|
    decreases |events|
  {
    if events == [] then a else Run(rule, Step(rule, a, events[0]), events[1..])
  }

  /** The state at boot: every slot zeroed, the clock at zero. */
  function Boot(): (a: Aged)
  {
    Aged(0, seq(ARP_TABLE_SIZE, _ => Entry(0, NO_MAC, EMPTY_IP)), 0, seq(ARP_TABLE_SIZE, _ => 0))
  }

  /** Stamps from which the 8-bit clock reaches stamp + 120 before it wraps. */
  predicate AgesCorrectly(rule: AgeRule, stamp: byte)
  {
    rule.Modulo256? || stamp <= 0xFF - ARP_ENTRY_MAX_AGE
  }

  ghost predicate Invariant(rule: AgeRule, a: Aged)
  {
    && WellShaped(a)
    && DistinctKeys(a.table)
    && a.now == a.tick % 0x100
    && forall i :: 0 <= i < |a.table| ==> SlotInvariant(rule, a, i)
  }

  ghost predicate SlotInvariant(rule: AgeRule, a: Aged, i: nat)
    requires WellShaped(a) && i < |a.table|
  {
    && a.born[i] <= a.tick
    && a.table[i].time == a.born[i] % 0x100
    && (Live(a.table[i]) && AgesCorrectly(rule, a.table[i].time) ==> a.tick - a.born[i] < ARP_ENTRY_MAX_AGE)
  }

  lemma AgeNearBirth(rule: AgeRule, born: nat, tick: nat)
    requires born <= tick <= born + ARP_ENTRY_MAX_AGE
    requires AgesCorrectly(rule, born % 0x100)
    ensures Age(rule, tick % 0x100, born % 0x100) == tick - born
  {
    var q := born / 0x100;
    if tick < 0x100 * (q + 1) {
      assert tick % 0x100 == tick - 0x100 * q;
    } else {
      assert tick % 0x100 == tick - 0x100 * (q + 1);
    }
  }

  lemma TickedIsNextTick(tick: nat)
    ensures Ticked(tick % 0x100) == (tick + 1) % 0x100
  {
    var q := tick / 0x100;
    assert tick == 0x100 * q + tick % 0x100;
  }

  /** A flush frees a slot exactly at its 120th tick, and never one whose stamp is above 135. */
  lemma FlushVerdict(rule: AgeRule, a: Aged, i: nat)
    requires Invariant(rule, a) && i < |a.table| && Live(a.table[i])
    ensures !Live(Step(rule, a, Flush).table[i])
       <==> AgesCorrectly(rule, a.table[i].time) && a.tick + 1 - a.born[i] == ARP_ENTRY_MAX_AGE
  {
    assert SlotInvariant(rule, a, i);
    TickedIsNextTick(a.tick);
    if AgesCorrectly(rule, a.table[i].time) {
      AgeNearBirth(rule, a.born[i], a.tick + 1);
    }
  }

  lemma StepKeepsInvariant(rule: AgeRule, a: Aged, e: Event)
    requires Invariant(rule, a)
    ensures Invariant(rule, Step(rule, a, e))
  {
    var b := Step(rule, a, e);
    match e {
      case Learn(ip, mac) =>
        UpdateKeepsKeysDistinct(rule, a.table, a.now, ip, mac);
        forall i | 0 <= i < |a.table| ensures SlotInvariant(rule, b, i) {
          assert SlotInvariant(rule, a, i);
        }
      case Flush =>
        TickedIsNextTick(a.tick);
        FlushKeepsKeysDistinct(rule, a.table, a.now);
        forall i | 0 <= i < |a.table| ensures SlotInvariant(rule, b, i) {
          assert SlotInvariant(rule, a, i);
          if Live(a.table[i]) {
            FlushVerdict(rule, a, i);
          }
        }
    }
  }

  lemma {:induction false} RunKeepsInvariant(rule: AgeRule, a: Aged, events: seq<Event>)
    requires Invariant(rule, a)
    ensures Invariant(rule, Run(rule, a, events))
    decreases |events|
  {
    if events != [] {
      StepKeepsInvariant(rule, a, events[0]);
      RunKeepsInvariant(rule, Step(rule, a, events[0]), events[1..]);
    }
  }

  /**
   * In every reachable state the live addresses are distinct, and every live entry that ages
   * correctly is younger than 120 ticks and is computed to be exactly as old as it is.
   */
  lemma ReachableAges(rule: AgeRule, events: seq<Event>, i: nat)
    requires i < ARP_TABLE_SIZE
    ensures var a := Run(rule, Boot(), events);
            && DistinctKeys(a.table)
            && (Live(a.table[i]) && AgesCorrectly(rule, a.table[i].time)
                ==> Age(rule, a.now, a.table[i].time) == a.tick - a.born[i] < ARP_ENTRY_MAX_AGE)
  {
    var a := Run(rule, Boot(), events);
    assert forall j :: 0 <= j < ARP_TABLE_SIZE ==> SlotInvariant(rule, Boot(), j);
    RunKeepsInvariant(rule, Boot(), events);
    assert SlotInvariant(rule, a, i);
    if Live(a.table[i]) && AgesCorrectly(rule, a.table[i].time) {
      AgeNearBirth(rule, a.born[i], a.tick);
    }
  }

  // ---------- runs put together ----------

  lemma {:induction false} RunConcat(rule: AgeRule, a: Aged, x: seq<Event>, y: seq<Event>)
    requires WellShaped(a)
    ensures Run(rule, a, x + y) == Run(rule, Run(rule, a, x), y)
    decreases |x|
  {
    if x == [] {
      assert x + y == y;
    } else {
      assert (x + y)[0] == x[0] && (x + y)[1..] == x[1..] + y;
      RunConcat(rule, Step(rule, a, x[0]), x[1..], y);
    }
  }

  lemma RunOne(rule: AgeRule, a: Aged, e: Event)
    requires WellShaped(a)
    ensures Run(rule, a, [e]) == Step(rule, a, e)
  {
    assert [e][1..] == [];
  }

  /** One more event at the end of a run. */
  lemma RunThen(rule: AgeRule, a: Aged, x: seq<Event>, e: Event)
    requires WellShaped(a)
    ensures Run(rule, a, x + [e]) == Step(rule, Run(rule, a, x), e)
  {
    RunConcat(rule, a, x, [e]);
    RunOne(rule, Run(rule, a, x), e);
  }

  function Ticks(n: nat): (r: seq<Event>)
  {
    if n == 0 then [] else Ticks(n - 1) + [Flush]
  }

  /** No entry that ages correctly turns 120 within the next `n` flushes. */
  ghost predicate Quiet(rule: AgeRule, a: Aged, n: nat)
    requires WellShaped(a)
  {
    forall i :: 0 <= i < |a.table| && Live(a.table[i]) && AgesCorrectly(rule, a.table[i].time)
      ==> a.tick + n - a.born[i] < ARP_ENTRY_MAX_AGE
  }

  /** The same table so many ticks on. */
  function Later(a: Aged, n: nat): (r: Aged)
  {
    Aged((a.tick + n) % 0x100, a.table, a.tick + n, a.born)
  }

  lemma QuietFlush(rule: AgeRule, a: Aged)
    requires Invariant(rule, a) && Quiet(rule, a, 1)
    ensures Step(rule, a, Flush) == Later(a, 1)
  {
    TickedIsNextTick(a.tick);
    forall i | 0 <= i < |a.table| ensures Step(rule, a, Flush).table[i] == a.table[i] {
      if Live(a.table[i]) {
        FlushVerdict(rule, a, i);
      }
    }
    assert Step(rule, a, Flush).table == a.table;
  }

  lemma FlushLater(rule: AgeRule, a: Aged, n: nat, b: Aged) returns (c: Aged)
    requires WellShaped(a) && b == Later(a, n) && Invariant(rule, b) && Quiet(rule, a, n + 1)
    ensures c == Step(rule, b, Flush) && c == Later(a, n + 1) && Invariant(rule, c)
  {
    QuietFlush(rule, b);
    StepKeepsInvariant(rule, b, Flush);
    c := Step(rule, b, Flush);
  }

  lemma LaterNow(rule: AgeRule, a: Aged)
    requires Invariant(rule, a)
    ensures Later(a, 0) == a
  {
  }

  lemma QuietBefore(rule: AgeRule, a: Aged, n: nat)
    requires WellShaped(a) && Quiet(rule, a, n + 1)
    ensures Quiet(rule, a, n)
  {
  }

  lemma RunTicks(rule: AgeRule, a: Aged, n: nat, before: Aged)
    requires WellShaped(a) && n > 0 && before == Run(rule, a, Ticks(n - 1))
    ensures Run(rule, a, Ticks(n)) == Step(rule, before, Flush)
  {
    RunThen(rule, a, Ticks(n - 1), Flush);
  }

  lemma {:induction false} QuietRun(rule: AgeRule, a: Aged, n: nat) returns (b: Aged)
    requires Invariant(rule, a) && Quiet(rule, a, n)
    ensures b == Run(rule, a, Ticks(n)) && b == Later(a, n) && Invariant(rule, b)
  {
    if n == 0 {
      LaterNow(rule, a);
      b := a;
    } else {
      QuietBefore(rule, a, n - 1);
      var before := QuietRun(rule, a, n - 1);
      b := FlushLater(rule, a, n - 1, before);
      RunTicks(rule, a, n, before);
    }
  }

  /** So many quiet flushes change nothing but the clock. */
  lemma QuietFlushes(rule: AgeRule, a: Aged, n: nat)
    requires Invariant(rule, a) && Quiet(rule, a, n)
    ensures Run(rule, a, Ticks(n)) == Later(a, n) && Invariant(rule, Later(a, n))
  {
    var b := QuietRun(rule, a, n);
  }

  // ---------- how long an entry lives ----------

  function Flushes(events: seq<Event>): (n: nat)
  {
    if events == [] then 0 else (if events[0].Flush? then 1 else 0) + Flushes(events[1..])
  }

  lemma {:induction false} FlushesConcat(x: seq<Event>, y: seq<Event>)
    ensures Flushes(x + y) == Flushes(x) + Flushes(y)
  {
    if x == [] {
      assert x + y == y;
    } else {
      FlushesConcat(x[1..], y);
      assert (x + y)[1..] == x[1..] + y;
    }
  }

  lemma {:induction false} FlushesOfTicks(n: nat)
    ensures Flushes(Ticks(n)) == n
  {
    if n > 0 {
      FlushesOfTicks(n - 1);
      FlushesConcat(Ticks(n - 1), [Flush]);
      assert [Flush][1..] == [];
    }
  }

  /** No update of the run writes to slot `i`: the entry is neither refreshed nor evicted. */
  ghost predicate Untouched(rule: AgeRule, a: Aged, events: seq<Event>, i: nat)
    requires WellShaped(a)
    decreases |events|
  {
    events != [] ==>
      && (events[0].Learn? ==> Target(rule, a.table, a.now, events[0].ip) != i)
      && Untouched(rule, Step(rule, a, events[0]), events[1..], i)
  }

  lemma {:induction false} FreedStaysFree(rule: AgeRule, a: Aged, events: seq<Event>, i: nat)
    requires WellShaped(a) && i < |a.table| && !Live(a.table[i])
    requires Untouched(rule, a, events, i)
    ensures !Live(Run(rule, a, events).table[i])
    decreases |events|
  {
    if events != [] {
      FreedStaysFree(rule, Step(rule, a, events[0]), events[1..], i);
    }
  }

  /**
   * An untouched entry dies at exactly the 120th flush after its stamp; as the code is written,
   * one stamped above 135 is never removed by any flush.
   */
  lemma {:induction false} EntryLifetime(rule: AgeRule, a: Aged, events: seq<Event>, i: nat)
    requires Invariant(rule, a) && i < |a.table| && Live(a.table[i])
    requires Untouched(rule, a, events, i)
    ensures Live(Run(rule, a, events).table[i])
       <==> a.tick + Flushes(events) - a.born[i] < ARP_ENTRY_MAX_AGE || !AgesCorrectly(rule, a.table[i].time)
    decreases |events|
  {
    assert SlotInvariant(rule, a, i);
    if events != [] {
      var b := Step(rule, a, events[0]);
      StepKeepsInvariant(rule, a, events[0]);
      if events[0].Flush? {
        FlushVerdict(rule, a, i);
      }
      if Live(b.table[i]) {
        EntryLifetime(rule, b, events[1..], i);
      } else {
        FreedStaysFree(rule, b, events[1..], i);
      }
    }
  }

  /** Under the intended age no stamp is special. */
  lemma ModuloAgesEveryStamp(a: Aged, events: seq<Event>, i: nat)
    requires Invariant(Modulo256, a) && i < |a.table| && Live(a.table[i]) && a.born[i] == a.tick
    requires Untouched(Modulo256, a, events, i)
    ensures Live(Run(Modulo256, a, events).table[i]) <==> Flushes(events) < ARP_ENTRY_MAX_AGE
  {
    EntryLifetime(Modulo256, a, events, i);
  }

  // ---------- eviction ----------

  /** The entry is among the oldest, and every earlier slot is strictly younger. */
  ghost predicate FirstOfTheOldest(a: Aged, v: nat)
    requires WellShaped(a) && v < |a.table|
  {
    && (forall j :: 0 <= j < |a.born| ==> a.born[v] <= a.born[j])
    && (forall j :: 0 <= j < v ==> a.born[v] < a.born[j])
  }

  /** The first slot of the smallest stamp among the first `n`. */
  function SmallestStamp(table: seq<Entry>, n: nat): (v: nat)
    requires 0 < n <= |table|
    ensures v < n
    ensures forall j :: 0 <= j < n ==> table[v].time <= table[j].time
    ensures forall j :: 0 <= j < v ==> table[v].time < table[j].time
  {
    if n == 1 then 0
    else
      var v := SmallestStamp(table, n - 1);
      if table[n - 1].time < table[v].time then n - 1 else v
  }

  /** What the scan as written picks: the first smallest stamp if it lies below the clock, else slot 0. */
  lemma WrittenChoice(table: seq<Entry>, now: byte)
    requires 0 < |table|
    ensures Oldest(AsWritten, table, now, |table|)
         == var v := SmallestStamp(table, |table|); if table[v].time < now then v else 0
  {
    var o, v := Oldest(AsWritten, table, now, |table|), SmallestStamp(table, |table|);
    assert Age(AsWritten, now, table[v].time) <= MaxAge(AsWritten, table, now, |table|);
    if table[v].time < now {
      assert table[o].time == table[v].time;
    }
  }

  /** The round of the 8-bit clock in which a slot was stamped. */
  function Round(a: Aged, j: nat): (r: nat)
    requires WellShaped(a) && j < |a.table|
  {
    a.born[j] / 0x100
  }

  /** Stamped no later: in an earlier round, or in the same one at no greater stamp. */
  predicate NoLater(a: Aged, i: nat, j: nat)
    requires WellShaped(a) && i < |a.table| && j < |a.table|
  {
    Round(a, i) < Round(a, j) || (Round(a, i) == Round(a, j) && a.table[i].time <= a.table[j].time)
  }

  /**
   * When the scan as written is right: no entry was stamped in an earlier round of the clock than the
   * one of smallest stamp, if that stamp lies below the clock; if none does, none was stamped in an
   * earlier round than slot 0, nor at a smaller stamp in the same round.
   */
  ghost predicate RoundsAgree(a: Aged)
    requires WellShaped(a)
  {
    var v := SmallestStamp(a.table, |a.table|);
    if a.table[v].time < a.now then forall j :: 0 <= j < |a.table| ==> Round(a, v) <= Round(a, j)
    else forall j :: 0 <= j < |a.table| ==> NoLater(a, 0, j)
  }

  /**
   * Exactly when the slot given up is the first among the truly oldest: always under the intended age,
   * and as written when the rounds agree.
   */
  lemma EvictsFirstOfTheOldest(rule: AgeRule, a: Aged)
    requires Invariant(rule, a) && Full(a.table)
    ensures FirstOfTheOldest(a, Oldest(rule, a.table, a.now, |a.table|)) <==> rule.Modulo256? || RoundsAgree(a)
  {
    if rule.Modulo256? {
      ModuloEviction(a);
    } else {
      WrittenEviction(a);
    }
  }

  lemma ModuloEviction(a: Aged)
    requires Invariant(Modulo256, a) && Full(a.table)
    ensures FirstOfTheOldest(a, Oldest(Modulo256, a.table, a.now, |a.table|))
  {
    forall j | 0 <= j < |a.table|
      ensures Age(Modulo256, a.now, a.table[j].time) == a.tick - a.born[j]
    {
      assert SlotInvariant(Modulo256, a, j);
      AgeNearBirth(Modulo256, a.born[j], a.tick);
    }
    var v := Oldest(Modulo256, a.table, a.now, |a.table|);
    forall j | 0 <= j < |a.table|
      ensures a.born[v] <= a.born[j] && (j < v ==> a.born[v] < a.born[j])
    {
      assert SlotInvariant(Modulo256, a, j) && SlotInvariant(Modulo256, a, v);
      assert Age(Modulo256, a.now, a.table[v].time) >= Age(Modulo256, a.now, a.table[j].time);
    }
  }

  lemma NoLaterIsOlder(a: Aged, i: nat, j: nat)
    requires Invariant(AsWritten, a) && i < |a.table| && j < |a.table|
    ensures a.born[i] <= a.born[j] <==> NoLater(a, i, j)
    ensures a.table[i].time < a.table[j].time ==> a.born[i] != a.born[j]
  {
    assert SlotInvariant(AsWritten, a, i) && SlotInvariant(AsWritten, a, j);
    ByRoundThenStamp(a.born[i], a.born[j]);
  }

  lemma WrittenEviction(a: Aged)
    requires Invariant(AsWritten, a)
    ensures FirstOfTheOldest(a, Oldest(AsWritten, a.table, a.now, |a.table|)) <==> RoundsAgree(a)
  {
    var o := Oldest(AsWritten, a.table, a.now, |a.table|);
    WrittenChoice(a.table, a.now);
    forall j | 0 <= j < |a.table|
      ensures a.born[o] <= a.born[j] <==> NoLater(a, o, j)
      ensures a.table[o].time < a.table[j].time ==> a.born[o] != a.born[j]
    {
      NoLaterIsOlder(a, o, j);
    }
    PickedIsFirst(a, o);
  }

  lemma PickedIsFirst(a: Aged, o: nat)
    requires WellShaped(a)
    requires o == var v := SmallestStamp(a.table, |a.table|); if a.table[v].time < a.now then v else 0
    requires forall j :: 0 <= j < |a.table| ==> (a.born[o] <= a.born[j] <==> NoLater(a, o, j))
    requires forall j :: 0 <= j < |a.table| && a.table[o].time < a.table[j].time ==> a.born[o] != a.born[j]
    ensures FirstOfTheOldest(a, o) <==> RoundsAgree(a)
  {
  }

  lemma ByRoundThenStamp(x: nat, y: nat)
    ensures x <= y <==> x / 0x100 < y / 0x100 || (x / 0x100 == y / 0x100 && x % 0x100 <= y % 0x100)
  {
    var p, q := x / 0x100, y / 0x100;
    assert x == 0x100 * p + x % 0x100 && y == 0x100 * q + y % 0x100;
  }

  /**
   * The same from stamps and clock alone: no stamp is above the clock; or slot 0's is, and every other
   * equals the clock or is no smaller than slot 0's.
   */
  predicate StampsAgree(table: seq<Entry>, now: byte)
    requires 0 < |table|
  {
    || (forall j :: 0 <= j < |table| ==> table[j].time <= now)
    || (table[0].time > now && forall j :: 0 <= j < |table| ==>
          table[j].time == now || table[0].time <= table[j].time)
  }

  /** While no entry is 256 ticks old, stamps and clock alone decide whether the slot given up is right. */
  lemma EvictionWithinOneRound(a: Aged)
    requires Invariant(AsWritten, a)
    requires forall j :: 0 <= j < |a.table| ==> a.tick - a.born[j] < 0x100
    ensures FirstOfTheOldest(a, Oldest(AsWritten, a.table, a.now, |a.table|)) <==> StampsAgree(a.table, a.now)
  {
    var q := a.tick / 0x100;
    WrittenEviction(a);
    forall j | 0 <= j < |a.table|
      ensures Round(a, j) == if a.table[j].time <= a.now then q else q - 1
    {
      assert SlotInvariant(AsWritten, a, j);
      StampWithinOneRound(a.born[j], a.tick);
    }
    RoundsFromStamps(a, q);
  }

  lemma RoundsFromStamps(a: Aged, q: int)
    requires WellShaped(a)
    requires forall j :: 0 <= j < |a.table| ==> Round(a, j) == if a.table[j].time <= a.now then q else q - 1
    ensures RoundsAgree(a) <==> StampsAgree(a.table, a.now)
  {
    var v := SmallestStamp(a.table, |a.table|);
    if a.table[v].time < a.now {
      assert forall j :: 0 <= j < |a.table| ==> (Round(a, v) <= Round(a, j) <==> a.table[j].time <= a.now);
    } else {
      forall j | 0 <= j < |a.table|
        ensures NoLater(a, 0, j) <==> if a.table[0].time <= a.now then a.table[j].time <= a.now
                                      else a.table[j].time == a.now || a.table[0].time <= a.table[j].time
      {
        assert a.table[j].time >= a.now && a.table[0].time >= a.now;
      }
    }
  }

  lemma StampWithinOneRound(born: nat, tick: nat)
    requires born <= tick < born + 0x100
    ensures tick - born <= tick % 0x100
       ==> born / 0x100 == tick / 0x100 && born % 0x100 == tick % 0x100 - (tick - born)
    ensures tick - born > tick % 0x100
       ==> born / 0x100 == tick / 0x100 - 1 && born % 0x100 > tick % 0x100
  {
    var q := tick / 0x100;
    assert tick == 0x100 * q + tick % 0x100;
    if tick - born <= tick % 0x100 {
      assert born == 0x100 * q + (tick % 0x100 - (tick - born));
    } else {
      assert born == 0x100 * (q - 1) + (0x100 + tick % 0x100 - (tick - born));
    }
  }

  // ---------- a run that ends in the wrong eviction ----------

  function Host(k: nat): (ip: Ip)
    requires k < 0xFF
  {
    [10, 0, 0, k + 1]
  }

  function Card(k: nat): (mac: Mac)
    requires k < 0xFF
  {
    [2, 0, 0, 0, 0, k]
  }

  function Learns(n: nat): (r: seq<Event>)
    requires n < 0xFF
  {
    if n == 0 then [] else Learns(n - 1) + [Learn(Host(n - 1), Card(n - 1))]
  }

  function FilledSlot(i: nat, k: nat, born: byte): (e: Entry)
    requires i < ARP_TABLE_SIZE
  {
    if i < k then Entry(born, Card(i), Host(i)) else Entry(0, NO_MAC, EMPTY_IP)
  }

  function FilledTable(k: nat, born: byte): (r: seq<Entry>)
    ensures |r| == ARP_TABLE_SIZE && forall i :: 0 <= i < |r| ==> r[i] == FilledSlot(i, k, born)
  {
    seq(ARP_TABLE_SIZE, i requires 0 <= i < ARP_TABLE_SIZE => FilledSlot(i, k, born))
  }

  function FilledBorn(k: nat, born: byte): (r: seq<nat>)
    ensures |r| == ARP_TABLE_SIZE && forall i :: 0 <= i < |r| ==> r[i] == if i < k then born else 0
  {
    seq(ARP_TABLE_SIZE, i requires 0 <= i < ARP_TABLE_SIZE => if i < k then born else 0)
  }

  /** Ten slots of which the first `k` hold hosts 0 to k - 1, all learned at tick `born`; now it is `tick`. */
  function Filled(k: nat, born: byte, tick: nat): (a: Aged)
  {
    Aged(tick % 0x100, FilledTable(k, born), tick, FilledBorn(k, born))
  }

  lemma FilledInvariant(k: nat, born: byte, tick: nat)
    requires k <= ARP_TABLE_SIZE && born <= tick && born > 0xFF - ARP_ENTRY_MAX_AGE
    ensures Invariant(AsWritten, Filled(k, born, tick))
  {
    var a := Filled(k, born, tick);
    forall i | 0 <= i < |a.table| ensures SlotInvariant(AsWritten, a, i) {
    }
  }

  /** A host not yet in the table takes the first free slot. */
  lemma LearnsIntoFreeSlot(k: nat, born: byte, tick: nat)
    requires k < ARP_TABLE_SIZE
    ensures var a := Filled(k, born, tick);
            Step(AsWritten, a, Learn(Host(k), Card(k)))
            == a.(table := a.table[k := Entry(a.now, Card(k), Host(k))], born := a.born[k := tick])
  {
    var a := Filled(k, born, tick);
    assert forall i :: 0 <= i < |a.table| ==> a.table[i].ip != Host(k);
    assert a.table[k].ip == EMPTY_IP;
    assert forall i :: 0 <= i < k ==> a.table[i].ip != EMPTY_IP;
  }

  lemma FilledNext(k: nat, born: byte)
    requires k < ARP_TABLE_SIZE
    ensures Step(AsWritten, Filled(k, born, born), Learn(Host(k), Card(k))) == Filled(k + 1, born, born)
  {
    LearnsIntoFreeSlot(k, born, born);
    assert Filled(k + 1, born, born).table == Filled(k, born, born).table[k := Entry(born, Card(k), Host(k))];
    assert Filled(k + 1, born, born).born == Filled(k, born, born).born[k := born];
  }

  lemma EmptyAt(born: byte)
    ensures Run(AsWritten, Boot(), Ticks(born)) == Filled(0, born, born)
  {
    assert forall i :: 0 <= i < ARP_TABLE_SIZE ==> SlotInvariant(AsWritten, Boot(), i);
    QuietFlushes(AsWritten, Boot(), born);
    assert Boot().table == Filled(0, born, born).table && Boot().born == Filled(0, born, born).born;
  }

  lemma {:induction false} FillsUp(k: nat, born: byte)
    requires k <= ARP_TABLE_SIZE
    ensures Run(AsWritten, Boot(), Ticks(born) + Learns(k)) == Filled(k, born, born)
  {
    if k == 0 {
      assert Ticks(born) + Learns(0) == Ticks(born);
      EmptyAt(born);
    } else {
      FillsUp(k - 1, born);
      var learn := Learn(Host(k - 1), Card(k - 1));
      RunThen(AsWritten, Boot(), Ticks(born) + Learns(k - 1), learn);
      assert Ticks(born) + Learns(k) == Ticks(born) + Learns(k - 1) + [learn];
      FilledNext(k - 1, born);
    }
  }

  /** All slots but the last learned at tick `first`, the last `gap` flushes later, and `wait` more flushes. */
  function AllThenOne(last: nat, first: byte, gap: nat, wait: nat): (r: seq<Event>)
    requires last < ARP_TABLE_SIZE
  {
    Ticks(first) + Learns(last) + Ticks(gap) + [Learn(Host(last), Card(last))] + Ticks(wait)
  }

  /** The first stamps are too late to expire, the clock wraps before the last one, and has not caught up. */
  predicate Wraps(first: byte, gap: nat, wait: nat)
  {
    && first > 0xFF - ARP_ENTRY_MAX_AGE
    && first + gap >= 0x100 && 0 < wait < ARP_ENTRY_MAX_AGE && gap + wait <= 0x100
  }

  /** The state such a run leaves. */
  ghost predicate LastIsYoung(a: Aged, last: nat, first: byte, gap: nat, wait: nat)
  {
    && WellShaped(a) && |a.table| == last + 1
    && a.now == (first + gap + wait) % 0x100
    && (forall j: nat :: j < last ==> j < 0xFF && a.table[j] == Entry(first, Card(j), Host(j)) && a.born[j] == first)
    && last < 0xFE && a.table[last] == Entry((first + gap) % 0x100, Card(last), Host(last))
    && a.born[last] == first + gap
  }

  lemma FilledWaits(last: nat, first: byte, gap: nat)
    requires last < ARP_TABLE_SIZE && first > 0xFF - ARP_ENTRY_MAX_AGE
    ensures Run(AsWritten, Filled(last, first, first), Ticks(gap)) == Filled(last, first, first + gap)
  {
    FilledInvariant(last, first, first);
    QuietFlushes(AsWritten, Filled(last, first, first), gap);
  }

  lemma GapPasses(last: nat, first: byte, gap: nat, wait: nat)
    requires last == ARP_TABLE_SIZE - 1 && Wraps(first, gap, wait)
    ensures Run(AsWritten, Boot(), Ticks(first) + Learns(last) + Ticks(gap)) == Filled(last, first, first + gap)
  {
    FillsUp(last, first);
    RunConcat(AsWritten, Boot(), Ticks(first) + Learns(last), Ticks(gap));
    FilledWaits(last, first, gap);
  }

  /** The state just after the last slot has been filled. */
  function LastFilled(last: nat, first: byte, tick: nat): (a: Aged)
    requires last < ARP_TABLE_SIZE
  {
    var a := Filled(last, first, tick);
    a.(table := a.table[last := Entry(a.now, Card(last), Host(last))], born := a.born[last := tick])
  }

  lemma LastIsLearned(last: nat, first: byte, gap: nat, wait: nat)
    requires last == ARP_TABLE_SIZE - 1 && Wraps(first, gap, wait)
    ensures Run(AsWritten, Boot(), Ticks(first) + Learns(last) + Ticks(gap) + [Learn(Host(last), Card(last))])
         == LastFilled(last, first, first + gap)
  {
    GapPasses(last, first, gap, wait);
    RunThen(AsWritten, Boot(), Ticks(first) + Learns(last) + Ticks(gap), Learn(Host(last), Card(last)));
    LearnsIntoFreeSlot(last, first, first + gap);
  }

  lemma LastFilledInvariant(last: nat, first: byte, tick: nat)
    requires last < ARP_TABLE_SIZE && first <= tick && first > 0xFF - ARP_ENTRY_MAX_AGE
    ensures Invariant(AsWritten, LastFilled(last, first, tick))
  {
    FilledInvariant(last, first, tick);
    LearnsIntoFreeSlot(last, first, tick);
    StepKeepsInvariant(AsWritten, Filled(last, first, tick), Learn(Host(last), Card(last)));
  }

  lemma LastFilledIsQuiet(last: nat, first: byte, tick: nat, wait: nat)
    requires last < ARP_TABLE_SIZE && first > 0xFF - ARP_ENTRY_MAX_AGE && wait < ARP_ENTRY_MAX_AGE
    ensures Quiet(AsWritten, LastFilled(last, first, tick), wait)
  {
  }

  lemma AllThenOneRun(last: nat, first: byte, gap: nat, wait: nat)
    requires last == ARP_TABLE_SIZE - 1 && Wraps(first, gap, wait)
    ensures Run(AsWritten, Boot(), AllThenOne(last, first, gap, wait))
         == Later(LastFilled(last, first, first + gap), wait)
  {
    var learned := Ticks(first) + Learns(last) + Ticks(gap) + [Learn(Host(last), Card(last))];
    LastIsLearned(last, first, gap, wait);
    RunConcat(AsWritten, Boot(), learned, Ticks(wait));
    WaitPasses(last, first, first + gap, wait);
  }

  lemma LastIsYoungAtEnd(last: nat, first: byte, gap: nat, wait: nat)
    requires last == ARP_TABLE_SIZE - 1 && Wraps(first, gap, wait)
    ensures LastIsYoung(Run(AsWritten, Boot(), AllThenOne(last, first, gap, wait)), last, first, gap, wait)
  {
    AllThenOneRun(last, first, gap, wait);
    LastFilledIsYoung(last, first, gap, wait);
  }

  lemma LastFilledIsYoung(last: nat, first: byte, gap: nat, wait: nat)
    requires last == ARP_TABLE_SIZE - 1 && Wraps(first, gap, wait)
    ensures LastIsYoung(Later(LastFilled(last, first, first + gap), wait), last, first, gap, wait)
  {
  }

  lemma WaitPasses(last: nat, first: byte, tick: nat, wait: nat)
    requires last < ARP_TABLE_SIZE && first <= tick && first > 0xFF - ARP_ENTRY_MAX_AGE && wait < ARP_ENTRY_MAX_AGE
    ensures Run(AsWritten, LastFilled(last, first, tick), Ticks(wait)) == Later(LastFilled(last, first, tick), wait)
  {
    LastFilledInvariant(last, first, tick);
    LastFilledIsQuiet(last, first, tick, wait);
    QuietFlushes(AsWritten, LastFilled(last, first, tick), wait);
  }

  /**
   * Real runs from boot with the wrong eviction: for example 250 flushes, nine hosts learned, 9 flushes, a
   * tenth host, 2 flushes. A new host then takes the slot of the youngest, and the others all stay.
   */
  lemma WrappedEvictionTakesTheYoungest(last: nat, first: byte, gap: nat, wait: nat)
    requires last == ARP_TABLE_SIZE - 1 && Wraps(first, gap, wait)
    ensures var a := Run(AsWritten, Boot(), AllThenOne(last, first, gap, wait));
            && LastIsYoung(a, last, first, gap, wait) && Full(a.table)
            && forall j: nat :: j <= last ==> Lookup(a.table, Host(j)) == Some(Card(j))
    ensures var learn := Learn(Host(last + 1), Card(last + 1));
            var b := Run(AsWritten, Boot(), AllThenOne(last, first, gap, wait) + [learn]);
            forall j: nat :: j <= last + 1 ==> Lookup(b.table, Host(j)) == if j == last then None else Some(Card(j))
  {
    var a := Run(AsWritten, Boot(), AllThenOne(last, first, gap, wait));
    LastIsYoungAtEnd(last, first, gap, wait);
    RunThen(AsWritten, Boot(), AllThenOne(last, first, gap, wait), Learn(Host(last + 1), Card(last + 1)));
    HostsInOrder(a, last, first, gap, wait);
    forall j: nat | j <= last + 1
      ensures j <= last ==> Lookup(a.table, Host(j)) == Some(Card(j))
      ensures Lookup(Updated(AsWritten, a.table, a.now, Host(last + 1), Card(last + 1)), Host(j))
           == if j == last then None else Some(Card(j))
    {
      LookupsAround(a, last, first, gap, wait, j);
    }
  }

  /** One of them, so that the claim of eviction order is false of the code. */
  lemma SomeRunEvictsTheYoungest()
    ensures exists events: seq<Event> ::
              var a := Run(AsWritten, Boot(), events);
              var v := Oldest(AsWritten, a.table, a.now, |a.table|);
              Full(a.table) && forall j: nat :: j < |a.table| && j != v ==> a.born[j] < a.born[v]
  {
    var last, first, gap, wait := ARP_TABLE_SIZE - 1, 250, 9, 2;
    var events := AllThenOne(last, first, gap, wait);
    var a := Run(AsWritten, Boot(), events);
    LastIsYoungAtEnd(last, first, gap, wait);
    HostsInOrder(a, last, first, gap, wait);
    YoungIsEvicted(a, last, first, gap, wait);
    var v := Oldest(AsWritten, a.table, a.now, |a.table|);
    assert a.table[v].ip in {Host(last)};
    assert v == last;
  }

  lemma HostsInOrder(a: Aged, last: nat, first: byte, gap: nat, wait: nat)
    requires LastIsYoung(a, last, first, gap, wait)
    ensures Full(a.table) && DistinctKeys(a.table)
    ensures forall j: nat :: j <= last ==> a.table[j].ip == Host(j) && a.table[j].mac == Card(j)
    ensures Host(last + 1) !in Keys(a.table)
  {
    assert forall j: nat :: j <= last ==> a.table[j].ip == Host(j);
    assert SlotOf(a.table, Host(last + 1)) == |a.table|;
  }

  lemma OnceAround(tick: nat)
    requires 0x100 <= tick < 0x200
    ensures tick % 0x100 == tick - 0x100
  {
  }

  lemma YoungIsEvicted(a: Aged, last: nat, first: byte, gap: nat, wait: nat)
    requires LastIsYoung(a, last, first, gap, wait) && Wraps(first, gap, wait)
    ensures Evicted(AsWritten, a.table, a.now, Host(last + 1)) == {Host(last)}
  {
    HostsInOrder(a, last, first, gap, wait);
    WrittenChoice(a.table, a.now);
    var v := SmallestStamp(a.table, |a.table|);
    OnceAround(first + gap);
    OnceAround(first + gap + wait);
    assert a.table[v].time <= a.table[last].time;
  }

  lemma LookupsAround(a: Aged, last: nat, first: byte, gap: nat, wait: nat, j: nat)
    requires LastIsYoung(a, last, first, gap, wait) && Wraps(first, gap, wait) && j <= last + 1
    ensures j <= last ==> Lookup(a.table, Host(j)) == Some(Card(j))
    ensures Lookup(Updated(AsWritten, a.table, a.now, Host(last + 1), Card(last + 1)), Host(j))
         == if j == last then None else Some(Card(j))
  {
    HostsInOrder(a, last, first, gap, wait);
    YoungIsEvicted(a, last, first, gap, wait);
    if j <= last {
      SlotIsUnique(a.table, j);
    }
    LookupAfterUpdate(AsWritten, a.table, a.now, Host(last + 1), Card(last + 1), Host(j));
  }
}
