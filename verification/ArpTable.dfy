/**
 * The ARP table: ten slots updated in place, a free slot marked by the address 0.0.0.0, an 8-bit
 * clock, and eviction of the oldest entry. Specification functions first, then the table itself.
 */
module ArpTable {
  import opened Machine
  import opened Addresses

  const ARP_TABLE_SIZE := 10
  const ARP_ENTRY_MAX_AGE := 120

  datatype Entry = Entry(time: byte, mac: Mac, ip: Ip)

  /**
   * How an age is computed. The code subtracts two uint8_t values as ints, so an age goes negative
   * once the clock has wrapped; the intended age is the difference modulo 256.
   */
  datatype AgeRule = AsWritten | Modulo256

  function Age(rule: AgeRule, now: byte, stamp: byte): (r: int)
    ensures rule.Modulo256? ==> 0 <= r < 0x100
  {
    if rule.AsWritten? || stamp <= now then now - stamp else now - stamp + 0x100
  }

  predicate Live(e: Entry)
  {
    !IsEmpty(e.ip)
  }

  // ---------- slots ----------

  /** The first slot holding an address, or the table length. */
  function SlotOf(table: seq<Entry>, ip: Ip): (i: nat)
    ensures i <= |table|
    ensures i < |table| ==> table[i].ip == ip
    ensures forall j :: 0 <= j < i ==> table[j].ip != ip
  {
    if table == [] then 0
    else if table[0].ip == ip then 0
    else
      var i := 1 + SlotOf(table[1..], ip);
      assert forall j :: 0 < j < i ==> table[j] == table[1..][j - 1];
      i
  }

  /** The first slot of greatest positive age among the first `n`, or slot 0 when no age is positive. */
  function Oldest(rule: AgeRule, table: seq<Entry>, now: byte, n: nat): (v: nat)
    requires 0 < |table| && n <= |table|
    ensures v < |table| && (v == 0 || v < n)
    ensures MaxAge(rule, table, now, n) > 0 ==> v < n && Age(rule, now, table[v].time) == MaxAge(rule, table, now, n)
    ensures MaxAge(rule, table, now, n) > 0 ==>
              forall j :: 0 <= j < v ==> Age(rule, now, table[j].time) < Age(rule, now, table[v].time)
    ensures MaxAge(rule, table, now, n) == 0 ==> v == 0
  {
    if n == 0 then 0
    else if Age(rule, now, table[n - 1].time) > MaxAge(rule, table, now, n - 1) then n - 1
    else Oldest(rule, table, now, n - 1)
  }

  function MaxAge(rule: AgeRule, table: seq<Entry>, now: byte, n: nat): (r: byte)
    requires n <= |table|
    ensures forall j :: 0 <= j < n ==> Age(rule, now, table[j].time) <= r
  {
    if n == 0 then 0
    else
      var rest := MaxAge(rule, table, now, n - 1);
      var age := Age(rule, now, table[n - 1].time);
      if age > rest then age else rest
  }

  /** Where `arp_update` writes: the address's own slot, else a free one, else the oldest. */
  function Target(rule: AgeRule, table: seq<Entry>, now: byte, ip: Ip): (i: nat)
    requires 0 < |table|
    ensures i < |table|
  {
    if !IsEmpty(ip) && SlotOf(table, ip) < |table| then SlotOf(table, ip)
    else if SlotOf(table, EMPTY_IP) < |table| then SlotOf(table, EMPTY_IP)
    else Oldest(rule, table, now, |table|)
  }

  function Updated(rule: AgeRule, table: seq<Entry>, now: byte, ip: Ip, mac: Mac): (r: seq<Entry>)
    requires 0 < |table|
    ensures |r| == |table|
  {
    table[Target(rule, table, now, ip) := Entry(now, mac, ip)]
  }

  predicate Expired(rule: AgeRule, e: Entry, now: byte)
  {
    Live(e) && Age(rule, now, e.time) >= ARP_ENTRY_MAX_AGE
  }

  function Swept(rule: AgeRule, e: Entry, now: byte): (r: Entry)
  {
    if Expired(rule, e, now) then e.(ip := EMPTY_IP) else e
  }

  function Ticked(now: byte): (r: byte)
  {
    if now == 0xFF then 0 else now + 1
  }

  /** `arp_flush`: one tick, then every expired entry is freed. */
  function Flushed(rule: AgeRule, table: seq<Entry>, now: byte): (r: seq<Entry>)
    ensures |r| == |table|
    ensures forall i :: 0 <= i < |table| ==> r[i] == Swept(rule, table[i], Ticked(now))
  {
    seq(|table|, i requires 0 <= i < |table| => Swept(rule, table[i], Ticked(now)))
  }

  /** An address just learned is found, in the slot it was written to, whatever the table held. */
  lemma LearnedIsFound(rule: AgeRule, table: seq<Entry>, now: byte, ip: Ip, mac: Mac)
    requires 0 < |table| && !IsEmpty(ip)
    ensures var after := Updated(rule, table, now, ip, mac);
            SlotOf(after, ip) < |table| && after[SlotOf(after, ip)].mac == mac
  {
    var t := Target(rule, table, now, ip);
    var after := Updated(rule, table, now, ip, mac);
    assert after[t].ip == ip;
    assert forall j :: 0 <= j < t ==> after[j] == table[j];
  }

  // ---------- the table as a bounded map ----------

  ghost predicate DistinctKeys(table: seq<Entry>)
  {
    forall i, j :: 0 <= i < j < |table| && Live(table[i]) && Live(table[j]) ==> table[i].ip != table[j].ip
  }

  ghost function Keys(table: seq<Entry>): (r: set<Ip>)
    ensures EMPTY_IP !in r
    ensures forall ip: Ip :: ip in r <==> ip != EMPTY_IP && SlotOf(table, ip) < |table|
  {
    set i | 0 <= i < |table| && Live(table[i]) :: table[i].ip
  }

  ghost function Mapping(table: seq<Entry>): (r: map<Ip, Mac>)
  {
    map ip | ip in Keys(table) :: table[SlotOf(table, ip)].mac
  }

  ghost predicate Full(table: seq<Entry>)
  {
    forall i :: 0 <= i < |table| ==> Live(table[i])
  }

  lemma SlotIsUnique(table: seq<Entry>, i: nat)
    requires DistinctKeys(table) && i < |table| && Live(table[i])
    ensures SlotOf(table, table[i].ip) == i
  {
  }

  lemma UpdateKeepsKeysDistinct(rule: AgeRule, table: seq<Entry>, now: byte, ip: Ip, mac: Mac)
    requires DistinctKeys(table) && 0 < |table|
    ensures DistinctKeys(Updated(rule, table, now, ip, mac))
  {
  }

  lemma FlushKeepsKeysDistinct(rule: AgeRule, table: seq<Entry>, now: byte)
    requires DistinctKeys(table)
    ensures DistinctKeys(Flushed(rule, table, now))
  {
  }

  /** The mapping an update gives up: that of the evicted entry, and only from a full table. */
  ghost function Evicted(rule: AgeRule, table: seq<Entry>, now: byte, ip: Ip): (r: set<Ip>)
    requires 0 < |table|
  {
    if Full(table) && ip !in Keys(table) then {table[Oldest(rule, table, now, |table|)].ip} else {}
  }

  /** What an update does to the slot of each address. */
  lemma SlotAfterUpdate(rule: AgeRule, table: seq<Entry>, now: byte, ip: Ip, mac: Mac, key: Ip)
    requires DistinctKeys(table) && 0 < |table| && !IsEmpty(key)
    ensures var t, after := Target(rule, table, now, ip), Updated(rule, table, now, ip, mac);
            SlotOf(after, key) == if key == ip then t
                                  else if SlotOf(table, key) == t then |table|
                                  else SlotOf(table, key)
  {
    var t, after := Target(rule, table, now, ip), Updated(rule, table, now, ip, mac);
    UpdateKeepsKeysDistinct(rule, table, now, ip, mac);
    if key == ip {
      SlotIsUnique(after, t);
    } else {
      var s := SlotOf(table, key);
      if s < |table| && s != t {
        SlotIsUnique(after, s);
      } else if s == t {
        assert forall j :: 0 <= j < |table| ==> after[j].ip != key;
      }
    }
  }

  lemma EvictedIsOverwritten(rule: AgeRule, table: seq<Entry>, now: byte, ip: Ip, key: Ip)
    requires DistinctKeys(table) && 0 < |table| && !IsEmpty(key) && key != ip
    ensures key in Evicted(rule, table, now, ip) <==> SlotOf(table, key) == Target(rule, table, now, ip)
  {
    var t := Target(rule, table, now, ip);
    FullHasNoFreeSlot(table);
    if ip in Keys(table) || !Full(table) {
      assert Evicted(rule, table, now, ip) == {};
      assert table[t].ip == ip || IsEmpty(table[t].ip);
    } else {
      assert t == Oldest(rule, table, now, |table|);
      SlotIsUnique(table, t);
    }
  }

  lemma FullHasNoFreeSlot(table: seq<Entry>)
    ensures Full(table) <==> SlotOf(table, EMPTY_IP) == |table|
  {
    var f := SlotOf(table, EMPTY_IP);
    assert f < |table| ==> !Live(table[f]);
  }

  ghost function Lookup(table: seq<Entry>, key: Ip): (r: Option<Mac>)
    ensures r == if key in Mapping(table) then Some(Mapping(table)[key]) else None
  {
    if IsEmpty(key) || SlotOf(table, key) == |table| then None else Some(table[SlotOf(table, key)].mac)
  }

  lemma LookupAfterUpdate(rule: AgeRule, table: seq<Entry>, now: byte, ip: Ip, mac: Mac, key: Ip)
    requires DistinctKeys(table) && 0 < |table|
    ensures Lookup(Updated(rule, table, now, ip, mac), key)
         == if IsEmpty(key) then None
            else if key == ip then Some(mac)
            else if key in Evicted(rule, table, now, ip) then None
            else Lookup(table, key)
  {
    if !IsEmpty(key) {
      SlotAfterUpdate(rule, table, now, ip, mac, key);
      if key != ip {
        EvictedIsOverwritten(rule, table, now, ip, key);
      }
    }
  }

  /** A map read off key by key. */
  lemma MapFromLookups(before: map<Ip, Mac>, gone: set<Ip>, ip: Ip, mac: Mac, after: map<Ip, Mac>)
    requires EMPTY_IP !in before && EMPTY_IP !in after
    requires ip in gone ==> IsEmpty(ip)
    requires !IsEmpty(ip) ==> ip in after && after[ip] == mac
    requires forall key: Ip :: key in gone ==> key !in after
    requires forall key: Ip :: key !in gone && key != ip ==> (key in after <==> key in before)
    requires forall key: Ip :: key !in gone && key != ip && key in before ==> after[key] == before[key]
    ensures after == if IsEmpty(ip) then before - gone else (before - gone)[ip := mac]
  {
  }

  lemma EvictsAtMostOne(rule: AgeRule, table: seq<Entry>, now: byte, ip: Ip)
    requires 0 < |table|
    ensures Evicted(rule, table, now, ip) <= Mapping(table).Keys
    ensures Evicted(rule, table, now, ip) != {} <==> Full(table) && ip !in Mapping(table)
    ensures |Evicted(rule, table, now, ip)| <= 1
  {
    var v := Oldest(rule, table, now, |table|);
    assert Full(table) ==> Live(table[v]);
  }

  lemma {:induction false} KeysBound(table: seq<Entry>)
    ensures |Keys(table)| <= |table|
  {
    if table == [] {
      assert Keys(table) == {};
    } else {
      var last := |table| - 1;
      KeysBound(table[..last]);
      forall ip: Ip | ip in Keys(table) && ip != table[last].ip ensures ip in Keys(table[..last]) {
        assert table[..last][SlotOf(table, ip)].ip == ip;
      }
      AddsAtMostOne(Keys(table), Keys(table[..last]), table[last].ip);
    }
  }

  lemma AddsAtMostOne(s: set<Ip>, t: set<Ip>, extra: Ip)
    requires s <= t + {extra}
    ensures |s| <= |t| + 1
  {
    if extra in s {
      assert s - {extra} <= t;
      SmallerSet(s - {extra}, t);
    } else {
      SmallerSet(s, t);
    }
  }

  lemma {:induction false} SmallerSet(s: set<Ip>, t: set<Ip>)
    requires s <= t
    ensures |s| <= |t|
    decreases |t|
  {
    if s != {} {
      var x :| x in s;
      SmallerSet(s - {x}, t - {x});
    }
  }

  lemma MappingSize(table: seq<Entry>)
    ensures |Mapping(table)| == |Keys(table)|
  {
    assert Mapping(table).Keys == Keys(table);
  }

  /** `arp_update` refines insertion into a map that never holds more entries than the table has slots. */
  lemma UpdateRefinesBoundedMap(rule: AgeRule, table: seq<Entry>, now: byte, ip: Ip, mac: Mac)
    requires DistinctKeys(table) && 0 < |table|
    ensures var kept := Mapping(table) - Evicted(rule, table, now, ip);
            Mapping(Updated(rule, table, now, ip, mac)) == if IsEmpty(ip) then kept else kept[ip := mac]
    ensures |Mapping(Updated(rule, table, now, ip, mac))| <= |table|
  {
    KeysBound(Updated(rule, table, now, ip, mac));
    MappingSize(Updated(rule, table, now, ip, mac));
    var after := Updated(rule, table, now, ip, mac);
    forall key: Ip
      ensures Lookup(after, key) == if IsEmpty(key) then None
                                    else if key == ip then Some(mac)
                                    else if key in Evicted(rule, table, now, ip) then None
                                    else Lookup(table, key)
    {
      LookupAfterUpdate(rule, table, now, ip, mac, key);
    }
    MapFromLookups(Mapping(table), Evicted(rule, table, now, ip), ip, mac, Mapping(after));
  }

  // ---------- the table itself ----------

  /** `arp_table` and `arp_time`. */
  class ArpCache {
    var time: byte
    const table: array<Entry>

    ghost predicate Valid()
      reads this
    {
      table.Length == ARP_TABLE_SIZE
    }

    /** Boot: static storage is zeroed, then `arp_init` clears every address. */
    constructor ()
      ensures Valid() && fresh(table)
      ensures time == 0
      ensures forall i :: 0 <= i < table.Length ==> table[i] == Entry(0, NO_MAC, EMPTY_IP)
    {
      time := 0;
      table := new Entry[ARP_TABLE_SIZE](_ => Entry(0, NO_MAC, EMPTY_IP));
    }

    /** `arp_init` frees every slot and leaves the clock alone. */
    method Init()
      requires Valid()
      modifies table
      ensures Valid() && time == old(time)
      ensures forall i :: 0 <= i < table.Length ==> table[i] == old(table[i]).(ip := EMPTY_IP)
      ensures Mapping(table[..]) == map[]
    {
      for i := 0 to table.Length
        invariant forall j :: 0 <= j < i ==> table[j] == old(table[j]).(ip := EMPTY_IP)
        invariant forall j :: i <= j < table.Length ==> table[j] == old(table[j])
      {
        table[i] := table[i].(ip := EMPTY_IP);
      }
    }

    method Update(ip: Ip, mac: Mac)
      requires Valid()
      modifies table
      ensures table[..] == Updated(AsWritten, old(table[..]), time, ip, mac)
    {
      ghost var before := table[..];
      var i := 0;
      while i < ARP_TABLE_SIZE
        invariant 0 <= i <= ARP_TABLE_SIZE && table[..] == before
        invariant IsEmpty(ip) || forall j :: 0 <= j < i ==> table[j].ip != ip
      {
        if !IsEmpty(table[i].ip) && Same(table[i].ip, ip) {
          assert SlotOf(before, ip) == i;
          table[i] := Entry(time, mac, table[i].ip);
          return;
        }
        i := i + 1;
      }
      i := 0;
      while i < ARP_TABLE_SIZE && !IsEmpty(table[i].ip)
        invariant 0 <= i <= ARP_TABLE_SIZE && table[..] == before
        invariant forall j :: 0 <= j < i ==> !IsEmpty(table[j].ip)
      {
        i := i + 1;
      }
      assert SlotOf(before, EMPTY_IP) == i;
      if i == ARP_TABLE_SIZE {
        i := OldestSlot();
      }
      table[i] := Entry(time, mac, ip);
    }

    /** The eviction scan: `max_aged_time` is a uint8_t, the compared difference an int. */
    method OldestSlot() returns (oldest: nat)
      requires Valid()
      ensures oldest == Oldest(AsWritten, table[..], time, table.Length)
    {
      var oldestAge: byte := 0;
      oldest := 0;
      for i := 0 to ARP_TABLE_SIZE
        invariant oldest == Oldest(AsWritten, table[..], time, i)
        invariant oldestAge == MaxAge(AsWritten, table[..], time, i)
      {
        if time - table[i].time > oldestAge {
          oldestAge := time - table[i].time;
          oldest := i;
        }
      }
    }

    method Flush() returns (again: bool)
      requires Valid()
      modifies this, table
      ensures time == Ticked(old(time))
      ensures table[..] == Flushed(AsWritten, old(table[..]), old(time))
      ensures again
    {
      ghost var before := table[..];
      time := if time == 0xFF then 0 else time + 1;
      for i := 0 to ARP_TABLE_SIZE
        invariant time == Ticked(old(time))
        invariant forall j :: 0 <= j < i ==> table[j] == Swept(AsWritten, before[j], time)
        invariant forall j :: i <= j < table.Length ==> table[j] == before[j]
      {
        if !IsEmpty(table[i].ip) && time - table[i].time >= ARP_ENTRY_MAX_AGE {
          table[i] := table[i].(ip := EMPTY_IP);
        }
      }
      assert table[..] == Flushed(AsWritten, before, old(time));
      again := true;
    }
  }
}
