/** The timer table as a plain sequence of timers, at most one for each callback. */
module Timers {
  import opened Machine

  /** Identity of a callback: the two the firmware sets, and any other. */
  datatype Callback = ArpFlush | DisplayStatus | Other(id: nat)

  datatype Timer = Timer(start: u32, interval: u32, callback: Callback)

  ghost predicate Distinct(ts: seq<Timer>)
  {
    forall i, j :: 0 <= i < j < |ts| ==> ts[i].callback != ts[j].callback
  }

  /** The position of a callback's timer, or the length when it has none. */
  function IndexOf(ts: seq<Timer>, c: Callback): (i: nat)
    ensures i <= |ts|
    ensures i < |ts| ==> ts[i].callback == c
    ensures forall j :: 0 <= j < i ==> ts[j].callback != c
  {
    IndexFrom(ts, c, 0)
  }

  function IndexFrom(ts: seq<Timer>, c: Callback, from: nat): (i: nat)
    requires from <= |ts|
    ensures from <= i <= |ts|
    ensures i < |ts| ==> ts[i].callback == c
    ensures forall j :: from <= j < i ==> ts[j].callback != c
    decreases |ts| - from
  {
    if from == |ts| || ts[from].callback == c then from else IndexFrom(ts, c, from + 1)
  }

  function Find(ts: seq<Timer>, c: Callback): (r: Option<Timer>)
  {
    if IndexOf(ts, c) < |ts| then Some(ts[IndexOf(ts, c)]) else None
  }

  function RemoveAt<T>(s: seq<T>, i: nat): (r: seq<T>)
    requires i < |s|
    ensures |r| == |s| - 1
    ensures forall j :: 0 <= j < |r| ==> r[j] == if j < i then s[j] else s[j + 1]
  {
    s[..i] + s[i + 1..]
  }

  /** `timer_clear` */
  function Cleared(ts: seq<Timer>, c: Callback): (r: seq<Timer>)
  {
    if IndexOf(ts, c) < |ts| then RemoveAt(ts, IndexOf(ts, c)) else ts
  }

  /** `timer_set`: the old entry goes, the new one is put in front. */
  function WithTimer(ts: seq<Timer>, c: Callback, interval: u32, now: u32): (r: seq<Timer>)
  {
    [Timer(now, interval, c)] + Cleared(ts, c)
  }

  /** `clock_time() - start` in 32 bits. */
  function Elapsed(now: u32, start: u32): (r: u32)
  {
    ToU32(now - start)
  }

  predicate Expired(t: Timer, now: u32)
  {
    Elapsed(now, t.start) >= t.interval
  }

  /** `start += interval` in 32 bits: the next period starts where this one ended. */
  function Advanced(t: Timer): (r: Timer)
  {
    t.(start := ToU32(t.start + t.interval))
  }

  /**
   * What one pass of `timer_periodic` leaves of the first `n` timers, and what it fired: timer `i`
   * is judged by its own clock reading, and if it fires `answers[i]` is what its callback returned.
   */
  function Kept(ts: seq<Timer>, clocks: seq<u32>, answers: seq<bool>, n: nat): (r: seq<Timer>)
    requires n <= |ts| && |ts| <= |clocks| && |ts| <= |answers|
    ensures |r| <= n
  {
    if n == 0 then []
    else
      var t, before := ts[n - 1], Kept(ts, clocks, answers, n - 1);
      if !Expired(t, clocks[n - 1]) then before + [t]
      else if answers[n - 1] then before + [Advanced(t)]
      else before
  }

  function Fired(ts: seq<Timer>, clocks: seq<u32>, answers: seq<bool>, n: nat): (r: seq<Callback>)
    requires n <= |ts| && |ts| <= |clocks| && |ts| <= |answers|
  {
    if n == 0 then []
    else if Expired(ts[n - 1], clocks[n - 1]) then Fired(ts, clocks, answers, n - 1) + [ts[n - 1].callback]
    else Fired(ts, clocks, answers, n - 1)
  }

  /** A walk in progress: its position in the sequence as it is now, that sequence, and what it fired. */
  datatype Walk = Walk(position: nat, timers: seq<Timer>, fired: seq<Callback>)

  /** The sequence after the timer at `k` has been judged at `clock`. */
  function Judged(now: seq<Timer>, k: nat, clock: u32, answer: bool): (r: seq<Timer>)
    requires k < |now|
  {
    if !Expired(now[k], clock) then now else if answer then now[k := Advanced(now[k])] else RemoveAt(now, k)
  }

  /** The walk after the timer at its position has been judged. */
  function NextStop(w: Walk, clock: u32, answer: bool): (r: Walk)
    requires w.position < |w.timers|
  {
    var t := w.timers[w.position];
    var fires := Expired(t, clock);
    Walk(if fires && !answer then w.position else w.position + 1,
         Judged(w.timers, w.position, clock, answer),
         if fires then w.fired + [t.callback] else w.fired)
  }

  /** The walk standing before original timer `i`. */
  function WalkBefore(ts: seq<Timer>, clocks: seq<u32>, answers: seq<bool>, i: nat): (w: Walk)
    requires i <= |ts| && |ts| <= |clocks| && |ts| <= |answers|
    ensures w.position + (|ts| - i) == |w.timers|
  {
    if i == 0 then Walk(0, ts, []) else NextStop(WalkBefore(ts, clocks, answers, i - 1), clocks[i - 1], answers[i - 1])
  }

  /** Walking and removing in place keeps, and fires, exactly what the pass says. */
  lemma {:induction false} WalkIsPass(ts: seq<Timer>, clocks: seq<u32>, answers: seq<bool>, i: nat)
    requires i <= |ts| && |ts| <= |clocks| && |ts| <= |answers|
    ensures var kept := Kept(ts, clocks, answers, i);
            WalkBefore(ts, clocks, answers, i) == Walk(|kept|, kept + ts[i..], Fired(ts, clocks, answers, i))
  {
    if i == 0 {
      assert ts[0..] == ts;
    } else {
      WalkIsPass(ts, clocks, answers, i - 1);
      var kept := Kept(ts, clocks, answers, i - 1);
      assert ts[i - 1..] == [ts[i - 1]] + ts[i..];
      JudgedInPlace(kept, ts[i - 1], ts[i..], clocks[i - 1], answers[i - 1]);
    }
  }

  lemma JudgedInPlace(kept: seq<Timer>, t: Timer, rest: seq<Timer>, clock: u32, answer: bool)
    ensures (kept + ([t] + rest))[|kept|] == t
    ensures Judged(kept + ([t] + rest), |kept|, clock, answer)
         == (if !Expired(t, clock) then kept + [t] else if answer then kept + [Advanced(t)] else kept) + rest
  {
    var now := kept + ([t] + rest);
    assert now[|kept|] == t;
    assert now == kept + [t] + rest;
    assert now[|kept| := Advanced(t)] == kept + [Advanced(t)] + rest;
    assert RemoveAt(now, |kept|) == kept + rest;
  }

  // ---------- what the operations keep ----------

  lemma RemoveKeepsDistinct(ts: seq<Timer>, i: nat)
    requires Distinct(ts) && i < |ts|
    ensures Distinct(RemoveAt(ts, i))
  {
  }

  /** Among distinct timers a callback is found wherever it is. */
  lemma IndexOfDistinct(ts: seq<Timer>, i: nat)
    requires Distinct(ts) && i < |ts|
    ensures IndexOf(ts, ts[i].callback) == i
  {
  }

  lemma ClearedFinds(ts: seq<Timer>, c: Callback, d: Callback)
    requires Distinct(ts)
    ensures Distinct(Cleared(ts, c))
    ensures Find(Cleared(ts, c), d) == if d == c then None else Find(ts, d)
  {
    var i, k := IndexOf(ts, c), IndexOf(ts, d);
    if i < |ts| {
      var after := RemoveAt(ts, i);
      RemoveKeepsDistinct(ts, i);
      if d == c {
        assert forall j :: 0 <= j < |after| ==> after[j].callback != c;
      } else if k < |ts| {
        IndexOfDistinct(after, if k < i then k else k - 1);
      }
    }
  }

  /** Setting a timer replaces that callback's timer and no other. */
  lemma WithTimerFinds(ts: seq<Timer>, c: Callback, interval: u32, now: u32, d: Callback)
    requires Distinct(ts)
    ensures Distinct(WithTimer(ts, c, interval, now))
    ensures Find(WithTimer(ts, c, interval, now), d) == if d == c then Some(Timer(now, interval, c)) else Find(ts, d)
  {
    ClearedFinds(ts, c, c);
    ClearedFinds(ts, c, d);
    PrependFinds(Cleared(ts, c), Timer(now, interval, c), d);
  }

  lemma PrependFinds(ts: seq<Timer>, t: Timer, d: Callback)
    requires Distinct(ts) && IndexOf(ts, t.callback) == |ts|
    ensures Distinct([t] + ts)
    ensures Find([t] + ts, d) == if d == t.callback then Some(t) else Find(ts, d)
  {
    var k := IndexOf(ts, d);
    if d != t.callback && k < |ts| {
      IndexOfDistinct([t] + ts, k + 1);
    }
  }

  function Count(fired: seq<Callback>, c: Callback): (n: nat)
  {
    if fired == [] then 0 else Count(fired[..|fired| - 1], c) + if fired[|fired| - 1] == c then 1 else 0
  }

  lemma FindAppended(ts: seq<Timer>, t: Timer, c: Callback)
    ensures Find(ts + [t], c) == if Find(ts, c).Some? then Find(ts, c) else if t.callback == c then Some(t) else None
  {
    var i, after := IndexOf(ts, c), ts + [t];
    assert forall j :: 0 <= j < |ts| ==> after[j] == ts[j];
    if i < |ts| || t.callback == c {
      assert after[i].callback == c;
    }
  }

  /** The fate of one timer in a pass. */
  function AfterPass(t: Timer, read: u32, answer: bool): (r: Option<Timer>)
  {
    if !Expired(t, read) then Some(t) else if answer then Some(Advanced(t)) else None
  }

  /** A pass fires a timer exactly if it had expired at its reading, and then once. */
  lemma {:induction false} PassFiresExpired(ts: seq<Timer>, clocks: seq<u32>, answers: seq<bool>, n: nat, c: Callback)
    requires n <= |ts| && |ts| <= |clocks| && |ts| <= |answers| && Distinct(ts)
    ensures var i := IndexOf(ts, c);
            Count(Fired(ts, clocks, answers, n), c) == if i < n && Expired(ts[i], clocks[i]) then 1 else 0
  {
    if n > 0 {
      PassFiresExpired(ts, clocks, answers, n - 1, c);
      var fired, d := Fired(ts, clocks, answers, n - 1), ts[n - 1].callback;
      IndexOfDistinct(ts, n - 1);
      assert (fired + [d])[..|fired|] == fired;
    }
  }

  /** A pass treats each timer on its own: it stays exactly if it had not expired or its callback answered true. */
  lemma {:induction false} PassTreatsEachTimer(ts: seq<Timer>, clocks: seq<u32>, answers: seq<bool>,
                                               n: nat, c: Callback)
    requires n <= |ts| && |ts| <= |clocks| && |ts| <= |answers| && Distinct(ts)
    ensures var i := IndexOf(ts, c);
            Find(Kept(ts, clocks, answers, n), c) == if i < n then AfterPass(ts[i], clocks[i], answers[i]) else None
  {
    if n > 0 {
      PassTreatsEachTimer(ts, clocks, answers, n - 1, c);
      var t, before := ts[n - 1], Kept(ts, clocks, answers, n - 1);
      FindAppended(before, Advanced(t), c);
      FindAppended(before, t, c);
    }
  }

  /** Callbacks are called in the order of their timers in the table. */
  ghost predicate CalledInOrder(ts: seq<Timer>, fired: seq<Callback>, n: nat)
  {
    && (forall j :: 0 <= j < |fired| ==> IndexOf(ts, fired[j]) < n)
    && (forall j, k :: 0 <= j < k < |fired| ==> IndexOf(ts, fired[j]) < IndexOf(ts, fired[k]))
  }

  /** Timers are kept in the order they had. */
  ghost predicate KeptInOrder(ts: seq<Timer>, kept: seq<Timer>, n: nat)
  {
    && (forall j :: 0 <= j < |kept| ==> IndexOf(ts, kept[j].callback) < n)
    && (forall j, k :: 0 <= j < k < |kept| ==> IndexOf(ts, kept[j].callback) < IndexOf(ts, kept[k].callback))
  }

  lemma {:induction false} CallsInOrder(ts: seq<Timer>, clocks: seq<u32>, answers: seq<bool>, n: nat)
    requires n <= |ts| && |ts| <= |clocks| && |ts| <= |answers| && Distinct(ts)
    ensures CalledInOrder(ts, Fired(ts, clocks, answers, n), n)
  {
    if n > 0 {
      CallsInOrder(ts, clocks, answers, n - 1);
      IndexOfDistinct(ts, n - 1);
    }
  }

  lemma {:induction false} KeepsInOrder(ts: seq<Timer>, clocks: seq<u32>, answers: seq<bool>, n: nat)
    requires n <= |ts| && |ts| <= |clocks| && |ts| <= |answers| && Distinct(ts)
    ensures KeptInOrder(ts, Kept(ts, clocks, answers, n), n)
  {
    if n > 0 {
      var before := Kept(ts, clocks, answers, n - 1);
      KeepsInOrder(ts, clocks, answers, n - 1);
      KeptOneMore(ts, before, n - 1, ts[n - 1]);
      KeptOneMore(ts, before, n - 1, Advanced(ts[n - 1]));
    }
  }

  lemma KeptOneMore(ts: seq<Timer>, kept: seq<Timer>, n: nat, t: Timer)
    requires n < |ts| && Distinct(ts) && KeptInOrder(ts, kept, n) && t.callback == ts[n].callback
    ensures KeptInOrder(ts, kept, n + 1) && KeptInOrder(ts, kept + [t], n + 1)
  {
    IndexOfDistinct(ts, n);
  }

  lemma {:induction false} PassKeepsDistinct(ts: seq<Timer>, clocks: seq<u32>, answers: seq<bool>, n: nat)
    requires n <= |ts| && |ts| <= |clocks| && |ts| <= |answers| && Distinct(ts)
    ensures Distinct(Kept(ts, clocks, answers, n))
  {
    if n > 0 {
      PassKeepsDistinct(ts, clocks, answers, n - 1);
      var t, before := ts[n - 1], Kept(ts, clocks, answers, n - 1);
      PassTreatsEachTimer(ts, clocks, answers, n - 1, t.callback);
      assert IndexOf(ts, t.callback) == n - 1;
      assert Find(before, t.callback) == None;
    }
  }
}
