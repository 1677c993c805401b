/** The timer table as the code keeps it: a doubly linked list, unlinked while it is walked. */
module TimerList {
  import opened Machine
  import opened Timers

  class TimerNode {
    var start: u32
    var interval: u32
    var callback: Callback
    var prev: TimerNode?
    var next: TimerNode?

    constructor (start: u32, interval: u32, callback: Callback)
      ensures this.start == start && this.interval == interval && this.callback == callback
      ensures prev == null && next == null
    {
      this.start, this.interval, this.callback := start, interval, callback;
      prev, next := null, null;
    }
  }

  /** The node at a position, null beyond either end. */
  ghost function NodeAt(nodes: seq<TimerNode>, i: int): (n: TimerNode?)
  {
    if 0 <= i < |nodes| then nodes[i] else null
  }

  ghost predicate Injective(nodes: seq<TimerNode>)
  {
    forall i, j :: 0 <= i < j < |nodes| ==> nodes[i] != nodes[j]
  }

  lemma RemoveKeepsInjective(nodes: seq<TimerNode>, i: nat)
    requires Injective(nodes) && i < |nodes|
    ensures Injective(RemoveAt(nodes, i))
  {
  }

  class TimerTable {
    var head: TimerNode?
    ghost var nodes: seq<TimerNode>
    ghost var contents: seq<Timer>
    ghost var repr: set<TimerNode>

    /** Acyclic, prev and next consistent, the head without a prev, one timer for each callback. */
    ghost predicate Valid()
      reads this, repr
    {
      && (forall i {:trigger nodes[i]} :: 0 <= i < |nodes| ==> nodes[i] in repr)
      && Linked(head, nodes) && Describes(nodes, contents) && Distinct(contents)
    }

    static ghost predicate Linked(head: TimerNode?, nodes: seq<TimerNode>)
      reads nodes
    {
      && Injective(nodes)
      && head == NodeAt(nodes, 0)
      && (forall i {:trigger nodes[i].next} :: 0 <= i < |nodes| ==> nodes[i].next == NodeAt(nodes, i + 1))
      && (forall i {:trigger nodes[i].prev} :: 0 <= i < |nodes| ==> nodes[i].prev == NodeAt(nodes, i - 1))
    }

    static ghost predicate Describes(nodes: seq<TimerNode>, contents: seq<Timer>)
      reads nodes
    {
      && |contents| == |nodes|
      && (forall i {:trigger contents[i]} :: 0 <= i < |nodes| ==>
            contents[i] == Timer(nodes[i].start, nodes[i].interval, nodes[i].callback))
    }

    constructor ()
      ensures Valid() && contents == [] && repr == {}
    {
      head, nodes, contents, repr := null, [], [], {};
    }

    /** `timer_get` */
    method Get(callback: Callback) returns (timer: TimerNode?)
      requires Valid()
      ensures timer == NodeAt(nodes, IndexOf(contents, callback))
    {
      timer := head;
      ghost var i := 0;
      while timer != null
        invariant 0 <= i <= |nodes| && timer == NodeAt(nodes, i)
        invariant forall j :: 0 <= j < i ==> contents[j].callback != callback
        decreases |nodes| - i
      {
        assert contents[i].callback == timer.callback;
        if timer.callback == callback {
          return;
        }
        timer, i := timer.next, i + 1;
      }
    }

    /** The unlinking shared by `timer_clear` and `timer_periodic`. */
    method Unlink(timer: TimerNode, ghost i: nat)
      requires Valid() && i < |nodes| && timer == nodes[i]
      modifies this, repr
      ensures Valid()
      ensures nodes == RemoveAt(old(nodes), i) && contents == RemoveAt(old(contents), i) && repr == old(repr)
    {
      Relink(timer, i);
      RemoveKeepsDistinct(contents, i);
      nodes, contents := RemoveAt(nodes, i), RemoveAt(contents, i);
    }

    /** The pointer updates alone. */
    method Relink(timer: TimerNode, ghost i: nat)
      requires Linked(head, nodes) && i < |nodes| && timer == nodes[i]
      requires forall i {:trigger nodes[i]} :: 0 <= i < |nodes| ==> nodes[i] in repr
      modifies `head, repr`next, repr`prev
      ensures Linked(head, RemoveAt(nodes, i))
    {
      ghost var all, rest := nodes, RemoveAt(nodes, i);
      assert timer.prev == NodeAt(all, i - 1) && timer.next == NodeAt(all, i + 1);
      if timer.prev != null {
        timer.prev.next := timer.next;
      }
      if timer.next != null {
        timer.next.prev := timer.prev;
      }
      if timer == head {
        head := timer.next;
      }
      RemoveKeepsInjective(all, i);
      forall j | 0 <= j < |rest|
        ensures rest[j].next == NodeAt(rest, j + 1) && rest[j].prev == NodeAt(rest, j - 1)
      {
        var k := if j < i then j else j + 1;
        assert rest[j] == all[k];
        assert old(all[k].next) == NodeAt(all, k + 1) && old(all[k].prev) == NodeAt(all, k - 1);
      }
    }

    /** `timer_clear` */
    method Clear(callback: Callback)
      requires Valid()
      modifies this, repr
      ensures Valid() && contents == Cleared(old(contents), callback)
      ensures repr == old(repr)
    {
      var timer := Get(callback);
      if timer == null {
        return;
      }
      Unlink(timer, IndexOf(contents, callback));
    }

    /** `timer_set` */
    method Set(callback: Callback, interval: u32, now: u32)
      requires Valid()
      modifies this, repr
      ensures Valid() && contents == WithTimer(old(contents), callback, interval, now)
      ensures fresh(repr - old(repr))
    {
      ghost var before := contents;
      Clear(callback);
      var timer := new TimerNode(now, interval, callback);
      WithTimerFinds(before, callback, interval, now, callback);
      Prepend(timer);
    }

    /** The insertion half of `timer_set`. */
    method Prepend(timer: TimerNode)
      requires Valid() && timer !in repr && timer.prev == null && timer.next == null
      requires Distinct([Timer(timer.start, timer.interval, timer.callback)] + contents)
      modifies this, repr, timer
      ensures Valid() && repr == old(repr) + {timer}
      ensures contents == [old(Timer(timer.start, timer.interval, timer.callback))] + old(contents)
    {
      ghost var after := [timer] + nodes;
      if head != null {
        assert head == nodes[0];
        head.prev := timer;
        timer.next := head;
      }
      head := timer;
      assert forall i :: 0 < i < |after| ==> after[i] == nodes[i - 1];
      nodes, contents, repr := after, [Timer(timer.start, timer.interval, timer.callback)] + contents, repr + {timer};
    }

    /** `timer_reset`: skip to the next period. */
    method Reset(callback: Callback)
      requires Valid()
      modifies this, repr
      ensures Valid() && nodes == old(nodes) && repr == old(repr)
      ensures contents == var i := IndexOf(old(contents), callback);
                          if i < |old(contents)| then old(contents)[i := Advanced(old(contents)[i])] else old(contents)
    {
      var timer := Get(callback);
      if timer == null {
        return;
      }
      ghost var i := IndexOf(contents, callback);
      timer.start := ToU32(timer.start + timer.interval);
      contents := contents[i := Advanced(contents[i])];
    }

    /** `timer_restart`: a new period from now. */
    method Restart(callback: Callback, now: u32)
      requires Valid()
      modifies this, repr
      ensures Valid() && nodes == old(nodes) && repr == old(repr)
      ensures contents == var i := IndexOf(old(contents), callback);
                          if i < |old(contents)| then old(contents)[i := old(contents)[i].(start := now)]
                          else old(contents)
    {
      var timer := Get(callback);
      if timer == null {
        return;
      }
      ghost var i := IndexOf(contents, callback);
      timer.start := now;
      contents := contents[i := contents[i].(start := now)];
    }

    /**
     * `timer_periodic`. `clocks` are the clock values the pass sees, one for each timer it visits, and
     * `answers` what each callback returns if it is called.
     */
    method Periodic(clocks: seq<u32>, answers: seq<bool>) returns (fired: seq<Callback>)
      requires Valid() && |contents| <= |clocks| && |contents| <= |answers|
      modifies this, repr
      ensures Valid()
      ensures contents == Kept(old(contents), clocks, answers, |old(contents)|)
      ensures fired == Fired(old(contents), clocks, answers, |old(contents)|)
      ensures repr == old(repr)
    {
      ghost var before := contents;
      var timer := head;
      var i := 0;
      ghost var k := 0;
      fired := [];
      while timer != null
        invariant Valid() && repr == old(repr) && timer == NodeAt(nodes, k)
        invariant i <= |before| && Walk(k, contents, fired) == WalkBefore(before, clocks, answers, i)
        decreases |before| - i
      {
        timer, fired, k := Step(timer, before, clocks, answers, i, k, fired);
        i := i + 1;
      }
      WalkIsPass(before, clocks, answers, |before|);
    }

    /** One turn of the walk: the next node is fetched before the callback can unlink this one. */
    method Step(timer: TimerNode, ghost before: seq<Timer>, clocks: seq<u32>, answers: seq<bool>,
                i: nat, ghost k: nat, fired: seq<Callback>)
        returns (next: TimerNode?, firedNow: seq<Callback>, ghost position: nat)
      requires Valid() && k < |nodes| && timer == nodes[k]
      requires i < |before| && |before| <= |clocks| && |before| <= |answers|
      requires Walk(k, contents, fired) == WalkBefore(before, clocks, answers, i)
      modifies this, repr
      ensures Valid() && repr == old(repr) && next == NodeAt(nodes, position)
      ensures Walk(position, contents, firedNow) == WalkBefore(before, clocks, answers, i + 1)
    {
      assert contents[k].callback == timer.callback;
      var callback := timer.callback;
      next := timer.next;
      var fires, stays := Visit(timer, k, clocks[i], answers[i]);
      firedNow, position := fired, if stays then k + 1 else k;
      if fires {
        firedNow := firedNow + [callback];
      }
    }

    /** The loop body: judge the timer, call its callback, then unlink or advance it. */
    method Visit(timer: TimerNode, ghost k: nat, clock: u32, answer: bool) returns (fires: bool, ghost stays: bool)
      requires Valid() && k < |nodes| && timer == nodes[k]
      modifies this, repr
      ensures Valid() && repr == old(repr)
      ensures fires == Expired(old(contents)[k], clock) && stays == (!fires || answer)
      ensures contents == Judged(old(contents), k, clock, answer)
      ensures old(timer.next) == NodeAt(nodes, if stays then k + 1 else k)
    {
      assert contents[k].start == timer.start && timer.next == NodeAt(nodes, k + 1);
      fires, stays := true, answer;
      if ToU32(clock - timer.start) < timer.interval {
        return false, true;
      }
      if !answer {
        Unlink(timer, k);
      } else {
        MoveOn(timer, k);
      }
    }

    /** `timer->start += timer->interval` */
    method MoveOn(timer: TimerNode, ghost i: nat)
      requires Valid() && i < |nodes| && timer == nodes[i]
      modifies this`contents, timer`start
      ensures Valid() && contents == old(contents)[i := Advanced(old(contents)[i])]
    {
      timer.start := ToU32(timer.start + timer.interval);
      contents := contents[i := Advanced(contents[i])];
    }
  }
}
