/** The scheduler's ready and sleep lists as linked nodes: what the list code does to the nodes
    is what the step machine does to its sequences. */
module SchedLists {
  import opened Sched
  import L = LinkedList

  /** The tasks a list holds, in order. */
  function Ids(s: seq<L.Node>): (r: seq<int>)
    ensures |r| == |s|
  {
    seq(|s|, i requires 0 <= i < |s| => s[i].id)
  }

  lemma IdsAppend(a: seq<L.Node>, b: seq<L.Node>)
    ensures Ids(a + b) == Ids(a) + Ids(b)
  {
  }

  lemma IdsPush(a: seq<L.Node>, n: L.Node)
    ensures Ids(a + [n]) == Ids(a) + [n.id]
  {
    IdsAppend(a, [n]);
  }

  lemma IdsLast(s: seq<L.Node>)
    requires s != []
    ensures |Ids(s)| == |s| && Ids(s)[..|s| - 1] == Ids(s[..|s| - 1]) && Ids(s)[|s| - 1] == s[|s| - 1].id
  {
  }

  /** No two of the tasks' nodes belong to one task. */
  ghost predicate OneNodeEach(all: set<L.Node>) {
    forall a, b :: a in all && b in all && a.id == b.id ==> a == b
  }

  lemma {:induction false} RemoveIds(s: seq<L.Node>, k: nat)
    requires k < |s| && forall i :: 0 <= i < k ==> s[i].id != s[k].id
    ensures Remove(Ids(s), s[k].id) == Ids(L.Without(s, k))
  {
    assert Ids(s)[1..] == Ids(s[1..]);
    if k == 0 {
      assert L.Without(s, 0) == s[1..];
    } else {
      RemoveIds(s[1..], k - 1);
      assert L.Without(s, k) == [s[0]] + L.Without(s[1..], k - 1);
      IdsAppend([s[0]], L.Without(s[1..], k - 1));
    }
  }

  /** Both statements of the sweep agree: on nodes with their counts, and on task numbers. */
  lemma {:induction false} SweepIds(k: K, s: seq<L.Node>, ticks: seq<int>)
    requires |s| == |ticks| && forall i :: 0 <= i < |s| ==> ticks[i] == NapOf(k, s[i].id)
    ensures Ids(L.StillAsleep(s, ticks)) == StillAsleep(k, Ids(s))
    ensures Ids(L.Woken(s, ticks)) == Woken(k, Ids(s))
  {
    hide Ids;
    if s == [] {
      assert |Ids(s)| == 0;
    } else {
      var n := |s| - 1;
      SweepIds(k, s[..n], ticks[..n]);
      IdsLast(s);
      var a, b := L.StillAsleep(s[..n], ticks[..n]), L.Woken(s[..n], ticks[..n]);
      IdsPush(a, s[n]);
      IdsPush(b, s[n]);
      assert a + [] == a && b + [] == b && Ids(a) + [] == Ids(a) && Ids(b) + [] == Ids(b);
    }
  }

  class RunLists {
    const ready: L.List
    const sleep: L.List
    ghost var all: set<L.Node>

    constructor (ghost all: set<L.Node>)
      requires OneNodeEach(all)
      ensures this.all == all && ready != sleep && fresh(ready) && fresh(sleep)
      ensures ready.Valid() && sleep.Valid() && ready.nodes == [] && sleep.nodes == []
    {
      this.all := all;
      ready := new L.List();
      sleep := new L.List();
    }

    ghost predicate Valid()
      reads this, ready, sleep, all
    {
      && ready != sleep && OneNodeEach(all)
      && L.Holds(all, ready.nodes) && L.Holds(all, sleep.nodes)
      && ready.Valid() && sleep.Valid() && L.Apart(ready.nodes, sleep.nodes)
    }

    /** The lists hold what state `k` has in its sequences, and the sleepers their counts. */
    ghost predicate Stands(k: K)
      reads this, ready, sleep, all
    {
      && Valid() && Ids(ready.nodes) == k.ready && Ids(sleep.nodes) == k.sleepers
      && forall i :: 0 <= i < |sleep.nodes| ==>
           IsTask(k, sleep.nodes[i].id) && sleep.nodes[i].sleepTicks == k.nap[sleep.nodes[i].id]
    }

    /** Only ready list, sleepers and their counts matter. */
    lemma StandsFor(k: K, k': K)
      requires Stands(k) && k'.ready == k.ready && k'.sleepers == k.sleepers
      requires k'.nap == k.nap && |k'.slice| == |k.slice|
      ensures Stands(k')
    {
      hide L.List.Valid;
    }

    method TaskNextRun(ghost k: K) returns (t: int)
      requires Stands(k)
      ensures t == NextRun(k)
    {
      if ready.count == 0 {
        return IDLE;
      }
      t := ready.first.id;
    }

    method TaskSetReady(node: L.Node, ghost k: K)
      requires Stands(k) && node in all && node !in ready.nodes && node !in sleep.nodes && node.id != IDLE
      modifies ready, all`pre, all`next
      ensures Stands(SetReady(k, node.id))
    {
      label before:
      ready.InsertLast(node);
      L.LinksKept@before(sleep);
      IdsAppend(old(ready.nodes), [node]);
    }

    method TaskSetBlock(node: L.Node, ghost at: nat, ghost k: K)
      requires Stands(k) && at < |ready.nodes| && ready.nodes[at] == node && node.id != IDLE
      modifies ready, all`pre, all`next
      ensures Stands(SetBlock(k, node.id)) && ready.nodes == L.Without(old(ready.nodes), at)
    {
      Alone(ready.nodes, at);
      RemoveIds(ready.nodes, at);
      label before:
      ready.Remove(node, at);
      L.LinksKept@before(sleep);
    }

    lemma Alone(s: seq<L.Node>, at: nat)
      requires OneNodeEach(all) && L.Holds(all, s) && L.Distinct(s) && at < |s|
      ensures forall i :: 0 <= i < at ==> s[i].id != s[at].id
    {
    }

    /** `task_set_sleep` of a task that is on neither list. */
    method TaskSetSleep(node: L.Node, ticks: nat, ghost k: K)
      requires Stands(k) && node in all && node !in ready.nodes && node !in sleep.nodes && IsTask(k, node.id)
      modifies sleep, node`sleepTicks, all`pre, all`next
      ensures Stands(if ticks == 0 then k
                     else k.(nap := k.nap[node.id := ticks], sleepers := k.sleepers + [node.id]))
    {
      if ticks == 0 {
        return;
      }
      label before:
      node.sleepTicks := ticks;
      L.LinksKept@before(sleep);
      L.LinksKept@before(ready);
      label counted:
      sleep.InsertLast(node);
      L.LinksKept@counted(ready);
      IdsAppend(old(sleep.nodes), [node]);
      assert forall n :: n in old(sleep.nodes) ==> n.id != node.id;
    }

    /** The loop of `task_time_tick` over the linked sleep list. */
    method SweepSleepList(ghost k: K)
      requires Stands(k)
      modifies ready, sleep, sleep.nodes`sleepTicks, all`pre, all`next
      ensures Stands(Sweep(k))
    {
      hide L.StillAsleep, L.Woken, StillAsleep, Woken;
      ghost var s, ticks := sleep.nodes, L.Ticks(sleep.nodes);
      SweepIds(k, s, ticks);
      L.Sweep(sleep, ready, all);
      IdsAppend(old(ready.nodes), L.Woken(s, ticks));
      SweptStand(k, s, ticks, old(ready.nodes));
      forall i | 0 <= i < |sleep.nodes|
        ensures IsTask(k, sleep.nodes[i].id) && sleep.nodes[i].sleepTicks == Sweep(k).nap[sleep.nodes[i].id]
      {
        assert sleep.nodes[i] in s;
        var j :| 0 <= j < |s| && s[j] == sleep.nodes[i];
        assert k.sleepers[j] == s[j].id;
      }
    }

    /** The nodes of both lists after the sweep. */
    lemma SweptStand(k: K, s: seq<L.Node>, ticks: seq<int>, r0: seq<L.Node>)
      requires |s| == |ticks| && L.Distinct(s) && L.Apart(r0, s) && L.Holds(all, s) && L.Holds(all, r0)
      ensures L.Holds(all, L.StillAsleep(s, ticks)) && L.Holds(all, r0 + L.Woken(s, ticks))
      ensures L.Apart(r0 + L.Woken(s, ticks), L.StillAsleep(s, ticks))
      ensures forall n :: n in L.StillAsleep(s, ticks) ==> n in s
    {
      hide L.StillAsleep, L.Woken;
      assert s[..|s|] == s && ticks[..|s|] == ticks;
      forall n | n in L.Woken(s, ticks) ensures n in s && n !in L.StillAsleep(s, ticks) && n in all {
        L.SweepApart(s, ticks, |s|, n);
        L.SweepMembers(s, ticks, n);
        var i :| 0 <= i < |s| && s[i] == n;
      }
      forall n | n in L.StillAsleep(s, ticks) ensures n in s && n in all {
        L.SweepMembers(s, ticks, n);
        var i :| 0 <= i < |s| && s[i] == n;
      }
      var a, r := L.StillAsleep(s, ticks), r0 + L.Woken(s, ticks);
      forall i | 0 <= i < |a| ensures a[i] in all { assert a[i] in a; }
      forall i | 0 <= i < |r| ensures r[i] in all {
        if i < |r0| { assert r[i] == r0[i]; } else { assert L.Woken(s, ticks)[i - |r0|] in L.Woken(s, ticks); }
      }
    }
  }

  // ----- wait lists, on the tasks' other node -----

  /** A task joins the queue of a mutex or a semaphore; only nodes of this queue change. */
  method Enqueue(list: L.List, node: L.Node, ghost all: set<L.Node>)
    requires list.Valid() && node !in list.nodes && node in all && L.Holds(all, list.nodes)
    modifies list, all`pre, all`next
    ensures list.Valid() && list.nodes == old(list.nodes) + [node] && L.Holds(all, list.nodes)
    ensures Ids(list.nodes) == Ids(old(list.nodes)) + [node.id]
    ensures forall n :: n in all && n !in list.nodes ==> n.pre == old(n.pre) && n.next == old(n.next)
  {
    list.InsertLast(node);
    IdsAppend(old(list.nodes), [node]);
    assert list.nodes[|list.nodes| - 1] == node;
    assert forall n :: n in old(list.nodes) ==> n in list.nodes;
  }

  /** The first of a queue is taken off; only nodes of this queue change. */
  method Dequeue(list: L.List, ghost all: set<L.Node>) returns (t: int)
    requires list.Valid() && list.nodes != [] && L.Holds(all, list.nodes)
    modifies list, all`pre, all`next
    ensures list.Valid() && list.nodes == old(list.nodes)[1..] && L.Holds(all, list.nodes)
    ensures t == Ids(old(list.nodes))[0] && Ids(list.nodes) == Ids(old(list.nodes))[1..]
    ensures forall n :: n in all && n !in old(list.nodes) ==> n.pre == old(n.pre) && n.next == old(n.next)
  {
    var node := list.RemoveFirst();
    t := node.id;
  }
}
