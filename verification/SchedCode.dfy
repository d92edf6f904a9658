/** The scheduler's code, changing its fields and linked lists in place: ready and sleep list on
    the tasks' run nodes, and a wait list for each mutex and each semaphore on their wait nodes.
    Each operation is shown to take the step of the machine that stands for it. */
module SchedCode {
  import opened Sched
  import opened SchedInv
  import opened SchedRuns
  import opened SchedLists
  import L = LinkedList

  /** The queue of mutex `i`, or of semaphore `i - |mutexes|`. */
  function QueueAt(k: K, i: nat): seq<int>
    requires i < |k.mutexes| + |k.sems|
  {
    if i < |k.mutexes| then k.mutexes[i].waiters else k.sems[i - |k.mutexes|].waiters
  }

  function WithQueue(k: K, i: nat, w: seq<int>): K
    requires i < |k.mutexes| + |k.sems|
  {
    if i < |k.mutexes| then k.(mutexes := k.mutexes[i := k.mutexes[i].(waiters := w)])
    else
      var s := i - |k.mutexes|;
      k.(sems := k.sems[s := k.sems[s].(waiters := w)])
  }

  /** The states differ in queues alone. */
  ghost predicate OnlyQueues(k: K, k': K) {
    && |k'.mutexes| == |k.mutexes| && |k'.sems| == |k.sems|
    && k' == k.(mutexes := k'.mutexes, sems := k'.sems)
    && (forall m :: 0 <= m < |k.mutexes| ==> k'.mutexes[m] == k.mutexes[m].(waiters := k'.mutexes[m].waiters))
    && (forall s :: 0 <= s < |k.sems| ==> k'.sems[s] == k.sems[s].(waiters := k'.sems[s].waiters))
  }

  lemma QueueSet(k: K, i: nat, w: seq<int>)
    requires i < |k.mutexes| + |k.sems|
    ensures var k' := WithQueue(k, i, w);
      && OnlyQueues(k, k') && |k'.mutexes| == |k.mutexes| && |k'.sems| == |k.sems|
      && k'.ready == k.ready && k'.sleepers == k.sleepers && k'.nap == k.nap && k'.slice == k.slice
      && forall j :: 0 <= j < |k.mutexes| + |k.sems| ==> QueueAt(k', j) == if j == i then w else QueueAt(k, j)
  {
  }

  /** A task in the ready list waits nowhere. */
  lemma InNoQueue(k: K, t: int)
    requires Core(k) && t in k.ready
    ensures forall j :: 0 <= j < |k.mutexes| + |k.sems| ==> t !in QueueAt(k, j)
  {
    hide Core;
    ReadyOnly(k, t);
  }

  /** The first of a queue is a task and on neither of the run lists. */
  lemma QueueHead(k: K, i: nat)
    requires Inv(k) && i < |k.mutexes| + |k.sems| && QueueAt(k, i) != []
    ensures var t := QueueAt(k, i)[0]; IsTask(k, t) && t !in k.ready && t !in k.sleepers
  {
    hide Core, MutexWaiters, SemWaiters;
    var t := QueueAt(k, i)[0];
    assert t in QueueAt(k, i);
    OnePlace(k, t);
    if i < |k.mutexes| { WaitsSomewhere(k.mutexes, i, t); } else { WaitsForSem(k.sems, i - |k.mutexes|, t); }
    assert t in k.ready ==> multiset(k.ready)[t] >= 1;
    assert t in k.sleepers ==> multiset(k.sleepers)[t] >= 1;
  }

  /** The running task, once off the ready list, is on no list. */
  lemma HeadLeaves(k: K)
    requires Inv(k) && k.curr != IDLE
    ensures IsTask(k, k.curr) && k.curr in k.ready
    ensures k.curr !in SetBlock(k, k.curr).ready && k.curr !in k.sleepers
    ensures var k' := SetBlock(k, k.curr);
      && |k'.mutexes| == |k.mutexes| && |k'.sems| == |k.sems|
      && forall j :: 0 <= j < |k.mutexes| + |k.sems| ==> k.curr !in QueueAt(k', j)
  {
    hide Core;
    HeadOff(k);
    ReadyOnly(k, k.curr);
    InNoQueue(k, k.curr);
    assert multiset(k.ready[1..])[k.curr] == 0;
  }

  /** What the sweep leaves alone. */
  lemma SweepParts(k: K)
    ensures var k' := Sweep(k);
      && k'.curr == k.curr && k'.slice == k.slice && k'.idleSlice == k.idleSlice && k'.pending == k.pending
      && k'.mutexes == k.mutexes && k'.sems == k.sems && |k'.nap| == |k.nap|
  {
  }

  lemma NotListed(s: seq<L.Node>, node: L.Node)
    requires node.id !in Ids(s)
    ensures node !in s
  {
    forall i | 0 <= i < |s| ensures s[i] != node {
      assert Ids(s)[i] in Ids(s);
    }
  }

  lemma OneMore(n: nat)
    ensures Everyone(n + 1) == Everyone(n) + multiset{n}
  {
  }

  lemma {:induction false} NobodyWaits(ms: seq<Mutex>, ss: seq<Sem>)
    requires forall m :: 0 <= m < |ms| ==> ms[m].waiters == []
    requires forall s :: 0 <= s < |ss| ==> ss[s].waiters == []
    ensures MutexWaiters(ms) == multiset{} && SemWaiters(ss) == multiset{}
  {
    if ms != [] { NobodyWaits(ms[..|ms| - 1], []); }
    if ss != [] { NobodyWaits([], ss[..|ss| - 1]); }
  }

  /** A lone running task and nobody waiting make a good state. */
  lemma StartsOk(k: K)
    requires k.curr == 0 && k.ready == [0] && k.sleepers == [] && k.slice == [SLICE] && k.nap == [0]
    requires k.idleSlice == SLICE && k.pending == {}
    requires forall m :: 0 <= m < |k.mutexes| ==> k.mutexes[m] == Mutex(IDLE, 0, [])
    requires forall s :: 0 <= s < |k.sems| ==> k.sems[s].waiters == []
    ensures Inv(k)
  {
    hide MutexWaiters, SemWaiters;
    NobodyWaits(k.mutexes, k.sems);
    assert Everyone(1) == Everyone(0) + multiset{0};
  }

  /** After `task_first_init`: task 0 runs, and nobody holds or waits for anything. */
  function StartK(mutexCount: nat, semCounts: seq<nat>): K {
    K(0, [0], [], [SLICE], [0], SLICE, {}, seq(mutexCount, m => Mutex(IDLE, 0, [])),
      seq(|semCounts|, s requires 0 <= s < |semCounts| => Sem(semCounts[s], [])), 0)
  }

  lemma StartParts(mutexCount: nat, semCounts: seq<nat>)
    ensures var k := StartK(mutexCount, semCounts);
      && k == K(0, [0], [], [SLICE], [0], SLICE, {}, k.mutexes, k.sems, 0) && Inv(k)
      && |k.mutexes| == mutexCount && |k.sems| == |semCounts|
      && (forall m :: 0 <= m < mutexCount ==> k.mutexes[m] == Mutex(IDLE, 0, []))
      && (forall s :: 0 <= s < |semCounts| ==> k.sems[s] == Sem(semCounts[s], []))
  {
    hide Inv;
    StartsOk(StartK(mutexCount, semCounts));
  }

  lemma StartCore(k: K)
    requires Inv(k) && k.ready != []
    ensures Inv(k.(ready := k.ready + [|k.slice|], slice := k.slice + [SLICE], nap := k.nap + [0]))
  {
    hide MutexWaiters, SemWaiters, MutexOk, SemOk, Everyone;
    var n := |k.slice|;
    OneMore(n);
  }

  method NewLists(n: nat) returns (s: seq<L.List>)
    ensures |s| == n && forall i :: 0 <= i < n ==> fresh(s[i]) && s[i].Valid() && s[i].nodes == []
    ensures forall i, j :: 0 <= i < j < n ==> s[i] != s[j]
  {
    s := [];
    for i := 0 to n
      invariant |s| == i && forall j :: 0 <= j < i ==> fresh(s[j]) && s[j].Valid() && s[j].nodes == []
      invariant forall j, h :: 0 <= j < h < i ==> s[j] != s[h]
    {
      var list := new L.List();
      s := s + [list];
    }
  }

  lemma SetBlockParts(k: K, t: int)
    ensures SetBlock(k, t) == if t == IDLE then k else k.(ready := Remove(k.ready, t))
  {
  }

  /** Task 0 alone is ready. */
  method FirstReady(node: L.Node, ghost k: K) returns (lists: RunLists)
    requires node.id == 0 && k.ready == [0] && k.sleepers == []
    modifies node
    ensures fresh(lists) && fresh(lists.ready) && fresh(lists.sleep) && lists.all == {node} && lists.Stands(k)
  {
    lists := new RunLists({node});
    lists.TaskSetReady(node, k.(ready := []));
    assert SetReady(k.(ready := []), 0) == k;
  }

  /** A mutex with an owner is locked. */
  lemma OwnerCounts(k: K, m: nat)
    requires Inv(k) && m < |k.mutexes|
    ensures k.mutexes[m].owner == k.curr != IDLE ==> k.mutexes[m].count > 0
  {
    hide Core;
    MutexIsOk(k, m);
  }

  class Scheduler {
    const run: RunLists
    const waits: seq<L.List>
    var runNode: seq<L.Node>
    var waitNode: seq<L.Node>
    ghost var waitAll: set<L.Node>
    var curr: int
    var slice: seq<int>
    var idleSlice: int
    var pending: set<int>
    var owner: seq<int>
    var depth: seq<nat>
    var semCount: seq<nat>
    /** The machine's state that all this stands for. */
    ghost var k: K

    /** Each task has one run node and one wait node. */
    ghost predicate NodesOk(n: nat)
      reads this`runNode, this`waitNode, this`waitAll, run`all
    {
      && |runNode| == |waitNode| == n && OneNodeEach(waitAll) && waitAll !! run.all
      && (forall t :: 0 <= t < n ==> runNode[t] in run.all && runNode[t].id == t)
      && (forall t :: 0 <= t < n ==> waitNode[t] in waitAll && waitNode[t].id == t)
      && (forall a :: a in run.all + waitAll ==> 0 <= a.id < n)
    }

    /** The plain fields are those of the machine's state `k`. */
    ghost predicate FieldsOk()
      reads this
    {
      && curr == k.curr && slice == k.slice && idleSlice == k.idleSlice && pending == k.pending
      && |owner| == |depth| == |k.mutexes| && |semCount| == |k.sems|
      && (forall m :: 0 <= m < |k.mutexes| ==> owner[m] == k.mutexes[m].owner && depth[m] == k.mutexes[m].count)
      && (forall s :: 0 <= s < |k.sems| ==> semCount[s] == k.sems[s].count)
    }

    ghost predicate ListsApart()
    {
      && (forall i, j :: 0 <= i < j < |waits| ==> waits[i] != waits[j])
      && (forall i :: 0 <= i < |waits| ==> waits[i] != run.ready && waits[i] != run.sleep)
    }

    /** Each wait list is well formed and holds the queue of the machine; no node is on two. */
    ghost predicate QueuesOk()
      reads this, waits, waitAll
    {
      && |waits| == |k.mutexes| + |k.sems| && ListsApart()
      && (forall i :: 0 <= i < |waits| ==> L.Holds(waitAll, waits[i].nodes))
      && (forall i :: 0 <= i < |waits| ==> waits[i].Valid() && Ids(waits[i].nodes) == QueueAt(k, i))
      && (forall i, j :: 0 <= i < |waits| && 0 <= j < |waits| && i != j ==> L.Apart(waits[i].nodes, waits[j].nodes))
    }

    ghost predicate Valid()
      reads this, run, run.ready, run.sleep, run.all, waits, waitAll
    {
      run.Stands(k) && |k.slice| == |k.nap| && NodesOk(|k.slice|) && FieldsOk() && QueuesOk()
    }

    /** What `Valid` says of the plain fields. */
    lemma SyncFields()
      requires Valid()
      ensures |owner| == |depth| == |k.mutexes| && |semCount| == |k.sems| && |waits| == |owner| + |semCount|
      ensures forall m :: 0 <= m < |owner| ==> owner[m] == k.mutexes[m].owner && depth[m] == k.mutexes[m].count
      ensures forall s :: 0 <= s < |semCount| ==> semCount[s] == k.sems[s].count
      ensures pending == k.pending && curr == k.curr
    {
      hide L.List.Valid, RunLists.Stands;
    }

    /** One running task 0 with a full slice, as after `task_first_init`. */
    constructor (mutexCount: nat, semCounts: seq<nat>)
      ensures Valid() && Inv(k) && k == StartK(mutexCount, semCounts)
      ensures k.curr == 0 && k.ready == [0] && k.sleepers == [] && k.slice == [10] && k.pending == {} && k.sweeps == 0
      ensures |k.mutexes| == mutexCount && (forall m :: 0 <= m < mutexCount ==> k.mutexes[m] == Mutex(IDLE, 0, []))
      ensures |k.sems| == |semCounts| && (forall s :: 0 <= s < |semCounts| ==> k.sems[s] == Sem(semCounts[s], []))
    {
      hide Inv, L.List.Valid, RunLists.Stands, StartK, Valid;
      StartParts(mutexCount, semCounts);
      var runs := new L.Node(0);
      var wait := new L.Node(0);
      ghost var k1 := StartK(mutexCount, semCounts);
      var lists := FirstReady(runs, k1);
      var queues := NewLists(mutexCount + |semCounts|);
      run, waits, runNode, waitNode, waitAll := lists, queues, [runs], [wait], {wait};
      curr, slice, idleSlice, pending := 0, [SLICE], SLICE, {};
      owner, depth, semCount := seq(mutexCount, m => IDLE), seq(mutexCount, m => 0), semCounts;
      k := k1;
      new;
      StartsValid(runs, wait);
    }

    lemma StartsValid(runs: L.Node, wait: L.Node)
      requires k.slice == [SLICE] && k.nap == [0] && FieldsOk() && run.Stands(k)
      requires runNode == [runs] && waitNode == [wait] && runs.id == wait.id == 0 && runs != wait
      requires run.all == {runs} && waitAll == {wait}
      requires |waits| == |k.mutexes| + |k.sems| && ListsApart()
      requires forall i :: 0 <= i < |waits| ==> waits[i].Valid() && waits[i].nodes == [] && QueueAt(k, i) == []
      ensures Valid()
    {
      hide L.List.Valid, FieldsOk, RunLists.Stands;
    }

    /** The wait lists do not notice what happens to run nodes. */
    twostate lemma QueuesKept()
      requires old(QueuesOk()) && old(waitAll) <= waitAll
      requires |k.mutexes| == |old(k).mutexes| && |k.sems| == |old(k).sems|
      requires forall i :: 0 <= i < |waits| ==> QueueAt(k, i) == QueueAt(old(k), i)
      requires forall i :: 0 <= i < |waits| ==>
        && waits[i].first == old(waits[i].first) && waits[i].last == old(waits[i].last)
        && waits[i].count == old(waits[i].count) && waits[i].nodes == old(waits[i].nodes)
      requires forall n :: n in old(waitAll) ==> n.pre == old(n.pre) && n.next == old(n.next)
      ensures QueuesOk()
    {
      forall i | 0 <= i < |waits| ensures waits[i].Valid() && Ids(waits[i].nodes) == QueueAt(k, i) {
        assert old(waits[i].Valid());
        forall n | n in waits[i].nodes ensures n.pre == old(n.pre) && n.next == old(n.next) {
          var j :| 0 <= j < |waits[i].nodes| && waits[i].nodes[j] == n;
        }
        L.LinksKept(waits[i]);
      }
    }

    /** What the invariant says of wait list `i`. */
    lemma OneQueue(i: nat)
      requires QueuesOk() && i < |waits|
      ensures waits[i].Valid() && L.Holds(waitAll, waits[i].nodes) && |waits| == |k.mutexes| + |k.sems|
      ensures Ids(waits[i].nodes) == QueueAt(k, i) && waits[i] != run.ready && waits[i] != run.sleep
      ensures forall j :: 0 <= j < |waits| && j != i ==> waits[j] != waits[i] && L.Apart(waits[i].nodes, waits[j].nodes)
    {
      hide L.List.Valid, L.Holds, L.Apart, QueueAt, Ids;
    }

    /** A change of wait list `i` alone. */
    twostate lemma QueueChanged(i: nat)
      requires old(QueuesOk()) && waitAll == old(waitAll) && i < |waits| == |k.mutexes| + |k.sems|
      requires waits[i].Valid() && Ids(waits[i].nodes) == QueueAt(k, i) && L.Holds(waitAll, waits[i].nodes)
      requires |k.mutexes| == |old(k).mutexes| && |k.sems| == |old(k).sems|
      requires forall j :: 0 <= j < |waits| && j != i ==>
        && waits[j].nodes == old(waits[j].nodes) && waits[j].first == old(waits[j].first)
        && waits[j].last == old(waits[j].last) && waits[j].count == old(waits[j].count)
      requires forall j :: 0 <= j < |waits| && j != i ==> QueueAt(k, j) == QueueAt(old(k), j)
      requires forall j :: 0 <= j < |waits| && j != i ==> L.Apart(waits[i].nodes, waits[j].nodes)
      requires forall n :: n in waitAll && n !in waits[i].nodes && n !in old(waits[i].nodes) ==>
        n.pre == old(n.pre) && n.next == old(n.next)
      ensures QueuesOk()
    {
      hide L.List.Valid;
      forall j | 0 <= j < |waits| && j != i
        ensures waits[j].Valid() && Ids(waits[j].nodes) == QueueAt(k, j) && L.Apart(waits[j].nodes, waits[i].nodes)
      {
        assert old(waits[j].Valid()) && L.Apart(waits[i].nodes, waits[j].nodes);
        forall n | n in waits[j].nodes ensures n.pre == old(n.pre) && n.next == old(n.next) {
          var h :| 0 <= h < |waits[j].nodes| && waits[j].nodes[h] == n;
        }
        L.LinksKept(waits[j]);
      }
    }

    /** The plain fields are still those of the machine when it differs in its queues. */
    twostate lemma SameFields()
      requires old(FieldsOk()) && OnlyQueues(old(k), k)
      requires curr == old(curr) && slice == old(slice) && idleSlice == old(idleSlice) && pending == old(pending)
      requires owner == old(owner) && depth == old(depth) && semCount == old(semCount)
      ensures FieldsOk()
    {
    }

    /** A change of plain fields that leaves all lists alone. */
    twostate lemma FieldsChanged()
      requires old(Valid()) && FieldsOk()
      requires run.all == old(run.all) && waitAll == old(waitAll) && unchanged(this`runNode, this`waitNode)
      requires unchanged(run.ready, run.sleep, run.all, waits, waitAll)
      requires k.ready == old(k).ready && k.sleepers == old(k).sleepers && k.nap == old(k).nap
      requires |k.slice| == |old(k).slice| && |k.mutexes| == |old(k).mutexes| && |k.sems| == |old(k).sems|
      requires forall i :: 0 <= i < |waits| ==> QueueAt(k, i) == QueueAt(old(k), i)
      ensures Valid()
    {
      hide L.List.Valid;
      assert run.Stands(old(k));
      run.StandsFor(old(k), k);
      QueuesKept();
    }

    /** `task_start`: a new task joins the tail of the ready list. */
    method TaskStart() returns (t: int)
      requires Valid() && Inv(k) && k.ready != []
      modifies this`k, this`slice, this`runNode, this`waitNode, this`waitAll, run`all, run.ready, run.all
      ensures Valid() && Inv(k) && t == |old(k).slice|
      ensures fresh(run.all - old(run.all)) && fresh(waitAll - old(waitAll))
      ensures k == old(k).(ready := old(k).ready + [t], slice := old(k).slice + [10], nap := old(k).nap + [0])
    {
      hide L.List.Valid, Inv;
      StartCore(k);
      t := |slice|;
      var runs := new L.Node(t);
      var wait := new L.Node(t);
      NewTask(runs, wait);
      TaskSetReady(t);
    }

    /** A new task's nodes, on no list yet, and its counters. */
    method NewTask(runs: L.Node, wait: L.Node)
      requires Valid() && runs.id == wait.id == |slice| && runs != wait
      requires runs !in run.all + waitAll && wait !in run.all + waitAll
      modifies this`k, this`slice, this`runNode, this`waitNode, this`waitAll, run`all
      ensures Valid() && k == old(k).(slice := old(k).slice + [SLICE], nap := old(k).nap + [0])
      ensures run.all == old(run.all) + {runs} && waitAll == old(waitAll) + {wait}
    {
      hide L.List.Valid;
      label before:
      run.all, waitAll := run.all + {runs}, waitAll + {wait};
      runNode, waitNode, slice := runNode + [runs], waitNode + [wait], slice + [SLICE];
      k := k.(slice := k.slice + [SLICE], nap := k.nap + [0]);
      QueuesKept@before();
    }

    method TaskSetReady(t: int)
      requires Valid() && (t != IDLE ==> IsTask(k, t) && t !in k.ready && t !in k.sleepers)
      modifies this`k, run.ready, run.all
      ensures Valid() && k == SetReady(old(k), t)
    {
      hide L.List.Valid;
      if t == IDLE { return; }
      var node := runNode[t];
      NotListed(run.ready.nodes, node);
      NotListed(run.sleep.nodes, node);
      label before:
      run.TaskSetReady(node, k);
      k := SetReady(k, t);
      QueuesKept@before();
    }

    /** Wherever the task stands on the ready list. */
    method TaskSetBlock(t: int)
      requires Valid() && (t != IDLE ==> IsTask(k, t) && t in k.ready)
      modifies this`k, run.ready, run.all
      ensures Valid() && k == SetBlock(old(k), t)
    {
      hide SetBlock, L.List.Valid;
      SetBlockParts(k, t);
      if t == IDLE { return; }
      var node := runNode[t];
      ghost var at :| 0 <= at < |k.ready| && k.ready[at] == t;
      assert run.ready.nodes[at] == node;
      label before:
      run.TaskSetBlock(node, at, k);
      k := SetBlock(k, t);
      QueuesKept@before();
    }

    method TaskSetSleep(t: int, ticks: nat)
      requires Valid() && IsTask(k, t) && t !in k.ready && t !in k.sleepers
      modifies this`k, run.sleep, run.all
      ensures Valid()
      ensures k == if ticks == 0 then old(k)
                   else old(k).(nap := old(k).nap[t := ticks], sleepers := old(k).sleepers + [t])
    {
      hide L.List.Valid;
      var node := runNode[t];
      NotListed(run.ready.nodes, node);
      NotListed(run.sleep.nodes, node);
      label before:
      run.TaskSetSleep(node, ticks, k);
      k := if ticks == 0 then k else k.(nap := k.nap[t := ticks], sleepers := k.sleepers + [t]);
      QueuesKept@before();
    }

    /** The running task, off the ready list, joins wait list `i`. */
    method Enqueue(i: nat)
      requires Valid() && i < |waits| && IsTask(k, curr)
      requires forall j :: 0 <= j < |waits| ==> curr !in QueueAt(k, j)
      modifies this`k, waits, waitAll
      ensures Valid() && k == WithQueue(old(k), i, QueueAt(old(k), i) + [curr])
    {
      hide L.List.Valid, WithQueue, FieldsOk, OnlyQueues;
      var node := waitNode[curr];
      forall j | 0 <= j < |waits| ensures node !in waits[j].nodes { NotListed(waits[j].nodes, node); }
      label before:
      SchedLists.Enqueue(waits[i], node, waitAll);
      ghost var w := QueueAt(k, i) + [curr];
      k := WithQueue(k, i, w);
      QueueSet(old(k), i, w);
      run.StandsFor(old(k), k);
      QueueChanged@before(i);
      SameFields@before();
    }

    /** The first task of wait list `i` leaves it. */
    method Dequeue(i: nat) returns (t: int)
      requires Valid() && i < |waits| && QueueAt(k, i) != []
      modifies this`k, waits, waitAll
      ensures Valid() && t == QueueAt(old(k), i)[0] && k == WithQueue(old(k), i, QueueAt(old(k), i)[1..])
    {
      hide L.List.Valid, WithQueue, FieldsOk, OnlyQueues, OneNodeEach, QueuesOk, QueueAt;
      OneQueue(i);
      forall j | 0 <= j < |waits| && j != i { TailApart(waits[i].nodes, waits[j].nodes); }
      label before:
      t := SchedLists.Dequeue(waits[i], waitAll);
      ghost var w := QueueAt(k, i)[1..];
      k := WithQueue(k, i, w);
      QueueSet(old(k), i, w);
      run.StandsFor(old(k), k);
      QueueChanged@before(i);
      SameFields@before();
    }

    lemma TailApart(s: seq<L.Node>, t: seq<L.Node>)
      requires L.Apart(s, t) && s != []
      ensures L.Apart(s[1..], t)
    {
    }

    /** The loop of `task_time_tick` over the sleep list. */
    method SweepSleepList()
      requires Valid()
      modifies this`k, run.ready, run.sleep, run.all
      ensures Valid() && k == Sweep(old(k))
    {
      hide L.List.Valid, Sweep;
      label before:
      run.SweepSleepList(k);
      SweepParts(k);
      k := Sweep(k);
      QueuesKept@before();
    }

    /** What `task_time_tick` still does after its first switch. */
    method FinishTick()
      requires Valid()
      modifies this`k, this`curr, this`pending, run.ready, run.sleep, run.all
      ensures Valid() && k == Dispatch(Sweep(old(k)))
      decreases |pending|, 2
    {
      hide Valid, Sweep, Dispatch;
      SweepParts(k);
      SyncFields();
      SweepSleepList();
      SyncFields();
      TaskDispatch();
    }

    method TaskDispatch()
      requires Valid()
      modifies this`k, this`curr, this`pending, run.ready, run.sleep, run.all
      ensures Valid() && k == Dispatch(old(k))
      decreases |pending|, 1
    {
      hide QueuesOk, L.List.Valid, Sweep;
      label before:
      var to := TaskNextRun();
      if to != curr {
        curr := to;
        k := k.(curr := to);
        if to in pending {
          ghost var p := pending;
          pending := pending - {to};
          k := k.(pending := pending);
          assert p == pending + {to};
          FieldsChanged@before();
          FinishTick();
        } else {
          FieldsChanged@before();
        }
      }
    }

    /** The running task goes from the head of the ready list to its tail. */
    method Rotate()
      requires Valid() && Inv(k)
      modifies this`k, run.ready, run.all
      ensures Valid() && k == SetReady(SetBlock(old(k), curr), curr)
    {
      hide Valid, Inv, SetBlock;
      SyncFields();
      HasHead(k);
      if curr != IDLE { HeadLeaves(k); }
      SetBlockParts(k, curr);
      TaskSetBlock(curr);
      TaskSetReady(curr);
    }

    /** The running task uses up one tick of its slice. */
    method CountSlice() returns (over: bool)
      requires Valid() && Inv(k)
      modifies this`k, this`slice, this`idleSlice
      ensures Valid() && k == TakeTick(old(k)) && over == SliceOver(old(k)) && Inv(k)
    {
      hide Inv, L.List.Valid, QueuesOk, RunLists.Stands;
      HasHead(k);
      TakeTickCore(k);
      label before:
      over := false;
      if curr == IDLE {
        idleSlice := idleSlice - 1;
        if idleSlice == 0 { over, idleSlice := true, SLICE; }
      } else {
        slice := slice[curr := slice[curr] - 1];
        if slice[curr] == 0 { over, slice := true, slice[curr := SLICE]; }
      }
      k := TakeTick(k);
      FieldsChanged@before();
    }

    method TaskTimeTick()
      requires Valid() && Inv(k)
      modifies this`k, this`curr, this`pending, this`slice, this`idleSlice, run.ready, run.sleep, run.all
      ensures Valid() && k == Tick(old(k)) && Inv(k)
    {
      hide Inv, Valid, QueuesOk, Sweep, Dispatch, SetBlock, TakeTick;
      TickInv(k);
      var over := CountSlice();
      if over {
        SyncFields();
        Rotate();
        SyncFields();
        var to := TaskNextRun();
        if to != curr {
          BreakOff(to);
          if curr in pending {
            Continue();
            FinishTick();
          }
          return;
        }
      }
      FinishTick();
    }

    method TaskNextRun() returns (t: int)
      requires Valid()
      ensures t == NextRun(k)
    {
      hide QueuesOk, L.List.Valid;
      t := run.TaskNextRun(k);
    }

    /** A switch in the middle of a tick. */
    method BreakOff(to: int)
      requires Valid()
      modifies this`k, this`curr, this`pending
      ensures Valid() && k == old(k).(pending := old(k).pending + {old(k).curr}, curr := to)
      ensures curr == k.curr && pending == k.pending
    {
      hide L.List.Valid;
      label before:
      pending, curr := pending + {curr}, to;
      k := k.(pending := pending, curr := to);
      FieldsChanged@before();
    }

    /** The task switched to goes on with the tick it broke off. */
    method Continue()
      requires Valid() && curr in pending
      modifies this`k, this`pending
      ensures Valid() && k == old(k).(pending := old(k).pending - {old(k).curr})
      ensures k.curr in old(k).pending && pending == k.pending
    {
      hide L.List.Valid;
      label before:
      pending := pending - {curr};
      k := k.(pending := pending);
      FieldsChanged@before();
    }

    method SysYield()
      requires Valid() && Inv(k) && curr != IDLE
      modifies this`k, this`curr, this`pending, run.ready, run.sleep, run.all
      ensures Valid() && k == Yield(old(k)) && Inv(k)
    {
      hide Inv, Valid, QueuesOk, Dispatch, SetBlock;
      SyncFields();
      YieldInv(k);
      var n := ReadyCount();
      if n > 1 {
        Rotate();
        TaskDispatch();
      }
    }

    method ReadyCount() returns (n: int)
      requires Valid()
      ensures n == |k.ready|
    {
      hide QueuesOk;
      n := run.ready.count;
    }

    /** For every time; one that comes to no ticks takes the task off all lists. */
    method SysSleep(ms: nat)
      requires Valid() && Inv(k) && curr != IDLE
      modifies this`k, this`curr, this`pending, run.ready, run.sleep, run.all
      ensures Valid() && k == Sleep(old(k), ms) && (NapTicks(ms) > 0 ==> Inv(k))
    {
      hide Inv, Valid, Dispatch, SetBlock, NapTicks;
      SyncFields();
      if NapTicks(ms) > 0 { SleepInv(k, ms); }
      HeadLeaves(k);
      SetBlockParts(k, curr);
      TaskSetBlock(curr);
      TaskSetSleep(curr, NapTicks(ms));
      TaskDispatch();
    }

    /** Owner and depth of a mutex; its queue stays. */
    method SetMutex(m: nat, holder: int, count: nat)
      requires Valid() && m < |owner|
      modifies this`k, this`owner, this`depth
      ensures Valid() && m < |old(k).mutexes| && |owner| == old(|owner|)
      ensures k == old(k).(mutexes := old(k).mutexes[m := Mutex(holder, count, old(k).mutexes[m].waiters)])
    {
      hide L.List.Valid, RunLists.Stands;
      label before:
      owner, depth := owner[m := holder], depth[m := count];
      k := k.(mutexes := k.mutexes[m := Mutex(holder, count, k.mutexes[m].waiters)]);
      FieldsChanged@before();
    }

    method SetSem(s: nat, count: nat)
      requires Valid() && s < |semCount|
      modifies this`k, this`semCount
      ensures Valid() && s < |old(k).sems|
      ensures k == old(k).(sems := old(k).sems[s := Sem(count, old(k).sems[s].waiters)])
    {
      hide L.List.Valid, RunLists.Stands;
      label before:
      semCount := semCount[s := count];
      k := k.(sems := k.sems[s := Sem(count, k.sems[s].waiters)]);
      FieldsChanged@before();
    }

    /** `list_count` of a wait list. */
    method Waiting(i: nat) returns (n: int)
      requires Valid() && i < |waits|
      ensures i < |k.mutexes| + |k.sems| && n == |QueueAt(k, i)|
    {
      hide RunLists.Stands;
      n := waits[i].count;
      assert |Ids(waits[i].nodes)| == n;
    }

    method MutexLock(m: nat)
      requires Valid() && Inv(k) && curr != IDLE && m < |owner|
      modifies this`k, this`curr, this`pending, this`owner, this`depth
      modifies run.ready, run.sleep, run.all, waits, waitAll
      ensures Valid() && k == Lock(old(k), m) && Inv(k)
    {
      hide Inv, Valid, Dispatch, SetBlock;
      SyncFields();
      LockInv(k, m);
      if depth[m] == 0 {
        SetMutex(m, curr, depth[m] + 1);
      } else if owner[m] == curr {
        SetMutex(m, owner[m], depth[m] + 1);
      } else {
        HeadLeaves(k);
        SetBlockParts(k, curr);
        TaskSetBlock(curr);
        Enqueue(m);
        TaskDispatch();
      }
    }

    method MutexUnlock(m: nat)
      requires Valid() && Inv(k) && curr != IDLE && m < |owner|
      modifies this`k, this`curr, this`pending, this`owner, this`depth
      modifies run.ready, run.sleep, run.all, waits, waitAll
      ensures Valid() && k == Unlock(old(k), m) && Inv(k)
    {
      hide Inv, Valid, Dispatch;
      SyncFields();
      UnlockInv(k, m);
      OwnerCounts(k, m);
      if owner[m] == curr {
        if depth[m] - 1 > 0 {
          SetMutex(m, owner[m], depth[m] - 1);
        } else {
          var n := Waiting(m);
          if n > 0 { QueueHead(k, m); }
          SetMutex(m, IDLE, 0);
          if n > 0 {
            SyncFields();
            var t := Dequeue(m);
            TaskSetReady(t);
            SyncFields();
            SetMutex(m, t, 1);
            ghost var x, k0 := old(k).mutexes[m], old(k);
            assert k.mutexes == k0.mutexes[m := Mutex(t, 1, x.waiters[1..])];
            assert k == SetReady(k0, t).(mutexes := k0.mutexes[m := Mutex(t, 1, x.waiters[1..])]);
            TaskDispatch();
          }
        }
      }
    }

    method SemWait(s: nat)
      requires Valid() && Inv(k) && curr != IDLE && s < |semCount|
      modifies this`k, this`curr, this`pending, this`semCount
      modifies run.ready, run.sleep, run.all, waits, waitAll
      ensures Valid() && k == Wait(old(k), s) && Inv(k)
    {
      hide Inv, Valid, Dispatch, SetBlock;
      SyncFields();
      WaitInv(k, s);
      if semCount[s] > 0 {
        SetSem(s, semCount[s] - 1);
      } else {
        HeadLeaves(k);
        SetBlockParts(k, curr);
        TaskSetBlock(curr);
        Enqueue(|owner| + s);
        TaskDispatch();
      }
    }

    method SemNotify(s: nat)
      requires Valid() && Inv(k) && s < |semCount|
      modifies this`k, this`curr, this`pending, this`semCount
      modifies run.ready, run.sleep, run.all, waits, waitAll
      ensures Valid() && k == Notify(old(k), s) && Inv(k)
    {
      hide Inv, Valid, Dispatch;
      SyncFields();
      NotifyInv(k, s);
      var i := |owner| + s;
      var n := Waiting(i);
      if n > 0 {
        QueueHead(k, i);
        var t := Dequeue(i);
        TaskSetReady(t);
        TaskDispatch();
      } else {
        SetSem(s, semCount[s] + 1);
      }
    }

    /** Every step of the machine is taken by the code. */
    method Take(e: Event)
      requires Valid() && Inv(k) && Enabled(k, e)
      modifies this`k, this`curr, this`pending, this`slice, this`idleSlice, this`owner, this`depth, this`semCount
      modifies run.ready, run.sleep, run.all, waits, waitAll
      ensures Valid() && k == Step(old(k), e) && Inv(k)
    {
      hide Inv, Valid, Tick, Yield, Sleep, Lock, Unlock, Wait, Notify;
      SyncFields();
      match e
      case ETick => TaskTimeTick();
      case EYield => SysYield();
      case ESleep(ms) => SysSleep(ms);
      case ELock(m) => MutexLock(m);
      case EUnlock(m) => MutexUnlock(m);
      case EWait(s) => SemWait(s);
      case ENotify(s) => SemNotify(s);
    }
  }
}
