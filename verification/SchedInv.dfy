/** What every run of the scheduler keeps. */
module SchedInv {
  import opened Sched
  import opened Bags

  // ----- every task is in exactly one place -----

  function MutexWaiters(ms: seq<Mutex>): multiset<int> {
    if ms == [] then multiset{} else MutexWaiters(ms[..|ms| - 1]) + multiset(ms[|ms| - 1].waiters)
  }

  function SemWaiters(ss: seq<Sem>): multiset<int> {
    if ss == [] then multiset{} else SemWaiters(ss[..|ss| - 1]) + multiset(ss[|ss| - 1].waiters)
  }

  lemma {:induction false} MutexUpdate(ms: seq<Mutex>, i: nat, x: Mutex)
    requires i < |ms|
    ensures MutexWaiters(ms[i := x]) + multiset(ms[i].waiters) == MutexWaiters(ms) + multiset(x.waiters)
  {
    hide MutexWaiters;
    var n := |ms| - 1;
    MutexWaitersLast(ms);
    MutexWaitersLast(ms[i := x]);
    if i < n {
      MutexUpdate(ms[..n], i, x);
      assert ms[i := x][..n] == ms[..n][i := x];
      assert ms[i := x][n] == ms[n] && ms[..n][i] == ms[i];
      AddBoth(MutexWaiters(ms[..n][i := x]), multiset(ms[i].waiters), MutexWaiters(ms[..n]), multiset(x.waiters),
              multiset(ms[n].waiters));
    } else {
      assert ms[i := x][..n] == ms[..n];
    }
  }

  lemma MutexWaitersLast(ms: seq<Mutex>)
    requires ms != []
    ensures MutexWaiters(ms) == MutexWaiters(ms[..|ms| - 1]) + multiset(ms[|ms| - 1].waiters)
  {
  }

  lemma {:induction false} SemUpdate(ss: seq<Sem>, i: nat, x: Sem)
    requires i < |ss|
    ensures SemWaiters(ss[i := x]) + multiset(ss[i].waiters) == SemWaiters(ss) + multiset(x.waiters)
  {
    hide SemWaiters;
    var n := |ss| - 1;
    SemWaitersLast(ss);
    SemWaitersLast(ss[i := x]);
    if i < n {
      SemUpdate(ss[..n], i, x);
      assert ss[i := x][..n] == ss[..n][i := x];
      assert ss[i := x][n] == ss[n] && ss[..n][i] == ss[i];
      AddBoth(SemWaiters(ss[..n][i := x]), multiset(ss[i].waiters), SemWaiters(ss[..n]), multiset(x.waiters),
              multiset(ss[n].waiters));
    } else {
      assert ss[i := x][..n] == ss[..n];
    }
  }

  lemma SemWaitersLast(ss: seq<Sem>)
    requires ss != []
    ensures SemWaiters(ss) == SemWaiters(ss[..|ss| - 1]) + multiset(ss[|ss| - 1].waiters)
  {
  }

  /** All places a task can be in, together. */
  function All(k: K): multiset<int> {
    multiset(k.ready) + multiset(k.sleepers) + MutexWaiters(k.mutexes) + SemWaiters(k.sems)
  }

  function Everyone(n: nat): multiset<int> {
    if n == 0 then multiset{} else Everyone(n - 1) + multiset{n - 1}
  }

  lemma {:induction false} EveryoneOnce(n: nat, t: int)
    ensures Everyone(n)[t] == if 0 <= t < n then 1 else 0
  {
    if n > 0 { EveryoneOnce(n - 1, t); }
  }

  // ----- the invariant -----

  predicate MutexOk(x: Mutex) {
    && (x.count == 0 <==> x.owner == IDLE)
    && (x.waiters != [] ==> x.count > 0)
    && x.owner !in x.waiters
  }

  predicate SemOk(x: Sem) { x.waiters != [] ==> x.count == 0 }

  /** Holds at every moment, also between the pieces of a step. */
  ghost predicate Core(k: K) {
    && |k.slice| == |k.nap| && All(k) == Everyone(|k.slice|)
    && (forall t :: 0 <= t < |k.slice| ==> 1 <= k.slice[t] <= SLICE)
    && 1 <= k.idleSlice <= SLICE
    && (forall t :: t in k.sleepers ==> NapOf(k, t) >= 1)
    && IDLE !in k.pending && (forall t :: t in k.pending ==> t in k.ready)
    && (forall m :: 0 <= m < |k.mutexes| ==> MutexOk(k.mutexes[m]))
    && (forall s :: 0 <= s < |k.sems| ==> SemOk(k.sems[s]))
  }

  /** Holds whenever interrupts are on: the current task is the head of the ready list,
      or the idle task when that is empty, and has no unfinished tick. */
  ghost predicate Inv(k: K) {
    Core(k) && k.curr == NextRun(k) && k.curr !in k.pending
  }

  /** Where task `t` is: exactly one of the lists holds it, exactly once. */
  lemma OnePlace(k: K, t: int)
    requires Core(k)
    ensures multiset(k.ready)[t] + multiset(k.sleepers)[t] + MutexWaiters(k.mutexes)[t] + SemWaiters(k.sems)[t]
         == if IsTask(k, t) then 1 else 0
  {
    EveryoneOnce(|k.slice|, t);
    assert All(k)[t]
        == multiset(k.ready)[t] + multiset(k.sleepers)[t] + MutexWaiters(k.mutexes)[t] + SemWaiters(k.sems)[t];
  }

  lemma {:induction false} WaitsSomewhere(ms: seq<Mutex>, i: nat, t: int)
    requires i < |ms| && t in ms[i].waiters
    ensures MutexWaiters(ms)[t] >= 1
  {
    if i < |ms| - 1 { WaitsSomewhere(ms[..|ms| - 1], i, t); }
  }

  lemma {:induction false} WaitsForSem(ss: seq<Sem>, i: nat, t: int)
    requires i < |ss| && t in ss[i].waiters
    ensures SemWaiters(ss)[t] >= 1
  {
    if i < |ss| - 1 { WaitsForSem(ss[..|ss| - 1], i, t); }
  }

  /** A ready task is a task, is nowhere else, and is listed once. */
  lemma ReadyOnly(k: K, t: int)
    requires Core(k) && t in k.ready
    ensures IsTask(k, t) && multiset(k.ready)[t] == 1 && t !in k.sleepers
    ensures forall m :: 0 <= m < |k.mutexes| ==> t !in k.mutexes[m].waiters
    ensures forall s :: 0 <= s < |k.sems| ==> t !in k.sems[s].waiters
  {
    OnePlace(k, t);
    assert multiset(k.ready)[t] >= 1;
    assert t in k.sleepers ==> multiset(k.sleepers)[t] >= 1;
    forall m | 0 <= m < |k.mutexes| ensures t !in k.mutexes[m].waiters {
      if t in k.mutexes[m].waiters { WaitsSomewhere(k.mutexes, m, t); assert false; }
    }
    forall s | 0 <= s < |k.sems| ensures t !in k.sems[s].waiters {
      if t in k.sems[s].waiters { WaitsForSem(k.sems, s, t); assert false; }
    }
  }

  /** A waiter of a mutex is a task and not ready. */
  lemma WaiterIsTask(k: K, m: nat, t: int)
    requires Core(k) && m < |k.mutexes| && t in k.mutexes[m].waiters
    ensures IsTask(k, t) && t !in k.ready
  {
    OnePlace(k, t);
    WaitsSomewhere(k.mutexes, m, t);
    assert t in k.ready ==> multiset(k.ready)[t] >= 1;
  }

  lemma SemWaiterIsTask(k: K, s: nat, t: int)
    requires Core(k) && s < |k.sems| && t in k.sems[s].waiters
    ensures IsTask(k, t) && t !in k.ready
  {
    OnePlace(k, t);
    WaitsForSem(k.sems, s, t);
    assert t in k.ready ==> multiset(k.ready)[t] >= 1;
  }

  // ----- the sweep -----

  lemma {:induction false} SweepSplits(k: K, s: seq<int>)
    ensures multiset(StillAsleep(k, s)) + multiset(Woken(k, s)) == multiset(s)
    ensures forall t :: t in StillAsleep(k, s) <==> t in s && NapOf(k, t) != 1
    ensures forall t :: t in Woken(k, s) <==> t in s && NapOf(k, t) == 1
  {
    if s != [] {
      var n := |s| - 1;
      SweepSplits(k, s[..n]);
      assert s == s[..n] + [s[n]];
    }
  }

  lemma SweepCore(k: K)
    requires Core(k)
    ensures Core(Sweep(k))
    ensures k.ready != [] ==> NextRun(Sweep(k)) == NextRun(k)
  {
    hide Everyone, MutexWaiters, SemWaiters, StillAsleep, Woken, MutexOk, SemOk;
    SweepSplits(k, k.sleepers);
    var k' := Sweep(k);
    assert multiset(k'.ready) == multiset(k.ready) + multiset(Woken(k, k.sleepers));
    forall t | t in k'.sleepers ensures NapOf(k', t) >= 1 {
      assert t in k.sleepers && NapOf(k, t) >= 2;
    }
  }

  // ----- dispatch -----

  /** Dispatch in closed form: it makes the head current and finishes at most one
      unfinished tick, that of the task it switches to. */
  lemma DispatchShape(k: K)
    requires Core(k) && k.curr !in k.pending
    ensures var to := NextRun(k);
      Dispatch(k) == if to in k.pending then Sweep(k.(curr := to, pending := k.pending - {to})) else k.(curr := to)
  {
    var to := NextRun(k);
    if to != k.curr && to in k.pending {
      var k1 := k.(curr := to, pending := k.pending - {to});
      assert Core(k1);
      SweepCore(k1);
      assert Resume(k.(curr := to)) == Dispatch(Sweep(k1));
      assert NextRun(Sweep(k1)) == Sweep(k1).curr;
    }
  }

  lemma DispatchInv(k: K)
    requires Core(k) && k.curr !in k.pending
    ensures Inv(Dispatch(k))
  {
    hide Dispatch, Resume, Core, Sweep;
    DispatchShape(k);
    var to := NextRun(k);
    var k1 := k.(curr := to, pending := k.pending - {to});
    CurrCore(k, k1);
    if to in k.pending {
      PendingReady(k);
      SweepCore(k1);
      SweepPending(k1);
    } else {
      assert k1.pending == k.pending;
    }
  }

  lemma CurrCore(k: K, k': K)
    requires Core(k) && k' == k.(curr := k'.curr, pending := k'.pending) && k'.pending <= k.pending
    ensures Core(k')
  {
    hide Everyone, MutexWaiters, SemWaiters, MutexOk, SemOk;
  }

  /** Unfinished ticks belong to ready tasks. */
  lemma PendingReady(k: K)
    requires Core(k)
    ensures forall t :: t in k.pending ==> t in k.ready && IsTask(k, t)
  {
    hide Everyone, MutexWaiters, SemWaiters, MutexOk, SemOk;
    forall t | t in k.pending ensures t in k.ready && IsTask(k, t) { ReadyOnly(k, t); }
  }

  lemma PendingBehind(k: K)
    requires Inv(k) && k.ready != []
    ensures forall t :: t in k.pending ==> t in k.ready[1..]
  {
    hide Everyone, MutexWaiters, SemWaiters, MutexOk, SemOk;
    forall t | t in k.pending ensures t in k.ready[1..] {
      assert k.ready == [k.ready[0]] + k.ready[1..];
    }
  }

  lemma ResumeShape(k: K)
    requires Core(k) && k.curr == NextRun(k)
    ensures Resume(k) == if k.curr in k.pending then Sweep(k.(pending := k.pending - {k.curr})) else k
    ensures Inv(Resume(k))
  {
    if k.curr in k.pending {
      var k1 := k.(pending := k.pending - {k.curr});
      assert Core(k1);
      SweepCore(k1);
      assert Dispatch(Sweep(k1)) == Sweep(k1);
    }
  }

  /** With the running task at the head, taking it off the ready list is dropping the head. */
  lemma HeadOff(k: K)
    requires Inv(k) && k.curr != IDLE
    ensures k.ready != [] && k.curr == k.ready[0] && IsTask(k, k.curr) && SetBlock(k, k.curr).ready == k.ready[1..]
    ensures multiset(k.ready) == multiset{k.curr} + multiset(k.ready[1..])
  {
    ReadyOnly(k, k.ready[0]);
    assert k.ready == [k.ready[0]] + k.ready[1..];
  }

  // ----- every step -----

  /** Rotating the running task to the tail. */
  lemma RotateCore(k: K)
    requires Inv(k) && k.curr != IDLE
    ensures var k' := SetReady(SetBlock(k, k.curr), k.curr);
      k' == k.(ready := k.ready[1..] + [k.curr]) && Core(k')
  {
    hide Everyone, MutexWaiters, SemWaiters, MutexOk, SemOk;
    HeadOff(k);
    assert multiset(k.ready[1..] + [k.curr]) == multiset(k.ready);
  }

  lemma TakeTickCore(k: K)
    requires Inv(k)
    ensures Inv(TakeTick(k))
  {
    hide Everyone, MutexWaiters, SemWaiters, MutexOk, SemOk;
    if k.curr != IDLE { HeadOff(k); }
  }

  lemma TickInv(k: K)
    requires Inv(k)
    ensures Inv(Tick(k))
  {
    hide Core, Dispatch, Resume, Sweep;
    TakeTickCore(k);
    var k1 := TakeTick(k);
    if SliceOver(k) && k.curr != IDLE {
      RotateCore(k1);
      var k2 := SetReady(SetBlock(k1, k1.curr), k1.curr);
      if NextRun(k2) != k2.curr {
        var k3 := k2.(pending := k2.pending + {k2.curr}, curr := NextRun(k2));
        PendingCore(k2, k3);
        ResumeShape(k3);
      } else {
        SweepCore(k2);
        SweepPending(k2);
        DispatchInv(Sweep(k2));
      }
    } else if SliceOver(k) {
      SweepCore(k1);
      SweepPending(k1);
      DispatchInv(Sweep(k1));
    } else {
      SweepCore(k1);
      SweepPending(k1);
      DispatchInv(Sweep(k1));
    }
  }

  lemma SweepPending(k: K)
    ensures Sweep(k).pending == k.pending && Sweep(k).curr == k.curr
  {
  }

  lemma PendingCore(k: K, k': K)
    requires Core(k) && k.curr in k.ready && k.curr != IDLE
    requires k' == k.(pending := k.pending + {k.curr}, curr := NextRun(k))
    ensures Core(k')
  {
  }

  lemma YieldInv(k: K)
    requires Inv(k) && k.curr != IDLE
    ensures Inv(Yield(k))
  {
    hide Core, Dispatch;
    if |k.ready| > 1 {
      RotateCore(k);
      DispatchInv(SetReady(SetBlock(k, k.curr), k.curr));
    }
  }

  lemma SleepCore(k: K, ms: nat)
    requires Inv(k) && k.curr != IDLE && NapTicks(ms) > 0
    ensures IsTask(k, k.curr) && k.ready != [] && k.curr !in k.pending
    ensures Core(k.(ready := k.ready[1..], nap := k.nap[k.curr := NapTicks(ms)], sleepers := k.sleepers + [k.curr]))
  {
    hide Everyone, MutexWaiters, SemWaiters, MutexOk, SemOk, NapTicks;
    HeadOff(k);
    var k2 := k.(ready := k.ready[1..], nap := k.nap[k.curr := NapTicks(ms)], sleepers := k.sleepers + [k.curr]);
    assert All(k2) == All(k);
    PendingBehind(k);
    ReadyOnly(k, k.curr);
  }

  lemma SleepInv(k: K, ms: nat)
    requires Inv(k) && k.curr != IDLE && NapTicks(ms) > 0
    ensures Inv(Sleep(k, ms))
  {
    hide Core, Inv, Dispatch, SetBlock, NapTicks;
    SleepCore(k, ms);
    BlockShape(k);
    DispatchInv(k.(ready := k.ready[1..], nap := k.nap[k.curr := NapTicks(ms)], sleepers := k.sleepers + [k.curr]));
  }

  /** Moving a task between the ready list and a mutex queue. */
  lemma MutexStep(k: K, r: seq<int>, m: nat, x: Mutex)
    requires Core(k) && m < |k.mutexes| && MutexOk(x) && (forall t :: t in k.pending ==> t in r)
    requires multiset(r) + multiset(x.waiters) == multiset(k.ready) + multiset(k.mutexes[m].waiters)
    ensures Core(k.(ready := r, mutexes := k.mutexes[m := x]))
  {
    hide Everyone, MutexWaiters, SemWaiters, SemOk, MutexOk;
    MutexUpdate(k.mutexes, m, x);
    var k' := k.(ready := r, mutexes := k.mutexes[m := x]);
    Exchange(multiset(r), multiset(k.ready), multiset(x.waiters), multiset(k.mutexes[m].waiters),
             MutexWaiters(k'.mutexes), MutexWaiters(k.mutexes));
    assert All(k') == (multiset(r) + MutexWaiters(k'.mutexes)) + multiset(k.sleepers) + SemWaiters(k.sems);
    assert All(k) == (multiset(k.ready) + MutexWaiters(k.mutexes)) + multiset(k.sleepers) + SemWaiters(k.sems);
  }

  /** Moving a task between the ready list and a semaphore queue. */
  lemma SemStep(k: K, r: seq<int>, s: nat, x: Sem)
    requires Core(k) && s < |k.sems| && SemOk(x) && (forall t :: t in k.pending ==> t in r)
    requires multiset(r) + multiset(x.waiters) == multiset(k.ready) + multiset(k.sems[s].waiters)
    ensures Core(k.(ready := r, sems := k.sems[s := x]))
  {
    hide Everyone, MutexWaiters, SemWaiters, SemOk, MutexOk;
    SemUpdate(k.sems, s, x);
    var k' := k.(ready := r, sems := k.sems[s := x]);
    Exchange(multiset(r), multiset(k.ready), multiset(x.waiters), multiset(k.sems[s].waiters),
             SemWaiters(k'.sems), SemWaiters(k.sems));
    assert All(k') == (multiset(r) + SemWaiters(k'.sems)) + multiset(k.sleepers) + MutexWaiters(k.mutexes);
    assert All(k) == (multiset(k.ready) + SemWaiters(k.sems)) + multiset(k.sleepers) + MutexWaiters(k.mutexes);
  }

  lemma MutexIsOk(k: K, m: nat)
    requires Core(k) && m < |k.mutexes|
    ensures MutexOk(k.mutexes[m])
  {
  }

  lemma LockCore(k: K, m: nat)
    requires Inv(k) && k.curr != IDLE && m < |k.mutexes| && k.mutexes[m].count > 0 && k.mutexes[m].owner != k.curr
    ensures var x := k.mutexes[m];
      && k.ready != []
      && Core(k.(ready := k.ready[1..], mutexes := k.mutexes[m := x.(waiters := x.waiters + [k.curr])]))
  {
    hide Core;
    HeadOff(k);
    ReadyOnly(k, k.curr);
    PendingBehind(k);
    MutexIsOk(k, m);
    var x := k.mutexes[m];
    MutexStep(k, k.ready[1..], m, x.(waiters := x.waiters + [k.curr]));
  }

  lemma LockInv(k: K, m: nat)
    requires Inv(k) && k.curr != IDLE && m < |k.mutexes|
    ensures Inv(Lock(k, m))
  {
    hide Core, Dispatch, SetBlock;
    HeadOff(k);
    ReadyOnly(k, k.curr);
    PendingReady(k);
    MutexIsOk(k, m);
    var x := k.mutexes[m];
    if x.count == 0 {
      MutexStep(k, k.ready, m, x.(count := 1, owner := k.curr));
      assert Lock(k, m) == k.(ready := k.ready, mutexes := k.mutexes[m := x.(count := 1, owner := k.curr)]);
    } else if x.owner == k.curr {
      MutexStep(k, k.ready, m, x.(count := x.count + 1));
      assert Lock(k, m) == k.(ready := k.ready, mutexes := k.mutexes[m := x.(count := x.count + 1)]);
    } else {
      LockCore(k, m);
      BlockShape(k);
      DispatchInv(k.(ready := k.ready[1..], mutexes := k.mutexes[m := x.(waiters := x.waiters + [k.curr])]));
    }
  }

  lemma BlockShape(k: K)
    requires Inv(k) && k.curr != IDLE
    ensures k.ready != [] && SetBlock(k, k.curr) == k.(ready := k.ready[1..])
  {
    HeadOff(k);
  }

  lemma UnlockInv(k: K, m: nat)
    requires Inv(k) && k.curr != IDLE && m < |k.mutexes|
    ensures Inv(Unlock(k, m))
  {
    hide Core, Dispatch;
    MutexIsOk(k, m);
    PendingReady(k);
    var x := k.mutexes[m];
    if x.owner == k.curr && x.count == 1 && x.waiters != [] {
      HandOffCore(k, m);
      DispatchInv(SetReady(k, x.waiters[0]).(mutexes := k.mutexes[m := Mutex(x.waiters[0], 1, x.waiters[1..])]));
    } else if x.owner == k.curr && x.count > 0 {
      var x' := if x.count > 1 then x.(count := x.count - 1) else x.(count := 0, owner := IDLE);
      assert x.count == 1 ==> |x.waiters| == 0;
      MutexStep(k, k.ready, m, x');
      assert Unlock(k, m) == k.(ready := k.ready, mutexes := k.mutexes[m := x']);
    }
  }

  lemma HandOffCore(k: K, m: nat)
    requires Inv(k) && m < |k.mutexes| && k.mutexes[m].waiters != []
    ensures var x := k.mutexes[m];
      && IsTask(k, x.waiters[0])
      && Core(SetReady(k, x.waiters[0]).(mutexes := k.mutexes[m := Mutex(x.waiters[0], 1, x.waiters[1..])]))
  {
    hide Core, MutexWaiters;
    var x := k.mutexes[m];
    var t := x.waiters[0];
    WaiterIsTask(k, m, t);
    assert x.waiters == [t] + x.waiters[1..];
    assert multiset(x.waiters) == multiset{t} + multiset(x.waiters[1..]);
    OnePlace(k, t);
    WaitsOnce(k.mutexes, m, t);
    assert multiset(x.waiters)[t] == 1 + multiset(x.waiters[1..])[t];
    PendingReady(k);
    MutexStep(k, k.ready + [t], m, Mutex(t, 1, x.waiters[1..]));
  }

  /** A waiter is listed at least as often over all queues as in one of them. */
  lemma {:induction false} WaitsOnce(ms: seq<Mutex>, i: nat, t: int)
    requires i < |ms|
    ensures MutexWaiters(ms)[t] >= multiset(ms[i].waiters)[t]
  {
    if i < |ms| - 1 { WaitsOnce(ms[..|ms| - 1], i, t); }
  }

  lemma WaitCore(k: K, s: nat)
    requires Inv(k) && k.curr != IDLE && s < |k.sems| && k.sems[s].count == 0
    ensures var x := k.sems[s];
      && k.ready != []
      && Core(k.(ready := k.ready[1..], sems := k.sems[s := x.(waiters := x.waiters + [k.curr])]))
  {
    hide Core;
    HeadOff(k);
    PendingBehind(k);
    var x := k.sems[s];
    SemStep(k, k.ready[1..], s, x.(waiters := x.waiters + [k.curr]));
  }

  lemma WaitInv(k: K, s: nat)
    requires Inv(k) && k.curr != IDLE && s < |k.sems|
    ensures Inv(Wait(k, s))
  {
    hide Core, Dispatch, SetBlock;
    HeadOff(k);
    SemIsOk(k, s);
    PendingReady(k);
    var x := k.sems[s];
    if x.count > 0 {
      SemStep(k, k.ready, s, x.(count := x.count - 1));
      assert Wait(k, s) == k.(ready := k.ready, sems := k.sems[s := x.(count := x.count - 1)]);
    } else {
      WaitCore(k, s);
      BlockShape(k);
      DispatchInv(k.(ready := k.ready[1..], sems := k.sems[s := x.(waiters := x.waiters + [k.curr])]));
    }
  }

  lemma SemIsOk(k: K, s: nat)
    requires Core(k) && s < |k.sems|
    ensures SemOk(k.sems[s])
  {
  }

  lemma NotifyCore(k: K, s: nat)
    requires Inv(k) && s < |k.sems| && k.sems[s].waiters != []
    ensures var x := k.sems[s];
      && IsTask(k, x.waiters[0])
      && Core(SetReady(k, x.waiters[0]).(sems := k.sems[s := x.(waiters := x.waiters[1..])]))
  {
    hide Core;
    SemIsOk(k, s);
    PendingReady(k);
    var x := k.sems[s];
    var t := x.waiters[0];
    SemWaiterIsTask(k, s, t);
    assert x.waiters == [t] + x.waiters[1..];
    SemStep(k, k.ready + [t], s, x.(waiters := x.waiters[1..]));
  }

  lemma NotifyInv(k: K, s: nat)
    requires Inv(k) && s < |k.sems|
    ensures Inv(Notify(k, s))
  {
    hide Core, Dispatch;
    SemIsOk(k, s);
    PendingReady(k);
    var x := k.sems[s];
    if x.waiters == [] {
      SemStep(k, k.ready, s, x.(count := x.count + 1));
      assert Notify(k, s) == k.(ready := k.ready, sems := k.sems[s := x.(count := x.count + 1)]);
    } else {
      NotifyCore(k, s);
      DispatchInv(SetReady(k, x.waiters[0]).(sems := k.sems[s := x.(waiters := x.waiters[1..])]));
    }
  }

  /** Every enabled step keeps the invariant. */
  lemma StepInv(k: K, e: Event)
    requires Inv(k) && Enabled(k, e)
    ensures Inv(Step(k, e))
  {
    hide Inv;
    match e
    case ETick => TickInv(k);
    case EYield => YieldInv(k);
    case ESleep(ms) => SleepInv(k, ms);
    case ELock(m) => LockInv(k, m);
    case EUnlock(m) => UnlockInv(k, m);
    case EWait(s) => WaitInv(k, s);
    case ENotify(s) => NotifyInv(k, s);
  }

  // ----- runs -----

  ghost predicate IsRun(ks: seq<K>, es: seq<Event>) {
    && |ks| == |es| + 1
    && forall i :: 0 <= i < |es| ==> Enabled(ks[i], es[i]) && ks[i + 1] == Step(ks[i], es[i])
  }

  lemma {:induction false} RunInv(ks: seq<K>, es: seq<Event>, i: nat)
    requires IsRun(ks, es) && Inv(ks[0]) && i <= |es|
    ensures Inv(ks[i])
  {
    hide Inv, Step;
    if i > 0 {
      RunInv(ks, es, i - 1);
      StepInv(ks[i - 1], es[i - 1]);
    }
  }

  /** At every moment of every run each task is in exactly one list, and the current task
      is the head of the ready list, or the idle task when that is empty. */
  lemma RunPlaces(ks: seq<K>, es: seq<Event>, i: nat, t: int)
    requires IsRun(ks, es) && Inv(ks[0]) && i <= |es|
    ensures var k := ks[i];
      && multiset(k.ready)[t] + multiset(k.sleepers)[t] + MutexWaiters(k.mutexes)[t] + SemWaiters(k.sems)[t]
         == (if IsTask(k, t) then 1 else 0)
      && k.curr == (if k.ready == [] then IDLE else k.ready[0])
  {
    RunInv(ks, es, i);
    OnePlace(ks[i], t);
  }
}
