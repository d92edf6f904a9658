/** Every step of the scheduler in closed form: its own effect, followed by one switch. */
module SchedRuns {
  import opened Sched
  import opened SchedInv

  // ----- every step in closed form: its own effect, then a switch -----

  /** The switch that ends a step: the head runs, after finishing its broken-off tick. */
  function Settle(k: K): K {
    var to := NextRun(k);
    if to in k.pending then Sweep(k.(curr := to, pending := k.pending - {to})) else k.(curr := to)
  }

  function Rotated(k: K): K
    requires k.ready != []
  {
    k.(ready := k.ready[1..] + [k.curr])
  }

  /** What a step does before the switch, when the running task is the head. */
  function Effect(k: K, e: Event): K
    requires Enabled(k, e) && (k.curr != IDLE ==> k.ready != [])
  {
    match e
    case ETick =>
      var k1 := TakeTick(k);
      if !SliceOver(k) || k.curr == IDLE then Sweep(k1)
      else if |k.ready| == 1 then Sweep(Rotated(k1))
      else Rotated(k1).(pending := k.pending + {k.curr})
    case EYield => if |k.ready| > 1 then Rotated(k) else k
    case ESleep(ms) =>
      k.(ready := k.ready[1..], sleepers := k.sleepers + [k.curr],
         nap := if IsTask(k, k.curr) then k.nap[k.curr := NapTicks(ms)] else k.nap)
    case ELock(m) =>
      var x := k.mutexes[m];
      if x.count == 0 then k.(mutexes := k.mutexes[m := x.(count := 1, owner := k.curr)])
      else if x.owner == k.curr then k.(mutexes := k.mutexes[m := x.(count := x.count + 1)])
      else k.(ready := k.ready[1..], mutexes := k.mutexes[m := x.(waiters := x.waiters + [k.curr])])
    case EUnlock(m) =>
      var x := k.mutexes[m];
      if x.owner != k.curr || x.count == 0 then k
      else if x.count > 1 then k.(mutexes := k.mutexes[m := x.(count := x.count - 1)])
      else if x.waiters == [] then k.(mutexes := k.mutexes[m := x.(count := 0, owner := IDLE)])
      else k.(ready := k.ready + [x.waiters[0]], mutexes := k.mutexes[m := Mutex(x.waiters[0], 1, x.waiters[1..])])
    case EWait(s) =>
      var x := k.sems[s];
      if x.count > 0 then k.(sems := k.sems[s := x.(count := x.count - 1)])
      else k.(ready := k.ready[1..], sems := k.sems[s := x.(waiters := x.waiters + [k.curr])])
    case ENotify(s) =>
      var x := k.sems[s];
      if x.waiters == [] then k.(sems := k.sems[s := x.(count := x.count + 1)])
      else k.(ready := k.ready + [x.waiters[0]], sems := k.sems[s := x.(waiters := x.waiters[1..])])
  }

  lemma HasHead(k: K)
    requires Inv(k)
    ensures k.curr != IDLE ==> k.ready != [] && k.curr == k.ready[0] && IsTask(k, k.curr)
    ensures k.curr == IDLE ==> k.ready == []
    ensures k.curr !in k.pending
  {
    hide Everyone, MutexWaiters, SemWaiters, MutexOk, SemOk;
    if k.curr != IDLE { HeadOff(k); }
    if k.ready != [] { ReadyOnly(k, k.ready[0]); }
  }

  lemma DispatchSettles(k: K)
    requires Core(k) && k.curr !in k.pending
    ensures Dispatch(k) == Settle(k)
  {
    hide Core, Dispatch, Sweep;
    DispatchShape(k);
  }

  lemma TickForm(k: K)
    requires Inv(k)
    ensures k.curr != IDLE ==> k.ready != []
    ensures Tick(k) == Settle(Effect(k, ETick))
  {
    hide Inv, Core, Dispatch, Resume, Sweep, SetBlock, IsTask;
    HasHead(k);
    TakeTickCore(k);
    var k1 := TakeTick(k);
    TakeTickKeeps(k);
    assert Core(k1) by { InvIsCore(k1); }
    if SliceOver(k) && k.curr != IDLE {
      RotateCore(k1);
      BlockShape(k1);
      var k2 := SetReady(SetBlock(k1, k1.curr), k1.curr);
      assert k2 == Rotated(k1);
      if |k.ready| == 1 {
        assert k2.ready == [k.curr];
        SweepCore(k2);
        SweepPending(k2);
        DispatchSettles(Sweep(k2));
      } else {
        SecondDiffers(k1);
        var k3 := k2.(pending := k2.pending + {k2.curr}, curr := NextRun(k2));
        PendingCore(k2, k3);
        ResumeShape(k3);
      }
    } else {
      InvIsHead(k1);
      IdleStays(k1);
      SweepCore(k1);
      SweepPending(k1);
      DispatchSettles(Sweep(k1));
    }
  }

  lemma IdleStays(k: K)
    ensures SetReady(SetBlock(k, IDLE), IDLE) == k
  {
  }

  lemma InvIsCore(k: K)
    requires Inv(k)
    ensures Core(k)
  {
  }

  lemma TakeTickKeeps(k: K)
    ensures var k1 := TakeTick(k); k1 == k.(slice := k1.slice, idleSlice := k1.idleSlice)
  {
  }

  lemma SecondDiffers(k: K)
    requires Inv(k) && k.curr != IDLE && |k.ready| > 1
    ensures k.ready[1] != k.curr && k.curr in k.ready
  {
    hide Everyone, MutexWaiters, SemWaiters, MutexOk, SemOk;
    HeadOff(k);
    ReadyOnly(k, k.curr);
    assert k.ready == [k.ready[0], k.ready[1]] + k.ready[2..];
  }

  lemma StepForm(k: K, e: Event)
    requires Inv(k) && Enabled(k, e)
    ensures k.curr != IDLE ==> k.ready != []
    ensures Step(k, e) == Settle(Effect(k, e))
  {
    hide Inv, Core, Dispatch, Resume, Sweep, SetBlock, TakeTick, NapTicks;
    HasHead(k);
    InvIsCore(k);
    InvIsHead(k);
    match e
    case ETick => TickForm(k);
    case EYield =>
      if |k.ready| > 1 {
        RotateCore(k);
        DispatchSettles(SetReady(SetBlock(k, k.curr), k.curr));
      }
    case ESleep(ms) => SleepForm(k, ms);
    case ELock(m) => LockForm(k, m);
    case EUnlock(m) =>
      var x := k.mutexes[m];
      MutexIsOk(k, m);
      if x.owner == k.curr && x.count == 1 && x.waiters != [] {
        HandOffCore(k, m);
        DispatchSettles(SetReady(k, x.waiters[0]).(mutexes := k.mutexes[m := Mutex(x.waiters[0], 1, x.waiters[1..])]));
      }
    case EWait(s) => WaitForm(k, s);
    case ENotify(s) =>
      var x := k.sems[s];
      if x.waiters != [] {
        NotifyCore(k, s);
        DispatchSettles(SetReady(k, x.waiters[0]).(sems := k.sems[s := x.(waiters := x.waiters[1..])]));
      }
  }

  lemma InvIsHead(k: K)
    requires Inv(k)
    ensures k.curr == NextRun(k) && k.curr !in k.pending
  {
  }

  lemma SleepForm(k: K, ms: nat)
    requires Inv(k) && Enabled(k, ESleep(ms)) && k.ready != []
    ensures Sleep(k, ms) == Settle(Effect(k, ESleep(ms)))
  {
    hide Inv, Core, Dispatch, Sweep, SetBlock, NapTicks;
    BlockShape(k);
    HasHead(k);
    SleepCore(k, ms);
    DispatchSettles(Effect(k, ESleep(ms)));
  }

  lemma LockForm(k: K, m: nat)
    requires Inv(k) && Enabled(k, ELock(m)) && k.ready != []
    ensures Lock(k, m) == Settle(Effect(k, ELock(m)))
  {
    hide Inv, Core, Dispatch, Sweep, SetBlock;
    HasHead(k);
    InvIsHead(k);
    var x := k.mutexes[m];
    if x.count > 0 && x.owner != k.curr {
      BlockShape(k);
      LockCore(k, m);
      DispatchSettles(Effect(k, ELock(m)));
    }
  }

  lemma WaitForm(k: K, s: nat)
    requires Inv(k) && Enabled(k, EWait(s)) && k.ready != []
    ensures Wait(k, s) == Settle(Effect(k, EWait(s)))
  {
    hide Inv, Core, Dispatch, Sweep, SetBlock;
    HasHead(k);
    InvIsHead(k);
    if k.sems[s].count == 0 {
      BlockShape(k);
      WaitCore(k, s);
      DispatchSettles(Effect(k, EWait(s)));
    }
  }
}
