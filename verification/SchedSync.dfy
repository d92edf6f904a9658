/** Mutexes and semaphores over whole runs. */
module SchedSync {
  import opened Sched
  import opened SchedInv
  import opened SchedRuns

  // ----- semaphores -----

  function Waits(es: seq<Event>, s: nat): nat {
    if es == [] then 0 else Waits(es[..|es| - 1], s) + (if es[|es| - 1] == EWait(s) then 1 else 0)
  }

  function Notifies(es: seq<Event>, s: nat): nat {
    if es == [] then 0 else Notifies(es[..|es| - 1], s) + (if es[|es| - 1] == ENotify(s) then 1 else 0)
  }

  /** What one step does to the semaphores and mutexes: the switch does nothing to them. */
  lemma StepSync(k: K, e: Event)
    requires Inv(k) && Enabled(k, e)
    ensures k.curr != IDLE ==> k.ready != []
    ensures Step(k, e).sems == Effect(k, e).sems && Step(k, e).mutexes == Effect(k, e).mutexes
    ensures |Step(k, e).sems| == |k.sems| && |Step(k, e).mutexes| == |k.mutexes|
  {
    hide Inv, Step, NapTicks, StillAsleep, Woken;
    StepForm(k, e);
  }

  lemma SemLedgerStep(k: K, e: Event, s: nat)
    requires Inv(k) && Enabled(k, e) && s < |k.sems|
    ensures s < |Step(k, e).sems|
    ensures var x, y := k.sems[s], Step(k, e).sems[s];
      y.count - |y.waiters| == x.count - |x.waiters|
        + (if e == ENotify(s) then 1 else 0) - (if e == EWait(s) then 1 else 0)
  {
    hide Inv, Step, NapTicks, StillAsleep, Woken;
    StepSync(k, e);
  }

  /** In every run, the initial count and the notifications together are the present count
      and the granted waits, those not still queued; and a queue means a count of 0. */
  lemma {:induction false} SemLedger(ks: seq<K>, es: seq<Event>, s: nat, i: nat)
    requires IsRun(ks, es) && Inv(ks[0]) && i <= |es|
    requires s < |ks[0].sems| && ks[0].sems[s].waiters == []
    ensures s < |ks[i].sems|
    ensures var x, granted := ks[i].sems[s], Waits(es[..i], s) - |ks[i].sems[s].waiters|;
      && ks[0].sems[s].count + Notifies(es[..i], s) == x.count + granted
      && (x.waiters != [] ==> x.count == 0)
  {
    hide Inv, Step;
    if i > 0 {
      SemLedger(ks, es, s, i - 1);
      RunInv(ks, es, i - 1);
      SemLedgerStep(ks[i - 1], es[i - 1], s);
      assert es[..i][..i - 1] == es[..i - 1];
    }
    RunInv(ks, es, i);
    InvIsCore(ks[i]);
    SemIsOk(ks[i], s);
  }

  /** The tasks that called sem_wait on `s`, in order of their calls. */
  function Callers(ks: seq<K>, es: seq<Event>, s: nat, i: nat): seq<int>
    requires IsRun(ks, es) && i <= |es|
  {
    if i == 0 then [] else Callers(ks, es, s, i - 1) + (if es[i - 1] == EWait(s) then [ks[i - 1].curr] else [])
  }

  /** The tasks whose wait on `s` has ended, in order: at once when the count allows it,
      else when a notification takes them off the queue. */
  function Granted(ks: seq<K>, es: seq<Event>, s: nat, i: nat): seq<int>
    requires IsRun(ks, es) && i <= |es|
  {
    if i == 0 then []
    else Granted(ks, es, s, i - 1) + GrantedBy(ks[i - 1], es[i - 1], s)
  }

  function GrantedBy(k: K, e: Event, s: nat): seq<int> {
    if s >= |k.sems| then []
    else if e == EWait(s) && k.sems[s].count > 0 then [k.curr]
    else if e == ENotify(s) && k.sems[s].waiters != [] then [k.sems[s].waiters[0]]
    else []
  }

  lemma SemOrderStep(k: K, e: Event, s: nat)
    requires Inv(k) && Enabled(k, e) && s < |k.sems|
    ensures s < |Step(k, e).sems|
    ensures k.sems[s].waiters + (if e == EWait(s) then [k.curr] else [])
         == GrantedBy(k, e, s) + Step(k, e).sems[s].waiters
  {
    hide Core, MutexOk, Step, NapTicks, StillAsleep, Woken;
    InvIsCore(k);
    SemIsOk(k, s);
    StepSync(k, e);
  }

  /** Semaphore queues are first in, first out. */
  lemma {:induction false} SemOrder(ks: seq<K>, es: seq<Event>, s: nat, i: nat)
    requires IsRun(ks, es) && Inv(ks[0]) && i <= |es|
    requires s < |ks[0].sems| && ks[0].sems[s].waiters == []
    ensures s < |ks[i].sems|
    ensures Callers(ks, es, s, i) == Granted(ks, es, s, i) + ks[i].sems[s].waiters
  {
    hide Inv, Step, GrantedBy;
    if i > 0 {
      SemOrder(ks, es, s, i - 1);
      RunInv(ks, es, i - 1);
      SemOrderStep(ks[i - 1], es[i - 1], s);
      Shift(Granted(ks, es, s, i - 1), ks[i - 1].sems[s].waiters,
            if es[i - 1] == EWait(s) then [ks[i - 1].curr] else [],
            GrantedBy(ks[i - 1], es[i - 1], s), ks[i].sems[s].waiters);
    }
  }

  /** What joins a queue at its end and leaves it at its front stays in order. */
  lemma Shift(done: seq<int>, queue: seq<int>, added: seq<int>, taken: seq<int>, rest: seq<int>)
    requires queue + added == taken + rest
    ensures (done + queue) + added == (done + taken) + rest
  {
    assert (done + queue) + added == done + (queue + added);
    assert (done + taken) + rest == done + (taken + rest);
  }

  // ----- mutexes -----

  /** How often task `t` has locked mutex `m` without unlocking it, from its calls alone. */
  function Depth(ks: seq<K>, es: seq<Event>, m: nat, t: int, i: nat): nat
    requires IsRun(ks, es) && i <= |es|
  {
    if i == 0 then 0
    else
      var d := Depth(ks, es, m, t, i - 1);
      if ks[i - 1].curr != t then d
      else if es[i - 1] == ELock(m) then d + 1
      else if es[i - 1] == EUnlock(m) && d > 0 then d - 1
      else d
  }

  function DepthIn(x: Mutex, t: int): nat {
    if t != IDLE && x.owner == t then x.count else if t in x.waiters then 1 else 0
  }

  /** The running task waits for no mutex. */
  lemma RunnerWaitsNot(k: K, m: nat)
    requires Inv(k) && k.curr != IDLE && m < |k.mutexes|
    ensures k.curr !in k.mutexes[m].waiters
  {
    hide Everyone, MutexWaiters, SemWaiters, MutexOk, SemOk;
    HasHead(k);
    ReadyOnly(k, k.curr);
  }

  lemma DepthStep(k: K, e: Event, m: nat, t: int)
    requires Inv(k) && Enabled(k, e) && m < |k.mutexes| && t != IDLE
    ensures m < |Step(k, e).mutexes|
    ensures var d := DepthIn(k.mutexes[m], t);
      DepthIn(Step(k, e).mutexes[m], t) ==
        if k.curr == t && e == ELock(m) then d + 1 else if k.curr == t && e == EUnlock(m) && d > 0 then d - 1 else d
  {
    hide Core, Inv, SemOk, Step, NapTicks, StillAsleep, Woken;
    InvIsCore(k);
    MutexIsOk(k, m);
    StepSync(k, e);
    if k.curr != IDLE { RunnerWaitsNot(k, m); }
    WaitersDistinct(k, m);
    var x := k.mutexes[m];
    if x.waiters != [] {
      assert x.waiters == [x.waiters[0]] + x.waiters[1..];
    }
  }

  lemma WaitersDistinct(k: K, m: nat)
    requires Inv(k) && m < |k.mutexes|
    ensures k.mutexes[m].waiters != [] ==> k.mutexes[m].waiters[0] !in k.mutexes[m].waiters[1..]
  {
    hide Everyone, MutexWaiters, SemWaiters, MutexOk, SemOk;
    var w := k.mutexes[m].waiters;
    if w != [] {
      OnePlace(k, w[0]);
      WaitsOnce(k.mutexes, m, w[0]);
      assert w == [w[0]] + w[1..];
      assert multiset(w) == multiset{w[0]} + multiset(w[1..]);
    }
  }

  /** In every run from free mutexes: the count is the number of locks its owner has not
      undone, a task in the queue has one, every other task none; no owner means count 0
      and nobody queued. */
  lemma {:induction false} MutexDepth(ks: seq<K>, es: seq<Event>, m: nat, t: int, i: nat)
    requires IsRun(ks, es) && Inv(ks[0]) && i <= |es| && t != IDLE
    requires m < |ks[0].mutexes| && ks[0].mutexes[m] == Mutex(IDLE, 0, [])
    ensures m < |ks[i].mutexes|
    ensures var x := ks[i].mutexes[m];
      && Depth(ks, es, m, t, i) == (if x.owner == t then x.count else if t in x.waiters then 1 else 0)
      && (x.count == 0 <==> x.owner == IDLE)
      && (x.waiters != [] ==> x.count > 0)
  {
    hide Inv, Step, MutexOk;
    if i > 0 {
      MutexDepth(ks, es, m, t, i - 1);
      RunInv(ks, es, i - 1);
      DepthStep(ks[i - 1], es[i - 1], m, t);
    }
    RunInv(ks, es, i);
    InvIsCore(ks[i]);
    MutexIsOk(ks[i], m);
    MutexOkMeans(ks[i].mutexes[m]);
  }

  lemma MutexOkMeans(x: Mutex)
    requires MutexOk(x)
    ensures (x.count == 0 <==> x.owner == IDLE) && (x.waiters != [] ==> x.count > 0)
  {
  }

  /** The tasks that asked for mutex `m` without holding it, in order. */
  function Asked(ks: seq<K>, es: seq<Event>, m: nat, i: nat): seq<int>
    requires IsRun(ks, es) && i <= |es|
  {
    if i == 0 then []
    else
      var c := ks[i - 1].curr;
      Asked(ks, es, m, i - 1) + (if es[i - 1] == ELock(m) && Depth(ks, es, m, c, i - 1) == 0 then [c] else [])
  }

  /** The successive owners of mutex `m`. */
  function Owners(ks: seq<K>, es: seq<Event>, m: nat, i: nat): seq<int>
    requires IsRun(ks, es) && i <= |es|
  {
    if i == 0 then [] else Owners(ks, es, m, i - 1) + NewOwner(ks[i - 1], ks[i], m)
  }

  function NewOwner(a: K, b: K, m: nat): seq<int> {
    if m < |a.mutexes| && m < |b.mutexes| && b.mutexes[m].owner != a.mutexes[m].owner && b.mutexes[m].owner != IDLE
    then [b.mutexes[m].owner] else []
  }

  lemma OwnerStep(k: K, e: Event, m: nat)
    requires Inv(k) && Enabled(k, e) && m < |k.mutexes|
    ensures m < |Step(k, e).mutexes|
    ensures k.mutexes[m].waiters + (if e == ELock(m) && DepthIn(k.mutexes[m], k.curr) == 0 then [k.curr] else [])
         == NewOwner(k, Step(k, e), m) + Step(k, e).mutexes[m].waiters
  {
    hide Core, Inv, SemOk, Step, NapTicks, StillAsleep, Woken;
    InvIsCore(k);
    MutexIsOk(k, m);
    StepSync(k, e);
    if k.curr != IDLE { RunnerWaitsNot(k, m); }
    var w := k.mutexes[m].waiters;
    if e != ELock(m) && e != EUnlock(m) {
      assert Step(k, e).mutexes[m] == k.mutexes[m];
    } else if w != [] {
      WaiterIsTask(k, m, w[0]);
      assert w == [w[0]] + w[1..];
    }
  }

  /** Ownership passes in the order the tasks asked for the mutex. */
  lemma {:induction false} MutexOrder(ks: seq<K>, es: seq<Event>, m: nat, i: nat)
    requires IsRun(ks, es) && Inv(ks[0]) && i <= |es|
    requires m < |ks[0].mutexes| && ks[0].mutexes[m] == Mutex(IDLE, 0, [])
    ensures m < |ks[i].mutexes|
    ensures Asked(ks, es, m, i) == Owners(ks, es, m, i) + ks[i].mutexes[m].waiters
  {
    hide Inv, Step, NewOwner;
    if i > 0 {
      MutexOrder(ks, es, m, i - 1);
      RunInv(ks, es, i - 1);
      var c := ks[i - 1].curr;
      if es[i - 1] == ELock(m) { MutexDepth(ks, es, m, c, i - 1); }
      OwnerStep(ks[i - 1], es[i - 1], m);
      Shift(Owners(ks, es, m, i - 1), ks[i - 1].mutexes[m].waiters,
            if es[i - 1] == ELock(m) && Depth(ks, es, m, c, i - 1) == 0 then [c] else [],
            NewOwner(ks[i - 1], ks[i], m), ks[i].mutexes[m].waiters);
    }
  }
}
