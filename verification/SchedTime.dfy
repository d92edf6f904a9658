/** Time in the scheduler: bounded waiting, sweeps against ticks, and how long a sleep is. */
module SchedTime {
  import opened Bits
  import opened Sched
  import opened SchedInv
  import opened SchedRuns

  function Ticks(es: seq<Event>): nat {
    if es == [] then 0 else Ticks(es[..|es| - 1]) + (if es[|es| - 1].ETick? then 1 else 0)
  }

  // ----- bounded waiting -----

  /** The head leaves the front of the ready list in this step. */
  predicate HeadLeaves(k: K, e: Event)
    requires Enabled(k, e)
  {
    match e
    case ETick => SliceOver(k) && k.curr != IDLE
    case EYield => |k.ready| > 1
    case ESleep(ms) => true
    case ELock(m) => k.mutexes[m].count > 0 && k.mutexes[m].owner != k.curr
    case EUnlock(m) => false
    case EWait(s) => k.sems[s].count == 0
    case ENotify(s) => false
  }

  /** A step only takes the head away and only appends, and changes nobody's slice but the
      running task's, in a tick. */
  lemma ReadyMoves(k: K, e: Event)
    requires Inv(k) && Enabled(k, e) && k.ready != []
    ensures (if HeadLeaves(k, e) then k.ready[1..] else k.ready) <= Step(k, e).ready
    ensures Step(k, e).slice == if e.ETick? then TakeTick(k).slice else k.slice
  {
    hide Inv, Step, StillAsleep, Woken, NapTicks;
    StepForm(k, e);
    HasHead(k);
  }

  /** Ticks the tasks in `s` may still use. */
  function SliceSum(slice: seq<int>, s: seq<int>): int {
    if s == [] then 0 else (if 0 <= s[0] < |slice| then slice[s[0]] else 0) + SliceSum(slice, s[1..])
  }

  lemma {:induction false} SliceSumBounds(slice: seq<int>, s: seq<int>)
    requires forall t :: t in s ==> 0 <= t < |slice|
    requires forall t :: 0 <= t < |slice| ==> 1 <= slice[t] <= SLICE
    ensures |s| <= SliceSum(slice, s) <= SLICE * |s|
  {
    if s != [] {
      assert forall t :: t in s[1..] ==> t in s;
      assert s[0] in s;
      SliceSumBounds(slice, s[1..]);
    }
  }

  lemma {:induction false} SliceSumSame(a: seq<int>, b: seq<int>, s: seq<int>)
    requires |a| == |b| && forall t :: t in s && 0 <= t < |a| ==> a[t] == b[t]
    ensures SliceSum(a, s) == SliceSum(b, s)
  {
    if s != [] { SliceSumSame(a, b, s[1..]); }
  }

  /** The longest time until the task at position `p` runs. */
  function Ahead(k: K, p: nat): int
    requires p <= |k.ready|
  {
    SliceSum(k.slice, k.ready[..p])
  }

  lemma AheadBounds(k: K, p: nat)
    requires Core(k) && p <= |k.ready|
    ensures p <= Ahead(k, p) <= SLICE * p
  {
    hide Everyone, MutexWaiters, SemWaiters, MutexOk, SemOk;
    forall t | t in k.ready[..p] ensures 0 <= t < |k.slice| { ReadyOnly(k, t); }
    SliceSumBounds(k.slice, k.ready[..p]);
  }

  lemma HeadIsAlone(k: K, p: nat)
    requires Core(k) && 0 < p <= |k.ready|
    ensures k.ready[0] !in k.ready[1..p] && IsTask(k, k.ready[0]) && 1 <= k.slice[k.ready[0]] <= SLICE
  {
    hide Everyone, MutexWaiters, SemWaiters, MutexOk, SemOk;
    ReadyOnly(k, k.ready[0]);
    assert k.ready == [k.ready[0]] + k.ready[1..p] + k.ready[p..];
  }

  /** One step of waiting: the task stays ready, moves up by at most one place, and a tick
      takes at least one tick off what is ahead of it. */
  lemma WaitShrinks(k: K, e: Event, p: nat)
    requires Inv(k) && Enabled(k, e) && 0 < p < |k.ready|
    ensures var k' := Step(k, e);
      var p' := if HeadLeaves(k, e) then p - 1 else p;
      && p' < |k'.ready| && k'.ready[p'] == k.ready[p]
      && Ahead(k', p') <= Ahead(k, p) - (if e.ETick? then 1 else 0)
  {
    hide Inv, Core, Step, HeadLeaves;
    HasHead(k);
    ReadyMoves(k, e);
    InvIsCore(k);
    HeadIsAlone(k, p);
    var k' := Step(k, e);
    var c := k.ready[0];
    assert k.ready[..p][1..] == k.ready[1..p];
    assert Ahead(k, p) == k.slice[c] + SliceSum(k.slice, k.ready[1..p]);
    SliceSumSame(k.slice, k'.slice, k.ready[1..p]);
    if HeadLeaves(k, e) {
      assert k'.ready[..p - 1] == k.ready[1..p];
    } else {
      assert k'.ready[..p] == k.ready[..p];
      assert Ahead(k', p) == k'.slice[c] + SliceSum(k'.slice, k.ready[1..p]);
      if e.ETick? { TickCounts(k, e); }
    }
  }

  lemma TickCounts(k: K, e: Event)
    requires Inv(k) && Enabled(k, e) && !HeadLeaves(k, e) && k.ready != [] && e.ETick?
    ensures IsTask(k, k.ready[0]) && TakeTick(k).slice[k.ready[0]] == k.slice[k.ready[0]] - 1
  {
    hide Inv;
    HasHead(k);
  }

  /** The place of the waiting task after `i` steps: it moves up when the head leaves and
      stays at 0 once it has run. */
  function Place(ks: seq<K>, es: seq<Event>, p: nat, i: nat): nat
    requires IsRun(ks, es) && i <= |es|
  {
    if i == 0 then p
    else
      var q := Place(ks, es, p, i - 1);
      if q > 0 && HeadLeaves(ks[i - 1], es[i - 1]) then q - 1 else q
  }

  lemma {:induction false} WaitRun(ks: seq<K>, es: seq<Event>, p: nat, i: nat)
    requires IsRun(ks, es) && Inv(ks[0]) && p < |ks[0].ready| && i <= |es|
    requires forall j :: 0 <= j < i ==> ks[j].curr != ks[0].ready[p]
    ensures var q := Place(ks, es, p, i);
      && q < |ks[i].ready| && ks[i].ready[q] == ks[0].ready[p]
      && Ahead(ks[i], q) + Ticks(es[..i]) <= Ahead(ks[0], p)
  {
    hide Inv, Step, Ahead, HeadLeaves;
    if i > 0 {
      WaitRun(ks, es, p, i - 1);
      RunInv(ks, es, i - 1);
      HasHead(ks[i - 1]);
      WaitShrinks(ks[i - 1], es[i - 1], Place(ks, es, p, i - 1));
      assert es[..i][..i - 1] == es[..i - 1];
    }
  }

  /** Bounded waiting: in any run, the task at position `p` of the ready list has run by the
      time of the tick numbered by the slices ahead of it, hence within 10 * p ticks. */
  lemma BoundedWait(ks: seq<K>, es: seq<Event>, p: nat)
    requires IsRun(ks, es) && Inv(ks[0]) && p < |ks[0].ready|
    requires Ticks(es) >= SliceSum(ks[0].slice, ks[0].ready[..p])
    ensures exists j :: 0 <= j <= |es| && ks[j].curr == ks[0].ready[p]
    ensures SliceSum(ks[0].slice, ks[0].ready[..p]) <= 10 * p
  {
    hide Inv, Step;
    InvIsCore(ks[0]);
    AheadBounds(ks[0], p);
    if forall j :: 0 <= j < |es| ==> ks[j].curr != ks[0].ready[p] {
      WaitRun(ks, es, p, |es|);
      RunInv(ks, es, |es|);
      InvIsCore(ks[|es|]);
      InvIsHead(ks[|es|]);
      AheadBounds(ks[|es|], Place(ks, es, p, |es|));
      assert es[..|es|] == es;
      assert ks[|es|].curr == ks[0].ready[p];
    }
  }

  // ----- every tick sweeps once -----

  lemma SettleLedger(k: K)
    ensures Settle(k).sweeps + |Settle(k).pending| == k.sweeps + |k.pending|
  {
    var to := NextRun(k);
    if to in k.pending {
      assert k.pending == (k.pending - {to}) + {to};
    }
  }

  /** Each tick either sweeps or leaves its sweep to be done when the task it interrupted
      resumes; a resumed task does it exactly once. */
  lemma StepLedger(k: K, e: Event)
    requires Inv(k) && Enabled(k, e)
    ensures var k' := Step(k, e);
      k'.sweeps + |k'.pending| == k.sweeps + |k.pending| + (if e.ETick? then 1 else 0)
  {
    hide Inv, Step, Settle, NapTicks;
    StepForm(k, e);
    HasHead(k);
    SettleLedger(Effect(k, e));
    if e.ETick? && SliceOver(k) && k.curr != IDLE && |k.ready| > 1 {
      assert |k.pending + {k.curr}| == |k.pending| + 1;
    }
  }

  lemma {:induction false} TicksAreSweeps(ks: seq<K>, es: seq<Event>, i: nat)
    requires IsRun(ks, es) && Inv(ks[0]) && i <= |es|
    ensures ks[i].sweeps + |ks[i].pending| == ks[0].sweeps + |ks[0].pending| + Ticks(es[..i])
    ensures |ks[i].pending| <= |ks[i].ready|
  {
    hide Inv, Step;
    RunInv(ks, es, i);
    InvIsCore(ks[i]);
    PendingFew(ks[i]);
    if i > 0 {
      TicksAreSweeps(ks, es, i - 1);
      RunInv(ks, es, i - 1);
      StepLedger(ks[i - 1], es[i - 1]);
      assert es[..i][..i - 1] == es[..i - 1];
    } else {
      assert es[..0] == [];
    }
  }

  lemma {:induction false} FewerThanList(p: set<int>, s: seq<int>)
    requires forall t :: t in p ==> t in s
    ensures |p| <= |s|
  {
    if s == [] {
      assert forall t :: t in p ==> t in s;
      assert p == {};
    } else {
      FewerThanList(p - {s[0]}, s[1..]);
      assert s[0] in p ==> p == (p - {s[0]}) + {s[0]};
      assert s[0] !in p ==> p == p - {s[0]};
    }
  }

  lemma PendingFew(k: K)
    requires Core(k)
    ensures |k.pending| <= |k.ready|
  {
    PendingReady(k);
    FewerThanList(k.pending, k.ready);
  }

  // ----- sleeping -----

  /** Task `t`, which had `r` sweeps to sleep, after `d` of them. */
  predicate Napping(k: K, t: int, r: int, d: int) {
    && (0 <= d < r ==> t in k.sleepers && NapOf(k, t) == r - d)
    && (d == r ==> t in k.ready)
  }

  lemma SweepNaps(k: K, t: int)
    requires IsTask(k, t) && t in k.sleepers
    ensures Napping(Sweep(k), t, k.nap[t], 1)
  {
    SweepSplits(k, k.sleepers);
  }

  lemma SettleNaps(k: K, t: int)
    requires IsTask(k, t) && t in k.sleepers && k.nap[t] >= 1
    ensures k.sweeps <= Settle(k).sweeps <= k.sweeps + 1
    ensures Napping(Settle(k), t, k.nap[t], Settle(k).sweeps - k.sweeps)
  {
    hide StillAsleep, Woken;
    var to := NextRun(k);
    if to in k.pending { SweepNaps(k.(curr := to, pending := k.pending - {to}), t); }
  }

  /** After a sweep of its own, a tick's switch does not sweep again. */
  lemma SweptOnce(k: K)
    requires Inv(k)
    ensures Settle(Sweep(TakeTick(k))) == Sweep(TakeTick(k)).(curr := NextRun(Sweep(TakeTick(k))))
  {
    hide Everyone, MutexWaiters, SemWaiters, MutexOk, SemOk, StillAsleep, Woken;
    HasHead(k);
  }

  lemma SweptAlone(k: K)
    requires Inv(k) && |k.ready| == 1
    ensures k.curr == k.ready[0]
    ensures Settle(Sweep(Rotated(TakeTick(k)))) == Sweep(Rotated(TakeTick(k)))
  {
    hide Everyone, MutexWaiters, SemWaiters, MutexOk, SemOk, StillAsleep, Woken;
    HasHead(k);
  }

  lemma NapIsPositive(k: K, t: int)
    requires Core(k) && t in k.sleepers
    ensures IsTask(k, t) && k.nap[t] >= 1
  {
    hide Everyone, MutexWaiters, SemWaiters, MutexOk, SemOk;
    OnePlace(k, t);
    assert multiset(k.sleepers)[t] >= 1;
  }

  lemma TickNaps(k: K, t: int)
    requires Inv(k) && t in k.sleepers
    ensures IsTask(k, t)
    ensures k.sweeps <= Tick(k).sweeps <= k.sweeps + 1
    ensures Napping(Tick(k), t, k.nap[t], Tick(k).sweeps - k.sweeps)
  {
    hide Inv, Core, Settle, Sweep, Tick, TakeTick;
    InvIsCore(k);
    NapIsPositive(k, t);
    HasHead(k);
    TickForm(k);
    TakeTickKeeps(k);
    TickSize(k);
    var k1 := TakeTick(k);
    if !SliceOver(k) || k.curr == IDLE {
      SweepNaps(k1, t);
      SweptOnce(k);
      SweepCounts(k1);
    } else if |k.ready| == 1 {
      SweepNaps(Rotated(k1), t);
      SweptAlone(k);
      SweepCounts(Rotated(k1));
    } else {
      SettleNaps(Effect(k, ETick), t);
    }
  }

  lemma TickSize(k: K)
    ensures |TakeTick(k).slice| == |k.slice|
  {
  }

  lemma SweepCounts(k: K)
    ensures Sweep(k).sweeps == k.sweeps + 1
  {
  }

  /** One step of a sleeping task. */
  lemma SleeperStep(k: K, e: Event, t: int)
    requires Inv(k) && Enabled(k, e) && t in k.sleepers
    ensures IsTask(k, t) && k.nap[t] >= 1
    ensures k.sweeps <= Step(k, e).sweeps <= k.sweeps + 1
    ensures Napping(Step(k, e), t, k.nap[t], Step(k, e).sweeps - k.sweeps)
  {
    hide Inv, Core, Settle, Tick, NapTicks;
    InvIsCore(k);
    NapIsPositive(k, t);
    if e.ETick? {
      TickNaps(k, t);
    } else {
      HasHead(k);
      StepForm(k, e);
      if e.ESleep? { AwakeIsElse(k, t); }
      SettleNaps(Effect(k, e), t);
    }
  }

  lemma AwakeIsElse(k: K, t: int)
    requires Inv(k) && t in k.sleepers && k.ready != []
    ensures t != k.ready[0]
  {
    hide Everyone, MutexWaiters, SemWaiters, MutexOk, SemOk;
    ReadyOnly(k, k.ready[0]);
  }

  /** Going to sleep: the task is on the sleep list with its whole time, less the sweep that
      the switch may do. */
  lemma FallAsleep(k: K, ms: nat)
    requires Inv(k) && Enabled(k, ESleep(ms))
    ensures k.sweeps <= Sleep(k, ms).sweeps <= k.sweeps + 1
    ensures Napping(Sleep(k, ms), k.curr, NapTicks(ms), Sleep(k, ms).sweeps - k.sweeps)
  {
    hide Inv, Core, Settle, Sleep, NapTicks;
    HasHead(k);
    StepForm(k, ESleep(ms));
    SettleNaps(Effect(k, ESleep(ms)), k.curr);
  }

  lemma {:induction false} SweepsGrow(ks: seq<K>, es: seq<Event>, i: nat)
    requires IsRun(ks, es) && Inv(ks[0]) && i <= |es|
    ensures ks[0].sweeps <= ks[i].sweeps
  {
    hide Inv, Step;
    if i > 0 {
      SweepsGrow(ks, es, i - 1);
      RunInv(ks, es, i - 1);
      SweepsStep(ks[i - 1], es[i - 1]);
    }
  }

  lemma SweepsStep(k: K, e: Event)
    requires Inv(k) && Enabled(k, e)
    ensures k.sweeps <= Step(k, e).sweeps
  {
    hide Inv, Step, StillAsleep, Woken, NapTicks;
    StepForm(k, e);
  }

  /** `sys_sleep(ms)` called by task t lasts exactly NapTicks(ms) sweeps: until then t is on
      the sleep list with the rest of its time, and at that sweep it is ready. */
  lemma {:induction false} SleepsExactly(ks: seq<K>, es: seq<Event>, i: nat)
    requires IsRun(ks, es) && Inv(ks[0]) && 0 < i <= |es| && es[0].ESleep?
    ensures var t, n, d := ks[0].curr, NapTicks(es[0].ms), ks[i].sweeps - ks[0].sweeps;
      && (d < n ==> t in ks[i].sleepers && NapOf(ks[i], t) == n - d)
      && (d == n && (i == 1 || ks[i - 1].sweeps < ks[i].sweeps) ==> t in ks[i].ready)
  {
    hide Inv, Step, NapTicks;
    if i == 1 {
      FallAsleep(ks[0], es[0].ms);
      assert Step(ks[0], es[0]) == Sleep(ks[0], es[0].ms) by { StepIsSleep(ks[0], es[0].ms); }
    } else {
      SleepsExactly(ks, es, i - 1);
      RunInv(ks, es, i - 1);
      SweepsGrow(ks, es, i - 1);
      SweepsStep(ks[i - 1], es[i - 1]);
      if ks[i - 1].sweeps - ks[0].sweeps < NapTicks(es[0].ms) {
        SleeperStep(ks[i - 1], es[i - 1], ks[0].curr);
      }
    }
  }

  lemma StepIsSleep(k: K, ms: nat)
    requires Enabled(k, ESleep(ms))
    ensures Step(k, ESleep(ms)) == Sleep(k, ms)
  {
  }

  /** The number of sweeps is the time in ticks, rounded up, unless the 32-bit sum wraps. */
  lemma NapIsCeiling(ms: nat)
    requires ms < TWO32
    ensures ms + 9 < TWO32 ==> 10 * NapTicks(ms) >= ms && (ms > 0 ==> 10 * (NapTicks(ms) - 1) < ms)
    ensures NapTicks(ms) == 0 <==> ms == 0 || ms + 9 >= TWO32
  {
  }

  /** A sleep of no time, or of one so long that the sum wraps, loses the task: it is on no
      list any more. Exactly these sleeps do. */
  lemma SleepKeepsTaskIff(k: K, ms: nat)
    requires Inv(k) && k.curr != IDLE && ms < TWO32
    ensures All(Sleep(k, ms)) == All(k) <==> 0 < ms && ms + 9 < TWO32
  {
    hide Inv, Core, All, Dispatch, SetBlock;
    NapIsCeiling(ms);
    HasHead(k);
    BlockShape(k);
    SleepTakes(k, ms);
    var k1 := k.(ready := k.ready[1..]);
    var k2 := if NapTicks(ms) == 0 then k1
              else k1.(nap := k.nap[k.curr := NapTicks(ms)], sleepers := k.sleepers + [k.curr]);
    assert Sleep(k, ms) == Dispatch(k2);
    DispatchKeepsAll(k2);
  }

  lemma SleepTakes(k: K, ms: nat)
    requires Inv(k) && k.curr != IDLE
    ensures k.ready != [] && IsTask(k, k.curr)
    ensures All(k) == All(k.(ready := k.ready[1..])) + multiset{k.curr}
    ensures All(k)
         == All(k.(ready := k.ready[1..], nap := k.nap[k.curr := NapTicks(ms)], sleepers := k.sleepers + [k.curr]))
  {
    HeadOff(k);
  }

  /** Switching neither loses nor adds a task, whatever the lists hold. */
  lemma {:induction false} DispatchKeepsAll(k: K)
    ensures All(Dispatch(k)) == All(k)
    decreases |k.pending|
  {
    hide StillAsleep, Woken, MutexWaiters, SemWaiters;
    var to := NextRun(k);
    if to != k.curr && to in k.pending {
      var p := k.pending - {to};
      assert k.pending == p + {to};
      var k1 := k.(curr := to, pending := p);
      SweepSplits(k1, k1.sleepers);
      DispatchKeepsAll(Sweep(k1));
      assert Dispatch(k) == Resume(k.(curr := to)) == Dispatch(Sweep(k1));
    }
  }
}
