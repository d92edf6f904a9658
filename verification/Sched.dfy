/** The scheduler, mutexes and semaphores as a step machine on values: each section with
    interrupts off is one step (task.c:258-351, mutex.c, sem.c). */
module Sched {
  import opened Bits

  const IDLE: int := -1
  const SLICE: int := 10          // TASK_TIME_SLICE_DEFAULT
  const TICK_MS: nat := 10        // OS_TICKS_MS

  /** `owner` is IDLE when nobody holds the mutex. */
  datatype Mutex = Mutex(owner: int, count: nat, waiters: seq<int>)
  datatype Sem = Sem(count: nat, waiters: seq<int>)

  /** Tasks are numbered from 0; `slice` and `nap` hold `slice_ticks` and `sleep_ticks` of
      task t at t. `pending` holds the tasks that were switched away from in the middle of a
      timer tick and still have to finish it; `sweeps` counts sleep-list sweeps. */
  datatype K = K(curr: int, ready: seq<int>, sleepers: seq<int>, slice: seq<int>, nap: seq<int>,
                 idleSlice: int, pending: set<int>, mutexes: seq<Mutex>, sems: seq<Sem>, sweeps: nat)

  predicate IsTask(k: K, t: int) { 0 <= t < |k.slice| == |k.nap| }

  // ----- lists -----

  function Remove(s: seq<int>, t: int): seq<int> {
    if s == [] then [] else if s[0] == t then s[1..] else [s[0]] + Remove(s[1..], t)
  }

  /** `task_set_ready`, `task_set_block`: nothing happens to the idle task. */
  function SetReady(k: K, t: int): K {
    if t == IDLE then k else k.(ready := k.ready + [t])
  }

  function SetBlock(k: K, t: int): K {
    if t == IDLE then k else k.(ready := Remove(k.ready, t))
  }

  function NextRun(k: K): int { if k.ready == [] then IDLE else k.ready[0] }

  // ----- the sleep sweep -----

  function NapOf(k: K, t: int): int { if IsTask(k, t) then k.nap[t] else 0 }

  function StillAsleep(k: K, s: seq<int>): seq<int> {
    if s == [] then []
    else StillAsleep(k, s[..|s| - 1]) + (if NapOf(k, s[|s| - 1]) == 1 then [] else [s[|s| - 1]])
  }

  function Woken(k: K, s: seq<int>): seq<int> {
    if s == [] then []
    else Woken(k, s[..|s| - 1]) + (if NapOf(k, s[|s| - 1]) == 1 then [s[|s| - 1]] else [])
  }

  function Sweep(k: K): K {
    k.(sleepers := StillAsleep(k, k.sleepers),
       ready := k.ready + Woken(k, k.sleepers),
       nap := seq(|k.nap|, t requires 0 <= t < |k.nap| => if t in k.sleepers then k.nap[t] - 1 else k.nap[t]),
       sweeps := k.sweeps + 1)
  }

  // ----- dispatch -----

  /** `task_dispatch`: the head of the ready list runs; a task that was switched away from
      inside its tick first finishes that tick. */
  function Dispatch(k: K): K
    decreases |k.pending|, 1
  {
    if NextRun(k) == k.curr then k else Resume(k.(curr := NextRun(k)))
  }

  function Resume(k: K): K
    decreases |k.pending|, 0
  {
    if k.curr in k.pending then
      var p := k.pending - {k.curr};
      assert k.pending == p + {k.curr};
      Dispatch(Sweep(k.(pending := p)))
    else k
  }

  // ----- the steps -----

  function TakeTick(k: K): K {
    if k.curr == IDLE then k.(idleSlice := if k.idleSlice == 1 then SLICE else k.idleSlice - 1)
    else if !IsTask(k, k.curr) then k
    else k.(slice := k.slice[k.curr := if k.slice[k.curr] == 1 then SLICE else k.slice[k.curr] - 1])
  }

  predicate SliceOver(k: K) {
    if k.curr == IDLE then k.idleSlice == 1 else IsTask(k, k.curr) && k.slice[k.curr] == 1
  }

  /** `task_time_tick`. */
  function Tick(k: K): K {
    var k1 := TakeTick(k);
    if SliceOver(k) then
      var k2 := SetReady(SetBlock(k1, k1.curr), k1.curr);
      if NextRun(k2) != k2.curr then Resume(k2.(pending := k2.pending + {k2.curr}, curr := NextRun(k2)))
      else Dispatch(Sweep(k2))
    else Dispatch(Sweep(k1))
  }

  function Yield(k: K): K {
    if |k.ready| > 1 then Dispatch(SetReady(SetBlock(k, k.curr), k.curr)) else k
  }

  /** `(ms + (OS_TICKS_MS - 1)) / OS_TICKS_MS` in unsigned 32-bit arithmetic. */
  function NapTicks(ms: nat): nat { (ms + (TICK_MS - 1)) % TWO32 / TICK_MS }

  function Sleep(k: K, ms: nat): K {
    var k1 := SetBlock(k, k.curr);
    var k2 := if NapTicks(ms) == 0 || !IsTask(k1, k1.curr) then k1
              else k1.(nap := k1.nap[k1.curr := NapTicks(ms)], sleepers := k1.sleepers + [k1.curr]);
    Dispatch(k2)
  }

  function Lock(k: K, m: nat): K
    requires m < |k.mutexes|
  {
    var x := k.mutexes[m];
    if x.count == 0 then k.(mutexes := k.mutexes[m := x.(count := 1, owner := k.curr)])
    else if x.owner == k.curr then k.(mutexes := k.mutexes[m := x.(count := x.count + 1)])
    else
      var k1 := SetBlock(k, k.curr);
      Dispatch(k1.(mutexes := k1.mutexes[m := x.(waiters := x.waiters + [k.curr])]))
  }

  function Unlock(k: K, m: nat): K
    requires m < |k.mutexes|
  {
    var x := k.mutexes[m];
    if x.owner != k.curr || x.count == 0 then k
    else if x.count > 1 then k.(mutexes := k.mutexes[m := x.(count := x.count - 1)])
    else if x.waiters == [] then k.(mutexes := k.mutexes[m := x.(count := 0, owner := IDLE)])
    else
      var t := x.waiters[0];
      var k1 := SetReady(k, t);
      Dispatch(k1.(mutexes := k1.mutexes[m := Mutex(t, 1, x.waiters[1..])]))
  }

  function Wait(k: K, s: nat): K
    requires s < |k.sems|
  {
    var x := k.sems[s];
    if x.count > 0 then k.(sems := k.sems[s := x.(count := x.count - 1)])
    else
      var k1 := SetBlock(k, k.curr);
      Dispatch(k1.(sems := k1.sems[s := x.(waiters := x.waiters + [k.curr])]))
  }

  function Notify(k: K, s: nat): K
    requires s < |k.sems|
  {
    var x := k.sems[s];
    if x.waiters == [] then k.(sems := k.sems[s := x.(count := x.count + 1)])
    else
      var k1 := SetReady(k, x.waiters[0]);
      Dispatch(k1.(sems := k1.sems[s := x.(waiters := x.waiters[1..])]))
  }

  datatype Event =
    | ETick
    | EYield
    | ESleep(ms: nat)
    | ELock(m: nat)
    | EUnlock(m: nat)
    | EWait(s: nat)
    | ENotify(s: nat)

  /** Ticks and notifications may come at any time, also while the idle task runs; the
      other events are calls of the running task. */
  predicate Enabled(k: K, e: Event) {
    match e
    case ETick => true
    case EYield => k.curr != IDLE
    case ESleep(ms) => k.curr != IDLE && NapTicks(ms) > 0
    case ELock(m) => k.curr != IDLE && m < |k.mutexes|
    case EUnlock(m) => k.curr != IDLE && m < |k.mutexes|
    case EWait(s) => k.curr != IDLE && s < |k.sems|
    case ENotify(s) => s < |k.sems|
  }

  function Step(k: K, e: Event): K
    requires Enabled(k, e)
  {
    match e
    case ETick => Tick(k)
    case EYield => Yield(k)
    case ESleep(ms) => Sleep(k, ms)
    case ELock(m) => Lock(k, m)
    case EUnlock(m) => Unlock(k, m)
    case EWait(s) => Wait(k, s)
    case ENotify(s) => Notify(k, s)
  }
}
