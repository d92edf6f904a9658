/** How long a turn is: what slice a task gets, and how long it keeps the processor. */
module SchedSlice {
  import opened Sched
  import opened SchedInv
  import opened SchedRuns
  import opened SchedTime

  /** Ticks that `t`, a task or the idle task, may still use in its turn. */
  function Left(k: K, t: int): int {
    if t == IDLE then k.idleSlice else if IsTask(k, t) then k.slice[t] else 0
  }

  /** Ticks of a run that hit `t`: it is the running task then. */
  function Hits(ks: seq<K>, es: seq<Event>, t: int, i: nat): nat
    requires i <= |es| < |ks|
  {
    if i == 0 then 0 else Hits(ks, es, t, i - 1) + if es[i - 1].ETick? && ks[i - 1].curr == t then 1 else 0
  }

  /** ... and those of them that end a turn of `t`, using up its last tick. */
  function Turns(ks: seq<K>, es: seq<Event>, t: int, i: nat): nat
    requires i <= |es| < |ks|
  {
    if i == 0 then 0
    else Turns(ks, es, t, i - 1)
         + if es[i - 1].ETick? && ks[i - 1].curr == t && Left(ks[i - 1], t) == 1 then 1 else 0
  }

  /** One step: only a tick that hits `t` changes what it has left. It takes one off, and after
      the last one a new turn of 10 ticks is due. */
  lemma StepLeft(k: K, e: Event, t: int)
    requires Inv(k) && Enabled(k, e) && (t == IDLE || IsTask(k, t))
    ensures var k' := Step(k, e);
      && (t == IDLE || IsTask(k', t))
      && Left(k', t) == if !e.ETick? || k.curr != t then Left(k, t) else if Left(k, t) == 1 then 10 else Left(k, t) - 1
  {
    hide Inv, Step, StillAsleep, Woken, NapTicks;
    StepForm(k, e);
    HasHead(k);
  }

  /** In every run the ticks that hit `t` are 10 for each turn it ended, up to what it had left
      at the start and has left now. So exactly 10 ticks hit it from one end of a turn to the
      next. */
  lemma {:induction false} TurnLedger(ks: seq<K>, es: seq<Event>, t: int, i: nat)
    requires IsRun(ks, es) && Inv(ks[0]) && i <= |es| && (t == IDLE || IsTask(ks[0], t))
    ensures t == IDLE || IsTask(ks[i], t)
    ensures Hits(ks, es, t, i) + Left(ks[i], t) == Left(ks[0], t) + 10 * Turns(ks, es, t, i)
    ensures 1 <= Left(ks[i], t) <= 10
  {
    hide Inv, Step, Left;
    RunInv(ks, es, i);
    if i > 0 {
      TurnLedger(ks, es, t, i - 1);
      RunInv(ks, es, i - 1);
      StepLeft(ks[i - 1], es[i - 1], t);
    }
    LeftBounds(ks[i], t);
  }

  lemma LeftBounds(k: K, t: int)
    requires Inv(k) && (t == IDLE || IsTask(k, t))
    ensures 1 <= Left(k, t) <= 10
  {
    hide Everyone, MutexWaiters, SemWaiters, MutexOk, SemOk;
  }

  /** Two ends of turns of `t` with none between: 10 ticks hit it after the first, up to and
      with the second. */
  lemma TurnIsTen(ks: seq<K>, es: seq<Event>, t: int, a: nat, b: nat)
    requires IsRun(ks, es) && Inv(ks[0]) && a < b < |es| && (t == IDLE || IsTask(ks[0], t))
    requires es[a].ETick? && ks[a].curr == t && Left(ks[a], t) == 1
    requires es[b].ETick? && ks[b].curr == t && Left(ks[b], t) == 1
    requires forall j :: a < j < b ==> !(es[j].ETick? && ks[j].curr == t && Left(ks[j], t) == 1)
    ensures Hits(ks, es, t, b + 1) - Hits(ks, es, t, a + 1) == 10
  {
    hide Inv, Left;
    TurnLedger(ks, es, t, a);
    TurnLedger(ks, es, t, b);
    NoTurns(ks, es, t, a + 1, b);
  }

  lemma {:induction false} NoTurns(ks: seq<K>, es: seq<Event>, t: int, a: nat, b: nat)
    requires a <= b <= |es| < |ks|
    requires forall j :: a <= j < b ==> !(es[j].ETick? && ks[j].curr == t && Left(ks[j], t) == 1)
    ensures Turns(ks, es, t, b) == Turns(ks, es, t, a)
  {
    if a < b { NoTurns(ks, es, t, a, b - 1); }
  }

  // ----- what a turn looks like on the ready list -----

  /** A tick puts the running task behind the others exactly when it has used up its turn, and
      then it stands there with 10 ticks; before that it goes on running. */
  lemma TickRotates(k: K)
    requires Inv(k) && k.curr != IDLE
    ensures IsTask(k, k.curr) && IsTask(Tick(k), k.curr) && k.ready != []
    ensures if k.slice[k.curr] == 1
      then k.ready[1..] + [k.curr] <= Tick(k).ready && Tick(k).slice[k.curr] == 10
      else k.ready <= Tick(k).ready && Tick(k).curr == k.curr && Tick(k).slice[k.curr] == k.slice[k.curr] - 1
  {
    hide Inv, Step, StillAsleep, Woken, Tick;
    HasHead(k);
    TickForm(k);
  }

  /** A task that neither yields nor blocks keeps the processor for all the ticks it has left. */
  lemma {:induction false} KeepsRunning(ks: seq<K>, es: seq<Event>, a: nat, i: nat)
    requires IsRun(ks, es) && Inv(ks[0]) && a <= i <= |es| && ks[a].curr != IDLE
    requires forall j :: a <= j < i && !es[j].ETick? ==> !HeadLeaves(ks[j], es[j])
    requires Ticks(es[a..i]) < Left(ks[a], ks[a].curr)
    ensures IsTask(ks[a], ks[a].curr) && IsTask(ks[i], ks[a].curr)
    ensures ks[i].curr == ks[a].curr && Left(ks[i], ks[a].curr) == Left(ks[a], ks[a].curr) - Ticks(es[a..i])
  {
    hide Inv, Step, HeadLeaves, Left;
    RunInv(ks, es, a);
    HasHead(ks[a]);
    if a == i {
      assert es[a..i] == [];
    } else {
      assert es[a..i][..i - a - 1] == es[a..i - 1];
      KeepsRunning(ks, es, a, i - 1);
      RunInv(ks, es, i - 1);
      StaysHead(ks[i - 1], es[i - 1]);
      StepLeft(ks[i - 1], es[i - 1], ks[a].curr);
    }
  }

  /** One step in which the head stays. */
  lemma StaysHead(k: K, e: Event)
    requires Inv(k) && Enabled(k, e) && k.curr != IDLE
    requires if e.ETick? then Left(k, k.curr) > 1 else !HeadLeaves(k, e)
    ensures Step(k, e).curr == k.curr
  {
    hide Inv, Step, StillAsleep, Woken, NapTicks;
    StepForm(k, e);
    HasHead(k);
  }

  /** While a task does not run it keeps what it has left. */
  lemma {:induction false} KeepsLeft(ks: seq<K>, es: seq<Event>, t: int, a: nat, b: nat)
    requires IsRun(ks, es) && Inv(ks[0]) && a <= b <= |es| && (t == IDLE || IsTask(ks[a], t))
    requires forall j :: a <= j < b ==> ks[j].curr != t
    ensures t == IDLE || IsTask(ks[b], t)
    ensures Left(ks[b], t) == Left(ks[a], t)
  {
    hide Inv, Step, Left;
    if a < b {
      KeepsLeft(ks, es, t, a, b - 1);
      RunInv(ks, es, b - 1);
      StepLeft(ks[b - 1], es[b - 1], t);
    }
  }

  /** A whole turn. A tick ends a turn of task `t`, and the next time `t` runs is at moment `b`.
      While it neither yields nor blocks it then runs for 10 ticks, and the tenth puts it behind
      the others again. */
  lemma FullTurn(ks: seq<K>, es: seq<Event>, t: int, a: nat, b: nat, i: nat)
    requires IsRun(ks, es) && Inv(ks[0]) && a < b <= i <= |es| && t != IDLE
    requires es[a].ETick? && ks[a].curr == t && Left(ks[a], t) == 1
    requires ks[b].curr == t && forall j :: a < j < b ==> ks[j].curr != t
    requires forall j :: b <= j < i && !es[j].ETick? ==> !HeadLeaves(ks[j], es[j])
    requires Ticks(es[b..i]) < 10
    ensures ks[i].curr == t && Left(ks[i], t) == 10 - Ticks(es[b..i])
    ensures Ticks(es[b..i]) == 9 && i < |es| && es[i].ETick? ==>
      ks[i].ready != [] && ks[i].ready[1..] + [t] <= ks[i + 1].ready && Left(ks[i + 1], t) == 10
  {
    hide Inv, Step, HeadLeaves;
    RunInv(ks, es, a);
    HasHead(ks[a]);
    StepLeft(ks[a], es[a], t);
    KeepsLeft(ks, es, t, a + 1, b);
    KeepsRunning(ks, es, b, i);
    if i < |es| && es[i].ETick? {
      RunInv(ks, es, i);
      TickRotates(ks[i]);
      StepIsTick(ks[i]);
    }
  }

  lemma StepIsTick(k: K)
    ensures Step(k, ETick) == Tick(k)
  {
  }

  // ----- who runs -----

  /** The running task loses the processor exactly by a tick that ends its turn while another is
      ready, by a yield while another is ready, by a sleep, by asking for a mutex of another
      task and by waiting on a semaphore at 0; and it loses it to the next in the list. */
  lemma LosesProcessorIff(k: K, e: Event)
    requires Inv(k) && Enabled(k, e) && k.curr != IDLE
    ensures IsTask(k, k.curr)
    ensures Step(k, e).curr != k.curr <==>
      match e
      case ETick => |k.ready| > 1 && k.slice[k.curr] == 1
      case EYield => |k.ready| > 1
      case ESleep(_) => true
      case ELock(m) => k.mutexes[m].owner !in {IDLE, k.curr}
      case EUnlock(_) => false
      case EWait(s) => k.sems[s].count == 0
      case ENotify(_) => false
    ensures Step(k, e).curr != k.curr && |k.ready| > 1 ==> Step(k, e).curr == k.ready[1]
  {
    hide Core, Step, StillAsleep, Woken, NapTicks, SemOk;
    InvIsCore(k);
    HasHead(k);
    if |k.ready| > 1 { SecondDiffers(k); }
    if e.ELock? { MutexIsOk(k, e.m); }
    StepForm(k, e);
  }

  /** A yield puts the task behind all others that are ready, with what it had left. */
  lemma YieldGoesLast(k: K)
    requires Inv(k) && k.curr != IDLE && |k.ready| > 1
    ensures k.ready[1..] + [k.curr] <= Yield(k).ready && Yield(k).slice == k.slice && Yield(k).curr == k.ready[1]
  {
    hide Inv, Step, StillAsleep, Woken, Yield;
    HasHead(k);
    StepForm(k, EYield);
    StepIsYield(k);
  }

  lemma StepIsYield(k: K)
    requires k.curr != IDLE
    ensures Step(k, EYield) == Yield(k)
  {
  }
}
