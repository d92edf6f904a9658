/** Many threads writing to one terminal at once: every interleaving of their interrupt-free
    sections (tty.c, console.c, sem.c). */
module TtyRuns {
  import opened Tty

  /** Where a thread stands in `tty_write` or in `console_write`, called at its end. `rest`
      is the input not yet put, `cr` says that the CR before its first byte has been put. */
  datatype Pc =
    | Home
    | Wants(rest: seq<char>, cr: bool)
    | Asleep(rest: seq<char>, cr: bool)
    | HasToken(rest: seq<char>, cr: bool)
    | Locks
    | Drains
    | Holds(c: char)
    | Shows(c: char)
    | Unlocks

  const FREE: int := -1

  /** `holder` has the console mutex. The last three fields are the history: the bytes
      shown, the bytes put with their writers, and all input each thread was given. */
  datatype State = State(osem: nat, waiting: seq<nat>, queue: seq<char>, pcs: seq<Pc>, holder: int,
                         shown: seq<char>, puts: seq<(nat, char)>, given: seq<seq<char>>)

  datatype Event = Call(t: nat, data: seq<char>) | Go(t: nat)

  function NextOut(rest: seq<char>, cr: bool): char
    requires rest != []
  {
    if rest[0] == '\n' && !cr then '\r' else rest[0]
  }

  function AfterPut(rest: seq<char>, cr: bool): Pc
    requires rest != []
  {
    if rest[0] == '\n' && !cr then Wants(rest, true) else if |rest| == 1 then Locks else Wants(rest[1..], false)
  }

  function Wake(pc: Pc): Pc { if pc.Asleep? then HasToken(pc.rest, pc.cr) else pc }

  predicate Enabled(s: State, e: Event) {
    && e.t < |s.pcs| == |s.given|
    && match e
       case Call(t, data) => s.pcs[t].Home?
       case Go(t) =>
         && !s.pcs[t].Home? && !s.pcs[t].Asleep?
         && (s.pcs[t].Locks? ==> s.holder == FREE)
         && (s.pcs[t].HasToken? ==> s.pcs[t].rest != [])
         && (forall w :: w in s.waiting ==> w < |s.pcs|)
  }

  function Step(s: State, e: Event): State
    requires Enabled(s, e)
  {
    var t := e.t;
    match e
    case Call(_, data) =>
      s.(pcs := s.pcs[t := if data == [] then Locks else Wants(data, false)],
         given := s.given[t := s.given[t] + data])
    case Go(_) =>
      match s.pcs[t]
      case Home => s
      case Asleep(_, _) => s
      case Wants(rest, cr) =>
        if s.osem > 0 then s.(osem := s.osem - 1, pcs := s.pcs[t := HasToken(rest, cr)])
        else s.(waiting := s.waiting + [t], pcs := s.pcs[t := Asleep(rest, cr)])
      case HasToken(rest, cr) =>
        if |s.queue| >= OBUF then s.(pcs := s.pcs[t := Locks])
        else s.(queue := s.queue + [NextOut(rest, cr)], puts := s.puts + [(t, NextOut(rest, cr))],
                pcs := s.pcs[t := AfterPut(rest, cr)])
      case Locks => s.(holder := t, pcs := s.pcs[t := Drains])
      case Drains =>
        if s.queue == [] then s.(pcs := s.pcs[t := Unlocks])
        else s.(queue := s.queue[1..], pcs := s.pcs[t := Holds(s.queue[0])])
      case Holds(c) =>
        if s.waiting == [] then s.(osem := s.osem + 1, pcs := s.pcs[t := Shows(c)])
        else
          assert s.waiting[0] in s.waiting;
          s.(waiting := s.waiting[1..],
             pcs := s.pcs[t := Shows(c)][s.waiting[0] := Wake(s.pcs[s.waiting[0]])])
      case Shows(c) => s.(shown := s.shown + [c], pcs := s.pcs[t := Drains])
      case Unlocks => s.(holder := FREE, pcs := s.pcs[t := Home])
  }

  function Start(n: nat): State {
    State(OBUF, [], [], seq(n, i => Home), FREE, [], [], seq(n, i => []))
  }

  // ----- tokens -----

  function TokenOf(pc: Pc): nat { if pc.HasToken? || pc.Holds? then 1 else 0 }

  /** Tokens in threads' hands: granted but not put, or taken out but not given back. */
  function Tokens(pcs: seq<Pc>): nat {
    if pcs == [] then 0 else Tokens(pcs[..|pcs| - 1]) + TokenOf(pcs[|pcs| - 1])
  }

  lemma {:induction false} TokensUpdate(pcs: seq<Pc>, t: nat, pc: Pc)
    requires t < |pcs|
    ensures Tokens(pcs[t := pc]) + TokenOf(pcs[t]) == Tokens(pcs) + TokenOf(pc)
  {
    var n := |pcs| - 1;
    if t < n {
      TokensUpdate(pcs[..n], t, pc);
      assert pcs[t := pc][..n] == pcs[..n][t := pc];
    } else {
      assert pcs[t := pc][..n] == pcs[..n];
    }
  }

  lemma {:induction false} TokensAtLeast(pcs: seq<Pc>, t: nat)
    requires t < |pcs|
    ensures Tokens(pcs) >= TokenOf(pcs[t])
  {
    if t < |pcs| - 1 { TokensAtLeast(pcs[..|pcs| - 1], t); }
  }

  lemma {:induction false} NoTokens(pcs: seq<Pc>)
    requires forall t :: 0 <= t < |pcs| ==> TokenOf(pcs[t]) == 0
    ensures Tokens(pcs) == 0
  {
    if pcs != [] { NoTokens(pcs[..|pcs| - 1]); }
  }

  /** Nobody sleeps while a token is free, and the sleepers are queued, once each. */
  ghost predicate QueueOk(s: State) {
    && (forall i :: 0 <= i < |s.waiting| ==> s.waiting[i] < |s.pcs| && s.pcs[s.waiting[i]].Asleep?)
    && (forall i, j :: 0 <= i < j < |s.waiting| ==> s.waiting[i] != s.waiting[j])
    && (forall t: nat :: t < |s.pcs| && s.pcs[t].Asleep? ==> t in s.waiting)
    && (s.waiting != [] ==> s.osem == 0)
  }

  ghost predicate TokensOk(s: State) { s.osem + |s.queue| + Tokens(s.pcs) == OBUF }

  predicate PcOk(pc: Pc) {
    pc.Wants? || pc.Asleep? || pc.HasToken? ==> pc.rest != [] && (pc.cr ==> pc.rest[0] == '\n')
  }

  lemma QueueKept(s: State, s': State, t: nat, pc: Pc)
    requires QueueOk(s) && t < |s.pcs| && !s.pcs[t].Asleep? && !pc.Asleep?
    requires s'.waiting == s.waiting && s'.pcs == s.pcs[t := pc] && (s'.osem <= s.osem || s.waiting == [])
    ensures QueueOk(s')
  {
  }

  lemma QueueGrows(s: State, s': State, t: nat, pc: Pc)
    requires QueueOk(s) && t < |s.pcs| && !s.pcs[t].Asleep? && pc.Asleep? && s.osem == 0
    requires s'.waiting == s.waiting + [t] && s'.pcs == s.pcs[t := pc] && s'.osem == 0
    ensures QueueOk(s')
  {
    forall u: nat | u < |s'.pcs| && s'.pcs[u].Asleep? ensures u in s'.waiting {
      assert u != t ==> u in s.waiting;
    }
  }

  lemma QueueShrinks(s: State, s': State, t: nat, pc: Pc)
    requires QueueOk(s) && t < |s.pcs| && !s.pcs[t].Asleep? && !pc.Asleep? && s.waiting != [] && s.waiting[0] < |s.pcs|
    requires s'.waiting == s.waiting[1..] && s'.osem == s.osem
    requires s'.pcs == s.pcs[t := pc][s.waiting[0] := Wake(s.pcs[s.waiting[0]])]
    ensures QueueOk(s')
  {
    var w := s.waiting[0];
    forall u: nat | u < |s'.pcs| && s'.pcs[u].Asleep? ensures u in s'.waiting {
      assert u in s.waiting && u != w;
      assert s.waiting == [w] + s.waiting[1..];
    }
    assert forall i :: 0 <= i < |s'.waiting| ==> s'.waiting[i] == s.waiting[i + 1];
  }

  lemma QueueStep(s: State, e: Event)
    requires Enabled(s, e) && QueueOk(s)
    ensures QueueOk(Step(s, e))
  {
    hide QueueOk, Wake, Enabled, NextOut, AfterPut;
    var s' := Step(s, e);
    var t := e.t;
    EnabledThread(s, e);
    if e.Go? && s.pcs[t].Holds? && s.waiting != [] {
      WaitingHead(s);
      QueueShrinks(s, s', t, Shows(s.pcs[t].c));
    } else if e.Go? && s.pcs[t].Wants? && s.osem == 0 {
      QueueGrows(s, s', t, s'.pcs[t]);
    } else {
      if e.Go? && s.pcs[t].HasToken? { PutWakes(s.pcs[t].rest, s.pcs[t].cr); }
      QueueKept(s, s', t, s'.pcs[t]);
    }
  }

  lemma EnabledThread(s: State, e: Event)
    requires Enabled(s, e)
    ensures e.t < |s.pcs| == |s.given| && !s.pcs[e.t].Asleep? && (e.Go? ==> !s.pcs[e.t].Home?)
    ensures e.Go? && s.pcs[e.t].HasToken? ==> s.pcs[e.t].rest != []
    ensures e.Go? && s.pcs[e.t].Locks? ==> s.holder == FREE
    ensures e.Call? ==> s.pcs[e.t].Home?
  {
  }

  lemma WaitingHead(s: State)
    requires QueueOk(s) && s.waiting != []
    ensures s.waiting[0] < |s.pcs| && s.pcs[s.waiting[0]].Asleep?
  {
  }

  lemma PutWakes(rest: seq<char>, cr: bool)
    requires rest != []
    ensures AfterPut(rest, cr).Wants? || AfterPut(rest, cr).Locks?
  {
  }

  lemma TokensStep(s: State, e: Event)
    requires Enabled(s, e) && QueueOk(s) && TokensOk(s)
    ensures TokensOk(Step(s, e))
  {
    var s' := Step(s, e);
    TokensUpdate(s.pcs, e.t, s'.pcs[e.t]);
    if e.Go? && s.pcs[e.t].Holds? && s.waiting != [] {
      var w := s.waiting[0];
      var p := s.pcs[e.t := Shows(s.pcs[e.t].c)];
      TokensUpdate(p, w, Wake(s.pcs[w]));
    }
  }

  /** A put that has its token finds room in the ring. */
  lemma PutHasRoom(s: State, t: nat)
    requires TokensOk(s) && t < |s.pcs| && s.pcs[t].HasToken?
    ensures |s.queue| < OBUF
  {
    TokensAtLeast(s.pcs, t);
  }

  // ----- the console mutex and the order of bytes -----

  predicate InConsole(pc: Pc) { pc.Drains? || pc.Holds? || pc.Shows? || pc.Unlocks? }

  ghost predicate HolderOk(s: State) {
    && (s.holder == FREE || 0 <= s.holder < |s.pcs|)
    && forall t: nat :: t < |s.pcs| ==> (InConsole(s.pcs[t]) <==> t == s.holder)
  }

  /** The byte the drainer has taken out and not yet shown. */
  function InHand(s: State): seq<char> {
    if 0 <= s.holder < |s.pcs| && (s.pcs[s.holder].Holds? || s.pcs[s.holder].Shows?) then [s.pcs[s.holder].c] else []
  }

  function Chars(puts: seq<(nat, char)>): seq<char> {
    if puts == [] then [] else Chars(puts[..|puts| - 1]) + [puts[|puts| - 1].1]
  }

  ghost predicate OrderOk(s: State) { Chars(s.puts) == s.shown + InHand(s) + s.queue }

  lemma HolderStep(s: State, e: Event)
    requires Enabled(s, e) && QueueOk(s) && HolderOk(s)
    ensures HolderOk(Step(s, e))
  {
  }

  /** A step that moves no byte: nothing in the drainer's hand changes. */
  lemma HandKept(s: State, e: Event)
    requires Enabled(s, e) && QueueOk(s) && HolderOk(s)
    requires e.Call? || !InConsole(s.pcs[e.t]) || s.pcs[e.t].Holds? || s.pcs[e.t].Unlocks?
    ensures InHand(Step(s, e)) == InHand(s) && Step(s, e).shown == s.shown
  {
    hide NextOut;
  }

  lemma OrderStep(s: State, e: Event)
    requires Enabled(s, e) && QueueOk(s) && HolderOk(s) && OrderOk(s)
    ensures OrderOk(Step(s, e))
  {
    hide QueueOk, Enabled, Step, NextOut, InHand, HolderOk, Chars;
    var t := e.t;
    EnabledThread(s, e);
    StepBytes(s, e);
    var s' := Step(s, e);
    if e.Go? && (s.pcs[t].Drains? || s.pcs[t].Shows?) {
      HandMoves(s, t);
      MovedOn(s.shown, InHand(s), s.queue);
    } else {
      HandKept(s, e);
      if e.Go? && s.pcs[t].HasToken? && |s.queue| < OBUF {
        var c := NextOut(s.pcs[t].rest, s.pcs[t].cr);
        PutAppends(s.puts, t, c);
        PutLast(s.shown, InHand(s), s.queue, [c]);
      }
    }
  }

  lemma PutLast(a: seq<char>, b: seq<char>, c: seq<char>, d: seq<char>)
    ensures a + b + c + d == a + b + (c + d)
  {
  }

  lemma MovedOn(shown: seq<char>, hand: seq<char>, queue: seq<char>)
    ensures hand == [] && queue != [] ==> shown + hand + queue == shown + [queue[0]] + queue[1..]
    ensures shown + hand + queue == (shown + hand) + [] + queue
  {
    if queue != [] { assert queue == [queue[0]] + queue[1..]; }
  }

  /** The bytes a step moves. */
  lemma StepBytes(s: State, e: Event)
    requires Enabled(s, e)
    ensures e.t < |s.pcs|
    ensures var s', pc := Step(s, e), s.pcs[e.t];
      if e.Go? && pc.HasToken? && |s.queue| < OBUF then
        && pc.rest != [] && s'.queue == s.queue + [NextOut(pc.rest, pc.cr)] && s'.shown == s.shown
        && s'.puts == s.puts + [(e.t, NextOut(pc.rest, pc.cr))]
      else
        && s'.puts == s.puts
        && s'.queue == (if e.Go? && pc.Drains? && s.queue != [] then s.queue[1..] else s.queue)
        && s'.shown == if e.Go? && pc.Shows? then s.shown + [pc.c] else s.shown
  {
    hide NextOut, AfterPut, Wake;
  }

  lemma HandMoves(s: State, t: nat)
    requires Enabled(s, Go(t)) && QueueOk(s) && HolderOk(s) && (s.pcs[t].Drains? || s.pcs[t].Shows?)
    ensures s.pcs[t].Shows? ==> InHand(s) == [s.pcs[t].c] && InHand(Step(s, Go(t))) == []
    ensures s.pcs[t].Drains? ==> InHand(s) == [] && InHand(Step(s, Go(t))) == if s.queue == [] then [] else [s.queue[0]]
  {
  }

  lemma PutAppends(puts: seq<(nat, char)>, t: nat, c: char)
    ensures Chars(puts + [(t, c)]) == Chars(puts) + [c]
    ensures forall u :: Of(puts + [(t, c)], u) == Of(puts, u) + (if u == t then [c] else [])
  {
    assert (puts + [(t, c)])[..|puts|] == puts;
  }

  // ----- every thread's own bytes -----

  function Of(puts: seq<(nat, char)>, t: nat): seq<char> {
    if puts == [] then []
    else Of(puts[..|puts| - 1], t) + (if puts[|puts| - 1].0 == t then [puts[|puts| - 1].1] else [])
  }

  /** What the thread still has to put. */
  function ToGo(pc: Pc): seq<char> {
    if (pc.Wants? || pc.Asleep? || pc.HasToken?) && pc.rest != [] then
      if pc.cr then ['\n'] + Expand(pc.rest[1..]) else Expand(pc.rest)
    else []
  }

  ghost predicate BytesOk(s: State) {
    && |s.given| == |s.pcs|
    && (forall t: nat :: t < |s.pcs| ==> PcOk(s.pcs[t]))
    && (forall t: nat :: t < |s.pcs| ==> Expand(s.given[t]) == Of(s.puts, t) + ToGo(s.pcs[t]))
  }

  lemma PutOne(rest: seq<char>, cr: bool)
    requires PcOk(HasToken(rest, cr))
    ensures ToGo(HasToken(rest, cr)) == [NextOut(rest, cr)] + ToGo(AfterPut(rest, cr)) && PcOk(AfterPut(rest, cr))
  {
    if |rest| == 1 { assert rest[1..] == []; }
  }

  /** What a step of one thread leaves as it is. */
  lemma OthersStay(s: State, e: Event, t: nat)
    requires Enabled(s, e) && QueueOk(s) && t < |s.pcs|
    requires t != e.t || (e.Go? && !s.pcs[t].HasToken?)
    ensures |Step(s, e).given| == |Step(s, e).pcs| == |s.pcs|
    ensures ToGo(Step(s, e).pcs[t]) == ToGo(s.pcs[t]) && (PcOk(s.pcs[t]) ==> PcOk(Step(s, e).pcs[t]))
    ensures Step(s, e).given[t] == s.given[t]
  {
    hide Expand, NextOut, AfterPut, Step;
    if t == e.t { OwnPc(s, t); } else { OtherPc(s, e, t); }
  }

  lemma OwnPc(s: State, t: nat)
    requires Enabled(s, Go(t)) && QueueOk(s) && !s.pcs[t].HasToken?
    ensures var s' := Step(s, Go(t));
      && |s'.pcs| == |s.pcs| && s'.given == s.given
      && ToGo(s'.pcs[t]) == ToGo(s.pcs[t]) && (PcOk(s.pcs[t]) ==> PcOk(s'.pcs[t]))
  {
    hide Expand, NextOut, AfterPut;
    if s.pcs[t].Holds? && s.waiting != [] { WaitingHead(s); }
  }

  /** A step of one thread does nothing to another but wake it. */
  lemma OtherPc(s: State, e: Event, t: nat)
    requires Enabled(s, e) && QueueOk(s) && t < |s.pcs| && t != e.t
    ensures var s' := Step(s, e);
      && |s'.pcs| == |s.pcs| == |s'.given| && s'.given[t] == s.given[t]
      && (s'.pcs[t] == s.pcs[t] || s'.pcs[t] == Wake(s.pcs[t]))
  {
    hide NextOut, AfterPut, Wake;
    if e.Go? && s.pcs[e.t].Holds? && s.waiting != [] { WaitingHead(s); }
  }

  lemma BytesStep(s: State, e: Event, t: nat)
    requires Enabled(s, e) && QueueOk(s) && TokensOk(s) && BytesOk(s) && t < |s.pcs|
    ensures var s' := Step(s, e);
      && |s'.given| == |s'.pcs| == |s.pcs| && PcOk(s'.pcs[t])
      && Expand(s'.given[t]) == Of(s'.puts, t) + ToGo(s'.pcs[t])
  {
    hide Expand, Tokens, QueueOk, TokensOk, ToGo, PcOk, Of, Enabled, Step, NextOut, AfterPut;
    EnabledThread(s, e);
    StepBytes(s, e);
    if e.Go? && s.pcs[e.t].HasToken? {
      PutHasRoom(s, e.t);
      PutAppends(s.puts, e.t, NextOut(s.pcs[e.t].rest, s.pcs[e.t].cr));
      if t == e.t {
        PutOne(s.pcs[t].rest, s.pcs[t].cr);
        PutMoves(s, t);
      } else {
        OthersStay(s, e, t);
      }
    } else if t == e.t && e.Call? {
      ExpandAppend(s.given[t], e.data);
      CallGoes(e.data);
      CallMoves(s, e);
    } else {
      OthersStay(s, e, t);
    }
  }

  lemma PutMoves(s: State, t: nat)
    requires Enabled(s, Go(t)) && s.pcs[t].HasToken? && |s.queue| < OBUF
    ensures s.pcs[t].rest != [] && Step(s, Go(t)).given == s.given
    ensures Step(s, Go(t)).pcs == s.pcs[t := AfterPut(s.pcs[t].rest, s.pcs[t].cr)]
  {
  }

  lemma CallMoves(s: State, e: Event)
    requires Enabled(s, e) && e.Call?
    ensures s.pcs[e.t].Home? && Step(s, e).given == s.given[e.t := s.given[e.t] + e.data]
    ensures Step(s, e).pcs == s.pcs[e.t := if e.data == [] then Locks else Wants(e.data, false)]
  {
  }

  lemma CallGoes(data: seq<char>)
    ensures var pc := if data == [] then Locks else Wants(data, false);
      PcOk(pc) && ToGo(pc) == Expand(data) && ToGo(Home) == []
  {
  }

  // ----- the drain reaches every byte -----

  predicate WillDrain(pc: Pc) { !pc.Home? && !pc.Unlocks? }

  ghost predicate DrainOk(s: State) {
    s.queue != [] || InHand(s) != [] ==> exists t: nat :: t < |s.pcs| && WillDrain(s.pcs[t])
  }

  lemma DrainStep(s: State, e: Event)
    requires Enabled(s, e) && QueueOk(s) && HolderOk(s) && DrainOk(s)
    ensures DrainOk(Step(s, e))
  {
    var s' := Step(s, e);
    if WillDrain(s'.pcs[e.t]) {
    } else if s'.queue != [] || InHand(s') != [] {
      var u: nat :| u < |s.pcs| && WillDrain(s.pcs[u]);
      assert WillDrain(s'.pcs[u]);
    }
  }

  // ----- all together -----

  ghost predicate Inv(s: State) {
    QueueOk(s) && TokensOk(s) && HolderOk(s) && OrderOk(s) && BytesOk(s) && DrainOk(s)
  }

  lemma StartInv(n: nat)
    ensures Inv(Start(n))
  {
    hide Tokens;
    var s := Start(n);
    NoTokens(s.pcs);
    assert QueueOk(s) && TokensOk(s) && HolderOk(s);
    assert BytesOk(s) by {
      forall t: nat | t < |s.pcs| ensures PcOk(s.pcs[t]) && Expand(s.given[t]) == Of(s.puts, t) + ToGo(s.pcs[t]) {}
    }
  }

  lemma StepInv(s: State, e: Event)
    requires Enabled(s, e) && Inv(s)
    ensures Inv(Step(s, e))
  {
    hide Step, QueueOk, TokensOk, HolderOk, OrderOk, DrainOk, PcOk, ToGo, Of, Expand;
    QueueStep(s, e);
    TokensStep(s, e);
    HolderStep(s, e);
    OrderStep(s, e);
    DrainStep(s, e);
    BytesStep(s, e, e.t);
    forall t: nat | t < |Step(s, e).pcs|
      ensures PcOk(Step(s, e).pcs[t]) && Expand(Step(s, e).given[t]) == Of(Step(s, e).puts, t) + ToGo(Step(s, e).pcs[t])
    {
      BytesStep(s, e, t);
    }
  }

  ghost predicate IsRun(n: nat, ss: seq<State>, es: seq<Event>) {
    && |ss| == |es| + 1 && ss[0] == Start(n)
    && forall i :: 0 <= i < |es| ==> Enabled(ss[i], es[i]) && ss[i + 1] == Step(ss[i], es[i])
  }

  lemma {:induction false} RunInv(n: nat, ss: seq<State>, es: seq<Event>, i: nat)
    requires IsRun(n, ss, es) && i <= |es|
    ensures Inv(ss[i])
  {
    hide Inv, Step;
    if i == 0 {
      StartInv(n);
    } else {
      RunInv(n, ss, es, i - 1);
      StepInv(ss[i - 1], es[i - 1]);
    }
  }

  /** Under every interleaving the free tokens, the bytes in the ring and the tokens in
      hand are 512 together, so that a put never fails. */
  lemma TokensConserved(n: nat, ss: seq<State>, es: seq<Event>, i: nat)
    requires IsRun(n, ss, es) && i <= |es|
    ensures ss[i].osem + |ss[i].queue| + Tokens(ss[i].pcs) == OBUF
    ensures forall t: nat :: t < |ss[i].pcs| && ss[i].pcs[t].HasToken? ==> |ss[i].queue| < OBUF
  {
    RunInv(n, ss, es, i);
    forall t: nat | t < |ss[i].pcs| && ss[i].pcs[t].HasToken? ensures |ss[i].queue| < OBUF { PutHasRoom(ss[i], t); }
  }

  /** The console shows the bytes in the order they were put, and of these each thread's
      own are the CR-LF expansion of its input in order, up to what it has still to put. */
  lemma BytesInOrder(n: nat, ss: seq<State>, es: seq<Event>, i: nat, t: nat)
    requires IsRun(n, ss, es) && i <= |es| && t < |ss[i].pcs|
    ensures ss[i].shown <= Chars(ss[i].puts)
    ensures t < |ss[i].given| && Of(ss[i].puts, t) + ToGo(ss[i].pcs[t]) == Expand(ss[i].given[t])
  {
    RunInv(n, ss, es, i);
  }

  /** When every write has returned, everything put has been shown, every thread has put its
      whole expansion, and all tokens are back. */
  lemma QuietIsDone(n: nat, ss: seq<State>, es: seq<Event>, i: nat)
    requires IsRun(n, ss, es) && i <= |es|
    requires forall t: nat :: t < |ss[i].pcs| ==> ss[i].pcs[t].Home?
    ensures ss[i].osem == OBUF && ss[i].queue == [] && ss[i].shown == Chars(ss[i].puts)
    ensures |ss[i].given| == |ss[i].pcs|
    ensures forall t: nat :: t < |ss[i].pcs| ==> Of(ss[i].puts, t) == Expand(ss[i].given[t])
  {
    hide Step, QueueOk, TokensOk, HolderOk, OrderOk, BytesOk, DrainOk, Of, Expand;
    RunInv(n, ss, es, i);
    QuietQueue(ss[i]);
    QuietBytes(ss[i]);
  }

  lemma QuietQueue(s: State)
    requires TokensOk(s) && HolderOk(s) && OrderOk(s) && DrainOk(s)
    requires forall t: nat :: t < |s.pcs| ==> s.pcs[t].Home?
    ensures s.osem == OBUF && s.queue == [] && s.shown == Chars(s.puts)
  {
    hide Chars;
    NoTokens(s.pcs);
    assert InHand(s) == [];
  }

  lemma QuietBytes(s: State)
    requires BytesOk(s) && forall t: nat :: t < |s.pcs| ==> s.pcs[t].Home?
    ensures |s.given| == |s.pcs|
    ensures forall t: nat :: t < |s.pcs| ==> Of(s.puts, t) == Expand(s.given[t])
  {
    hide Of, Expand;
    forall t: nat | t < |s.pcs| ensures Of(s.puts, t) == Expand(s.given[t]) { assert ToGo(s.pcs[t]) == []; }
  }

  lemma {:induction false} OneWriter(puts: seq<(nat, char)>)
    requires forall i :: 0 <= i < |puts| ==> puts[i].0 == 0
    ensures Of(puts, 0) == Chars(puts)
  {
    if puts != [] { OneWriter(puts[..|puts| - 1]); }
  }

  lemma OnlyStep(s: State, e: Event)
    requires Enabled(s, e) && |s.pcs| == |s.given| == 1 && forall j :: 0 <= j < |s.puts| ==> s.puts[j].0 == 0
    ensures var s' := Step(s, e);
      |s'.pcs| == |s'.given| == 1 && forall j :: 0 <= j < |s'.puts| ==> s'.puts[j].0 == 0
  {
    hide NextOut, AfterPut, Wake;
    var s' := Step(s, e);
    assert e.t == 0;
    if s.waiting != [] { assert s.waiting[0] in s.waiting; }
    assert |s'.pcs| == |s.pcs| && |s'.given| == |s.given|;
    var n := |s.puts|;
    assert s'.puts == s.puts || (|s'.puts| == n + 1 && s'.puts[..n] == s.puts && s'.puts[n].0 == 0);
    forall j | 0 <= j < |s'.puts| ensures s'.puts[j].0 == 0 {
      if j < |s.puts| { assert s'.puts[j] == s.puts[j]; }
    }
  }

  lemma {:induction false} OnlyWriter(ss: seq<State>, es: seq<Event>, i: nat)
    requires IsRun(1, ss, es) && i <= |es|
    ensures |ss[i].pcs| == |ss[i].given| == 1 && (forall j :: 0 <= j < |ss[i].puts| ==> ss[i].puts[j].0 == 0)
  {
    hide Step;
    if i > 0 {
      OnlyWriter(ss, es, i - 1);
      OnlyStep(ss[i - 1], es[i - 1]);
    }
  }

  /** With one writer, what has been shown, is in hand, in the ring and still to be put is
      together the CR-LF expansion of its input, in order. */
  lemma LoneWriter(ss: seq<State>, es: seq<Event>, i: nat)
    requires IsRun(1, ss, es) && i <= |es|
    ensures |ss[i].pcs| == |ss[i].given| == 1
    ensures ss[i].shown + InHand(ss[i]) + ss[i].queue + ToGo(ss[i].pcs[0]) == Expand(ss[i].given[0])
  {
    hide Step, Expand, ToGo, InHand;
    OnlyWriter(ss, es, i);
    RunInv(1, ss, es, i);
    OneWriter(ss[i].puts);
  }

  /** Only a full ring can stop all threads: when none can go on and some write has not
      returned, the ring holds 512 bytes and every such thread sleeps for a token. */
  lemma StuckMeansFull(n: nat, ss: seq<State>, es: seq<Event>, i: nat)
    requires IsRun(n, ss, es) && i <= |es|
    requires forall t: nat :: t < |ss[i].pcs| ==> !Enabled(ss[i], Go(t))
    ensures forall t: nat :: t < |ss[i].pcs| ==> ss[i].pcs[t].Home? || ss[i].pcs[t].Asleep?
    ensures (exists t: nat :: t < |ss[i].pcs| && !ss[i].pcs[t].Home?) ==> |ss[i].queue| == OBUF
  {
    hide Step, QueueOk, TokensOk, HolderOk, OrderOk, BytesOk, DrainOk, Enabled;
    RunInv(n, ss, es, i);
    StuckThreads(ss[i]);
    StuckFull(ss[i]);
  }

  /** Whoever holds the console can go on. */
  lemma HolderGoes(s: State)
    requires QueueOk(s) && HolderOk(s) && BytesOk(s)
    ensures s.holder != FREE ==> s.holder >= 0 && Enabled(s, Go(s.holder))
    ensures forall w :: w in s.waiting ==> w < |s.pcs|
  {
    hide Of, Expand, ToGo;
    if s.holder != FREE { assert InConsole(s.pcs[s.holder]); }
  }

  lemma StuckThreads(s: State)
    requires QueueOk(s) && HolderOk(s) && BytesOk(s)
    requires forall t: nat :: t < |s.pcs| ==> !Enabled(s, Go(t))
    ensures forall t: nat :: t < |s.pcs| ==> s.pcs[t].Home? || s.pcs[t].Asleep?
  {
    hide Of, Expand, ToGo;
    HolderGoes(s);
    assert s.holder == FREE;
    forall t: nat | t < |s.pcs| ensures s.pcs[t].Home? || s.pcs[t].Asleep? {
      assert !Enabled(s, Go(t));
      assert PcOk(s.pcs[t]);
    }
  }

  lemma StuckFull(s: State)
    requires QueueOk(s) && TokensOk(s) && forall t: nat :: t < |s.pcs| ==> s.pcs[t].Home? || s.pcs[t].Asleep?
    ensures (exists t: nat :: t < |s.pcs| && !s.pcs[t].Home?) ==> |s.queue| == OBUF
  {
    hide Tokens;
    NoTokens(s.pcs);
  }
}
