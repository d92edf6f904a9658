/** When several threads' writes to one terminal can stop for good: exactly when the bytes they
    can put without finishing fill the ring. */
module TtyStop {
  import opened Tty
  import opened TtyRuns

  // ----- runs given by their events -----

  ghost predicate Runs(s: State, es: seq<Event>, s': State)
    decreases |es|
  {
    if es == [] then s' == s else Enabled(s, es[0]) && Runs(Step(s, es[0]), es[1..], s')
  }

  lemma {:induction false} RunsOn(s: State, a: seq<Event>, m: State, b: seq<Event>, s': State)
    requires Runs(s, a, m) && Runs(m, b, s')
    ensures Runs(s, a + b, s')
    decreases |a|
  {
    hide Step, Enabled;
    if a == [] {
      assert a + b == b;
    } else {
      RunsOn(Step(s, a[0]), a[1..], m, b, s');
      assert (a + b)[1..] == a[1..] + b;
    }
  }

  lemma RunsOne(s: State, e: Event)
    requires Enabled(s, e)
    ensures Runs(s, [e], Step(s, e))
  {
    hide Step, Enabled;
    assert [e][1..] == [];
  }

  /** The writes thread `t` is called for. */
  function CallsOf(es: seq<Event>, t: nat): seq<seq<char>> {
    if es == [] then [] else CallOf(es[0], t) + CallsOf(es[1..], t)
  }

  function CallOf(e: Event, t: nat): seq<seq<char>> {
    if e.Call? && e.t == t then [e.data] else []
  }

  lemma CallsOfFirst(es: seq<Event>, t: nat)
    ensures es == [] ==> CallsOf(es, t) == []
    ensures es != [] ==> CallsOf(es, t) == CallOf(es[0], t) + CallsOf(es[1..], t)
  {
  }

  lemma {:induction false} CallsOfAppend(a: seq<Event>, b: seq<Event>, t: nat)
    ensures CallsOf(a + b, t) == CallsOf(a, t) + CallsOf(b, t)
  {
    hide CallsOf, CallOf;
    CallsOfFirst(a, t);
    CallsOfFirst(a + b, t);
    if a == [] {
      assert a + b == b;
    } else {
      CallsOfAppend(a[1..], b, t);
      assert (a + b)[1..] == a[1..] + b;
    }
  }

  /** No thread can go on, and some write has not returned. */
  ghost predicate Stuck(s: State) {
    && (forall t: nat :: t < |s.pcs| ==> !Enabled(s, Go(t)))
    && exists t: nat :: t < |s.pcs| && !s.pcs[t].Home?
  }

  /** Every thread is called once, for its own write, and then nothing can go on. */
  ghost predicate Stops(ds: seq<seq<char>>, es: seq<Event>, s: State) {
    && Runs(Start(|ds|), es, s) && Stuck(s)
    && forall t: nat :: t < |ds| ==> CallsOf(es, t) == [ds[t]]
  }

  /** Bytes that writes can put without any of them finishing. */
  function Room(ds: seq<seq<char>>): nat {
    if ds == [] then 0 else Room(ds[..|ds| - 1]) + RoomOf(ds[|ds| - 1])
  }

  function RoomOf(d: seq<char>): nat {
    if |Expand(d)| == 0 then 0 else |Expand(d)| - 1
  }

  // ----- what is in the ring belongs to threads that will drain it -----

  lemma {:induction false} CharsLength(puts: seq<(nat, char)>)
    ensures |Chars(puts)| == |puts|
  {
    if puts != [] { CharsLength(puts[..|puts| - 1]); }
  }

  ghost predicate RingLive(s: State) {
    && |s.queue| <= |s.puts|
    && forall i :: |s.puts| - |s.queue| <= i < |s.puts| ==>
         s.puts[i].0 < |s.pcs| && WillDrain(s.pcs[s.puts[i].0])
  }

  lemma RingLiveKept(s: State, s': State, t: nat)
    requires RingLive(s) && t < |s.pcs| == |s'.pcs| && s'.puts == s.puts
    requires s'.queue == s.queue || (s.queue != [] && s'.queue == s.queue[1..]) || s'.queue == []
    requires forall u: nat :: u < |s.pcs| && u != t && WillDrain(s.pcs[u]) ==> WillDrain(s'.pcs[u])
    requires WillDrain(s'.pcs[t]) || !WillDrain(s.pcs[t]) || s'.queue == []
    ensures RingLive(s')
  {
  }

  lemma RingLivePut(s: State, s': State, t: nat, c: char)
    requires RingLive(s) && t < |s.pcs| == |s'.pcs| && s'.puts == s.puts + [(t, c)] && |s'.queue| == |s.queue| + 1
    requires forall u: nat :: u < |s.pcs| && u != t ==> s'.pcs[u] == s.pcs[u]
    requires WillDrain(s'.pcs[t])
    ensures RingLive(s')
  {
  }

  lemma StepLive(s: State, e: Event)
    requires Enabled(s, e) && QueueOk(s) && RingLive(s)
    ensures RingLive(Step(s, e))
  {
    hide RingLive, QueueOk, Enabled, NextOut, AfterPut;
    var t, s' := e.t, Step(s, e);
    EnabledThread(s, e);
    if s.waiting != [] { WaitingHead(s); }
    if e.Go? && s.pcs[t].HasToken? && |s.queue| < OBUF {
      PutWakes(s.pcs[t].rest, s.pcs[t].cr);
      RingLivePut(s, s', t, NextOut(s.pcs[t].rest, s.pcs[t].cr));
    } else {
      RingLiveKept(s, s', t);
    }
  }

  // ----- a stop fills the ring -----

  /** What every run of the given writes keeps. */
  ghost predicate Kept(ds: seq<seq<char>>, s: State) {
    && Inv(s) && RingLive(s) && |s.pcs| == |ds| && |s.given| == |ds|
  }

  lemma StepKept(ds: seq<seq<char>>, s: State, e: Event)
    requires Kept(ds, s) && Enabled(s, e)
    ensures Kept(ds, Step(s, e)) && e.t < |ds|
    ensures forall t: nat :: t < |ds| ==>
      Step(s, e).given[t] == s.given[t] + (if e.Call? && e.t == t then e.data else [])
  {
    hide Inv, RingLive, QueueOk, TokensOk, HolderOk, OrderOk, BytesOk, DrainOk, NextOut, AfterPut;
    StepInv(s, e);
    InvParts(s);
    StepLive(s, e);
    if s.waiting != [] { WaitingHead(s); }
  }

  lemma InvParts(s: State)
    requires Inv(s)
    ensures QueueOk(s) && TokensOk(s) && HolderOk(s) && OrderOk(s) && BytesOk(s) && DrainOk(s)
  {
  }

  function Flat(xs: seq<seq<char>>): seq<char> {
    if xs == [] then [] else xs[0] + Flat(xs[1..])
  }

  lemma {:induction false} RunsKept(ds: seq<seq<char>>, s: State, es: seq<Event>, s': State, t: nat)
    requires Kept(ds, s) && Runs(s, es, s') && t < |ds|
    ensures Kept(ds, s') && s'.given[t] == s.given[t] + Flat(CallsOf(es, t))
    decreases |es|
  {
    hide Kept, Step, Enabled, CallsOf, Flat, CallOf;
    CallsOfFirst(es, t);
    KeptSize(ds, s);
    if es == [] {
      FlatFirst([], []);
    } else {
      StepKept(ds, s, es[0]);
      KeptSize(ds, Step(s, es[0]));
      RunsKept(ds, Step(s, es[0]), es[1..], s', t);
      CallGiven(es[0], t);
      FlatFirst(CallOf(es[0], t), CallsOf(es[1..], t));
      ThreeParts(s.given[t], if es[0].Call? && es[0].t == t then es[0].data else [], Flat(CallsOf(es[1..], t)));
    }
  }

  lemma KeptSize(ds: seq<seq<char>>, s: State)
    requires Kept(ds, s)
    ensures |s.pcs| == |s.given| == |ds|
  {
  }

  lemma CallGiven(e: Event, t: nat)
    ensures |CallOf(e, t)| <= 1
    ensures (if CallOf(e, t) == [] then [] else CallOf(e, t)[0]) == if e.Call? && e.t == t then e.data else []
  {
  }

  lemma ThreeParts(a: seq<char>, b: seq<char>, c: seq<char>)
    ensures a + (b + c) == a + b + c
  {
  }

  lemma FlatFirst(a: seq<seq<char>>, b: seq<seq<char>>)
    requires |a| <= 1
    ensures Flat(a + b) == (if a == [] then [] else a[0]) + Flat(b)
    ensures Flat([]) == []
  {
    if a == [] {
      assert a + b == b;
    } else {
      assert (a + b)[1..] == b;
    }
  }

  lemma StartKept(ds: seq<seq<char>>)
    ensures Kept(ds, Start(|ds|))
  {
    hide Inv;
    StartInv(|ds|);
  }

  function SumOf(puts: seq<(nat, char)>, n: nat): nat {
    if n == 0 then 0 else SumOf(puts, n - 1) + |Of(puts, n - 1)|
  }

  lemma {:induction false} SumOfMore(puts: seq<(nat, char)>, n: nat)
    requires puts != []
    ensures SumOf(puts, n) == SumOf(puts[..|puts| - 1], n) + (if puts[|puts| - 1].0 < n then 1 else 0)
  {
    if n > 0 { SumOfMore(puts, n - 1); }
  }

  lemma {:induction false} SumOfNone(n: nat)
    ensures SumOf([], n) == 0
  {
    if n > 0 { SumOfNone(n - 1); }
  }

  /** Every byte put was put by some thread. */
  lemma {:induction false} SumOfAll(puts: seq<(nat, char)>, n: nat)
    requires forall i :: 0 <= i < |puts| ==> puts[i].0 < n
    ensures SumOf(puts, n) == |puts|
  {
    if puts == [] {
      SumOfNone(n);
    } else {
      SumOfAll(puts[..|puts| - 1], n);
      SumOfMore(puts, n);
    }
  }

  lemma {:induction false} OfTail(puts: seq<(nat, char)>, k: nat, t: nat)
    requires k <= |puts|
    ensures |Of(puts[k..], t)| <= |Of(puts, t)|
    decreases |puts|
  {
    if k < |puts| {
      var m := |puts| - 1;
      OfTail(puts[..m], k, t);
      assert puts[k..][..|puts[k..]| - 1] == puts[..m][k..];
      assert puts[k..][|puts[k..]| - 1] == puts[m];
    } else {
      assert puts[k..] == [];
    }
  }

  lemma {:induction false} OfNone(puts: seq<(nat, char)>, t: nat)
    requires forall i :: 0 <= i < |puts| ==> puts[i].0 != t
    ensures Of(puts, t) == []
  {
    if puts != [] { OfNone(puts[..|puts| - 1], t); }
  }

  /** A thread asleep has bytes still to put. */
  lemma AsleepPutsLess(s: State, t: nat)
    requires BytesOk(s) && t < |s.pcs| && s.pcs[t].Asleep?
    ensures |Of(s.puts, t)| <= RoomOf(s.given[t])
  {
    hide Of;
    assert PcOk(s.pcs[t]);
    ExpandSome(s.pcs[t].rest);
    assert |ToGo(s.pcs[t])| >= 1;
  }

  lemma ExpandSome(d: seq<char>)
    ensures d != [] <==> Expand(d) != []
  {
  }

  lemma {:induction false} RingWithinRoom(ds: seq<seq<char>>, s: State, k: nat)
    requires k <= |ds| == |s.pcs| && |s.queue| <= |s.puts|
    requires forall t: nat :: t < |ds| ==> |Of(s.puts[|s.puts| - |s.queue|..], t)| <= RoomOf(ds[t])
    ensures SumOf(s.puts[|s.puts| - |s.queue|..], k) <= Room(ds[..k])
  {
    hide Of, RoomOf;
    if k > 0 {
      RingWithinRoom(ds, s, k - 1);
      assert ds[..k][..k - 1] == ds[..k - 1] && ds[..k][k - 1] == ds[k - 1];
    }
  }

  /** The bytes in the ring of a stopped terminal are such as its threads could put. */
  lemma TailWithinRoom(ds: seq<seq<char>>, s: State, t: nat)
    requires RingLive(s) && BytesOk(s) && |s.pcs| == |ds| == |s.given| && t < |ds| && s.given[t] == ds[t]
    requires s.pcs[t].Home? || s.pcs[t].Asleep?
    ensures |Of(s.puts[|s.puts| - |s.queue|..], t)| <= RoomOf(ds[t])
  {
    hide Of, RoomOf, BytesOk;
    var k := |s.puts| - |s.queue|;
    var tail := s.puts[k..];
    if s.pcs[t].Asleep? {
      AsleepPutsLess(s, t);
      OfTail(s.puts, k, t);
    } else {
      forall i | 0 <= i < |tail| ensures tail[i].0 != t { assert tail[i] == s.puts[k + i]; }
      OfNone(tail, t);
    }
  }

  /** All bytes in the ring are some thread's. */
  lemma TailIsAll(ds: seq<seq<char>>, s: State)
    requires RingLive(s) && |s.pcs| == |ds|
    ensures SumOf(s.puts[|s.puts| - |s.queue|..], |ds|) == |s.queue|
  {
    hide Of, SumOf;
    var k := |s.puts| - |s.queue|;
    var tail := s.puts[k..];
    forall i | 0 <= i < |tail| ensures tail[i].0 < |ds| { assert tail[i] == s.puts[k + i]; }
    SumOfAll(tail, |ds|);
  }

  lemma GivenIsCalled(ds: seq<seq<char>>, es: seq<Event>, s: State, t: nat)
    requires Runs(Start(|ds|), es, s) && t < |ds| && CallsOf(es, t) == [ds[t]]
    ensures t < |s.given| && s.given[t] == ds[t]
  {
    hide Kept, Runs, Step, CallsOf, Flat;
    StartKept(ds);
    RunsKept(ds, Start(|ds|), es, s, t);
    KeptSize(ds, s);
    FlatFirst([ds[t]], []);
    assert [ds[t]] + [] == [ds[t]] && Start(|ds|).given[t] == [];
  }

  /** A stop means that unfinished writes could put 512 bytes. */
  lemma StopFills(ds: seq<seq<char>>, es: seq<Event>, s: State)
    requires Stops(ds, es, s)
    ensures Room(ds) >= OBUF
  {
    hide Inv, Of, RoomOf, Room, Runs, CallsOf, Enabled, QueueOk, TokensOk, HolderOk, OrderOk, BytesOk, DrainOk, SumOf,
         RingLive;
    StuckInRuns(ds, es, s);
    InvParts(s);
    StuckThreads(s);
    StuckFull(s);
    forall t: nat | t < |ds| ensures |s.queue| <= |s.puts| && |Of(s.puts[|s.puts| - |s.queue|..], t)| <= RoomOf(ds[t]) {
      RingInPuts(s);
      GivenIsCalled(ds, es, s, t);
      TailWithinRoom(ds, s, t);
    }
    RingInPuts(s);
    RingWithinRoom(ds, s, |ds|);
    TailIsAll(ds, s);
    assert ds[..|ds|] == ds;
  }

  lemma RingInPuts(s: State)
    requires RingLive(s)
    ensures |s.queue| <= |s.puts|
  {
  }

  lemma StuckInRuns(ds: seq<seq<char>>, es: seq<Event>, s: State)
    requires Runs(Start(|ds|), es, s) && Stuck(s)
    ensures Kept(ds, s)
  {
    hide Inv, RingLive, Step, Enabled;
    StartKept(ds);
    if |ds| == 0 { KeptNone(ds, Start(0), es, s); } else { RunsKept(ds, Start(|ds|), es, s, 0); }
  }

  lemma {:induction false} KeptNone(ds: seq<seq<char>>, s: State, es: seq<Event>, s': State)
    requires Kept(ds, s) && Runs(s, es, s')
    ensures Kept(ds, s')
    decreases |es|
  {
    hide Inv, RingLive, Step, Enabled;
    if es != [] {
      StepKept(ds, s, es[0]);
      KeptNone(ds, Step(s, es[0]), es[1..], s');
    }
  }

  // ----- and writes that can put so many bytes can stop -----

  /** The threads before `k` with something to write stand before their next wait, the others
      are at home, and nobody drains. */
  ghost predicate Filling(ds: seq<seq<char>>, s: State, k: nat) {
    && |s.pcs| == |s.given| == |ds| && k <= |ds|
    && s.waiting == [] && s.holder == FREE && s.osem + |s.queue| == OBUF
    && forall t: nat :: t < |ds| ==>
         if t < k && ds[t] != [] then s.pcs[t].Wants? && s.pcs[t].rest != [] else s.pcs[t].Home?
  }

  /** One byte put. */
  lemma PutByte(s: State, t: nat) returns (s': State)
    requires t < |s.pcs| == |s.given| && s.pcs[t].Wants? && PcOk(s.pcs[t]) && s.waiting == []
    requires s.osem > 0 && s.osem + |s.queue| == OBUF && |ToGo(s.pcs[t])| >= 2
    ensures Runs(s, [Go(t), Go(t)], s') && t < |s'.pcs|
    ensures s' == s.(osem := s.osem - 1, queue := s'.queue, puts := s'.puts, pcs := s.pcs[t := s'.pcs[t]])
    ensures |s'.queue| == |s.queue| + 1
    ensures s'.pcs[t].Wants? && PcOk(s'.pcs[t]) && |ToGo(s'.pcs[t])| == |ToGo(s.pcs[t])| - 1
  {
    hide Expand;
    var pc := s.pcs[t];
    var m := Step(s, Go(t));
    s' := Step(m, Go(t));
    PutOne(pc.rest, pc.cr);
    PutWakes(pc.rest, pc.cr);
    assert ToGo(HasToken(pc.rest, pc.cr)) == ToGo(pc);
    assert s'.pcs == s.pcs[t := AfterPut(pc.rest, pc.cr)];
    RunsOne(s, Go(t));
    RunsOne(m, Go(t));
    RunsOn(s, [Go(t)], m, [Go(t)], s');
    assert [Go(t)] + [Go(t)] == [Go(t), Go(t)];
  }

  /** `m` bytes put by thread `t`. */
  lemma {:induction false} PutBytes(s: State, t: nat, m: nat) returns (es: seq<Event>, s': State)
    requires t < |s.pcs| == |s.given| && s.pcs[t].Wants? && PcOk(s.pcs[t]) && s.waiting == []
    requires s.osem >= m && s.osem + |s.queue| == OBUF && |ToGo(s.pcs[t])| > m
    ensures Runs(s, es, s') && (forall u: nat :: CallsOf(es, u) == []) && t < |s'.pcs|
    ensures s' == s.(osem := s.osem - m, queue := s'.queue, puts := s'.puts, pcs := s.pcs[t := s'.pcs[t]])
    ensures |s'.queue| == |s.queue| + m && s'.pcs[t].Wants? && PcOk(s'.pcs[t])
    decreases m
  {
    hide Runs, ToGo, PcOk;
    if m == 0 {
      es, s' := [], s;
      NoEvents(s);
    } else {
      var s1 := PutByte(s, t);
      var rest;
      rest, s' := PutBytes(s1, t, m - 1);
      es := [Go(t), Go(t)] + rest;
      RunsOn(s, [Go(t), Go(t)], s1, rest, s');
      forall u: nat ensures CallsOf(es, u) == [] {
        CallsOfAppend([Go(t), Go(t)], rest, u);
        GoesCallNobody(t, u);
      }
    }
  }

  lemma NoEvents(s: State)
    ensures Runs(s, [], s)
  {
  }

  lemma NothingCalled()
    ensures forall u: nat :: CallsOf([], u) == []
  {
  }

  lemma GoesCallNobody(t: nat, u: nat)
    ensures CallsOf([Go(t), Go(t)], u) == []
  {
    CallsOfAppend([Go(t)], [Go(t)], u);
    OneCall(Go(t), u);
    assert [Go(t)] + [Go(t)] == [Go(t), Go(t)];
  }

  /** Thread `k` is called and puts `m` bytes. */
  lemma FillOne(ds: seq<seq<char>>, s: State, k: nat, m: nat) returns (es: seq<Event>, s': State)
    requires Filling(ds, s, k) && k < |ds| && ds[k] != [] && m <= RoomOf(ds[k]) && m <= s.osem
    ensures Runs(s, es, s') && Filling(ds, s', k + 1) && |s'.queue| == |s.queue| + m
    ensures forall u: nat :: CallsOf(es, u) == if u == k then [ds[k]] else []
  {
    hide Runs, ToGo, Expand;
    var call := Call(k, ds[k]);
    var s1 := Step(s, call);
    RunsOne(s, call);
    CallGoes(ds[k]);
    ExpandSome(ds[k]);
    var rest;
    rest, s' := PutBytes(s1, k, m);
    es := [call] + rest;
    RunsOn(s, [call], s1, rest, s');
    WantsIsOk(s'.pcs[k]);
    forall u: nat ensures CallsOf(es, u) == if u == k then [ds[k]] else [] {
      CallsOfAppend([call], rest, u);
      OneCall(call, u);
    }
  }

  lemma WantsIsOk(pc: Pc)
    requires pc.Wants? && PcOk(pc)
    ensures pc.rest != []
  {
  }

  lemma OneCall(e: Event, u: nat)
    ensures CallsOf([e], u) == if e.Call? && e.t == u then [e.data] else []
  {
    assert [e][1..] == [];
  }

  function Least(a: nat, b: nat): nat { if a <= b then a else b }

  lemma RoomUpTo(ds: seq<seq<char>>, k: nat)
    requires k <= |ds|
    ensures k == 0 ==> Room(ds[..k]) == 0
    ensures k > 0 ==> Room(ds[..k]) == Room(ds[..k - 1]) + (if ds[k - 1] == [] then 0 else RoomOf(ds[k - 1]))
  {
    if k > 0 {
      assert ds[..k][..k - 1] == ds[..k - 1] && ds[..k][k - 1] == ds[k - 1];
      ExpandSome(ds[k - 1]);
    }
  }

  lemma FillingTokens(ds: seq<seq<char>>, s: State, k: nat)
    requires Filling(ds, s, k)
    ensures s.osem + |s.queue| == OBUF
  {
  }

  lemma FillingNobody(ds: seq<seq<char>>, s: State, k: nat)
    requires Filling(ds, s, k) && k < |ds| && ds[k] == []
    ensures Filling(ds, s, k + 1)
  {
  }

  /** The threads before `k` fill the ring as far as they can without finishing. */
  lemma {:induction false} FillAll(ds: seq<seq<char>>, s0: State, k: nat) returns (es: seq<Event>, s: State)
    requires Filling(ds, s0, 0) && s0.queue == [] && k <= |ds|
    ensures Runs(s0, es, s) && Filling(ds, s, k) && |s.queue| == Least(OBUF, Room(ds[..k]))
    ensures forall u: nat :: CallsOf(es, u) == if u < k && ds[u] != [] then [ds[u]] else []
    decreases k
  {
    hide Runs, Expand, Filling, Room, RoomOf;
    RoomUpTo(ds, k);
    FillingTokens(ds, s0, 0);
    if k == 0 {
      es, s := [], s0;
      NoEvents(s0);
    } else {
      es, s := FillAll(ds, s0, k - 1);
      FillingTokens(ds, s, k - 1);
      if ds[k - 1] == [] {
        FillingNobody(ds, s, k - 1);
      } else {
        var more, s' := FillOne(ds, s, k - 1, Least(OBUF - |s.queue|, RoomOf(ds[k - 1])));
        RunsOn(s0, es, s, more, s');
        forall u: nat ensures CallsOf(es + more, u) == if u < k && ds[u] != [] then [ds[u]] else [] {
          CallsOfAppend(es, more, u);
        }
        es, s := es + more, s';
      }
    }
  }

  /** An empty write on a drained terminal comes and goes. */
  lemma EmptyWrite(n: nat, t: nat) returns (es: seq<Event>)
    requires t < n
    ensures Runs(Start(n), es, Start(n)) && forall u: nat :: CallsOf(es, u) == if u == t then [[]] else []
  {
    hide Runs;
    var s0 := Start(n);
    var s1 := Step(s0, Call(t, []));
    assert s0.given[t] + [] == s0.given[t];
    assert s1 == s0.(pcs := s0.pcs[t := Locks]);
    var s2 := Step(s1, Go(t));
    assert s2 == s0.(pcs := s0.pcs[t := Drains], holder := t);
    var s3 := Step(s2, Go(t));
    assert s3 == s0.(pcs := s0.pcs[t := Unlocks], holder := t);
    assert Step(s3, Go(t)) == s0;
    RunsOne(s0, Call(t, []));
    RunsOne(s1, Go(t));
    RunsOne(s2, Go(t));
    RunsOne(s3, Go(t));
    RunsOn(s0, [Call(t, [])], s1, [Go(t)], s2);
    RunsOn(s2, [Go(t)], s3, [Go(t)], s0);
    es := ([Call(t, [])] + [Go(t)]) + ([Go(t)] + [Go(t)]);
    RunsOn(s0, [Call(t, [])] + [Go(t)], s2, [Go(t)] + [Go(t)], s0);
    forall u: nat ensures CallsOf(es, u) == if u == t then [[]] else [] {
      CallsOfAppend([Call(t, [])] + [Go(t)], [Go(t)] + [Go(t)], u);
      CallsOfAppend([Call(t, [])], [Go(t)], u);
      CallsOfAppend([Go(t)], [Go(t)], u);
      OneCall(Call(t, []), u);
      OneCall(Go(t), u);
    }
  }

  /** All empty writes before `k` come and go. */
  lemma {:induction false} EmptyWrites(ds: seq<seq<char>>, k: nat) returns (es: seq<Event>)
    requires k <= |ds|
    ensures Runs(Start(|ds|), es, Start(|ds|))
    ensures forall u: nat :: CallsOf(es, u) == if u < k && ds[u] == [] then [ds[u]] else []
    decreases k
  {
    hide Runs, CallsOf, Start;
    if k == 0 {
      es := [];
      NothingCalled();
      NoEvents(Start(|ds|));
    } else {
      es := EmptyWrites(ds, k - 1);
      if ds[k - 1] == [] {
        var more := EmptyWrite(|ds|, k - 1);
        RunsOn(Start(|ds|), es, Start(|ds|), more, Start(|ds|));
        forall u: nat ensures CallsOf(es + more, u) == if u < k && ds[u] == [] then [ds[u]] else [] {
          CallsOfAppend(es, more, u);
        }
        es := es + more;
      }
    }
  }

  /** With a full ring the threads before `k` fall asleep one after the other. */
  ghost predicate FallingAsleep(ds: seq<seq<char>>, s: State, k: nat) {
    && |s.pcs| == |s.given| == |ds| && k <= |ds| && s.osem == 0 && s.holder == FREE
    && (forall w :: w in s.waiting ==> w < |s.pcs|)
    && forall t: nat :: t < |ds| ==>
         if ds[t] == [] then s.pcs[t].Home? else if t < k then s.pcs[t].Asleep? else s.pcs[t].Wants?
  }

  lemma {:induction false} SleepAll(ds: seq<seq<char>>, s0: State, k: nat) returns (es: seq<Event>, s: State)
    requires FallingAsleep(ds, s0, 0) && k <= |ds|
    ensures Runs(s0, es, s) && FallingAsleep(ds, s, k) && forall u: nat :: CallsOf(es, u) == []
    decreases k
  {
    hide Runs;
    if k == 0 {
      es, s := [], s0;
      NoEvents(s0);
    } else {
      es, s := SleepAll(ds, s0, k - 1);
      if ds[k - 1] != [] {
        var e := Go(k - 1);
        var s' := Step(s, e);
        RunsOne(s, e);
        RunsOn(s0, es, s, [e], s');
        forall u: nat ensures CallsOf(es + [e], u) == [] {
          CallsOfAppend(es, [e], u);
          OneCall(e, u);
        }
        es, s := es + [e], s';
      }
    }
  }

  lemma {:induction false} RoomSome(ds: seq<seq<char>>)
    requires Room(ds) > 0
    ensures exists t :: 0 <= t < |ds| && ds[t] != []
  {
    var n := |ds| - 1;
    if Room(ds[..n]) > 0 {
      RoomSome(ds[..n]);
      var t :| 0 <= t < n && ds[..n][t] != [];
      assert ds[t] != [];
    } else {
      ExpandSome(ds[n]);
      assert ds[n] != [];
    }
  }

  lemma FullStops(ds: seq<seq<char>>) returns (es: seq<Event>, s: State)
    requires Room(ds) >= OBUF
    ensures Stops(ds, es, s)
  {
    hide Runs, Room, Expand, CallsOf, Filling, FallingAsleep;
    var n := |ds|;
    var empties := EmptyWrites(ds, n);
    NothingFilled(ds);
    var fills, full := FillAll(ds, Start(n), n);
    assert ds[..n] == ds;
    RingIsFull(ds, full);
    var sleeps;
    sleeps, s := SleepAll(ds, full, n);
    RunsOn(Start(n), empties, Start(n), fills, full);
    RunsOn(Start(n), empties + fills, full, sleeps, s);
    es := empties + fills + sleeps;
    forall t: nat | t < n ensures CallsOf(es, t) == [ds[t]] {
      CallsOfAppend(empties, fills, t);
      CallsOfAppend(empties + fills, sleeps, t);
    }
    RoomSome(ds);
    AllAsleepIsStuck(ds, s);
  }

  lemma NothingFilled(ds: seq<seq<char>>)
    ensures Filling(ds, Start(|ds|), 0)
  {
  }

  lemma RingIsFull(ds: seq<seq<char>>, s: State)
    requires Filling(ds, s, |ds|) && |s.queue| == OBUF
    ensures FallingAsleep(ds, s, 0)
  {
  }

  lemma AllAsleepIsStuck(ds: seq<seq<char>>, s: State)
    requires FallingAsleep(ds, s, |ds|) && exists t :: 0 <= t < |ds| && ds[t] != []
    ensures Stuck(s)
  {
    var t :| 0 <= t < |ds| && ds[t] != [];
    assert !s.pcs[t].Home?;
  }

  /** Some interleaving of one write per thread stops for good exactly when the bytes that the
      writes can put without finishing are 512 or more. */
  lemma StopsIff(ds: seq<seq<char>>)
    ensures (exists es, s :: Stops(ds, es, s)) <==> Room(ds) >= OBUF
  {
    hide Stops, Room;
    if es, s :| Stops(ds, es, s) { StopFills(ds, es, s); }
    if Room(ds) >= OBUF {
      var es, s := FullStops(ds);
    }
  }
}
