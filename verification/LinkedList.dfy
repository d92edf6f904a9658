/** The kernel's intrusive doubly linked list (list.c), and the sleep sweep of the timer
    tick, which unlinks nodes while it walks the list (task.c:319-328). */
module LinkedList {

  /** A `run_node` together with the number and the `sleep_ticks` of the task that contains it. */
  class Node {
    const id: int
    var pre: Node?
    var next: Node?
    var sleepTicks: int

    constructor (id: int)
      ensures this.id == id && pre == null && next == null && sleepTicks == 0
    {
      this.id := id;
      pre, next, sleepTicks := null, null, 0;
    }
  }

  ghost predicate Distinct(s: seq<Node>) {
    forall i, j :: 0 <= i < j < |s| ==> s[i] != s[j]
  }

  /** Neighbours of position `i`. */
  function Before(s: seq<Node>, i: nat): Node?
    requires i < |s|
  {
    if i == 0 then null else s[i - 1]
  }

  function After(s: seq<Node>, i: nat): Node?
    requires i < |s|
  {
    if i == |s| - 1 then null else s[i + 1]
  }

  /** The node at position `i` points to its neighbours. */
  ghost predicate LinkedAt(s: seq<Node>, i: nat)
    requires i < |s|
    reads s[i]
  {
    s[i].pre == Before(s, i) && s[i].next == After(s, i)
  }

  ghost predicate Apart(a: seq<Node>, b: seq<Node>) {
    forall n :: n in a ==> n !in b
  }

  ghost predicate Holds(all: set<Node>, s: seq<Node>) {
    forall i :: 0 <= i < |s| ==> s[i] in all
  }

  function Without(s: seq<Node>, k: nat): seq<Node>
    requires k < |s|
  {
    s[..k] + s[k + 1..]
  }

  class List {
    var first: Node?
    var last: Node?
    var count: int
    ghost var nodes: seq<Node>

    ghost predicate Valid()
      reads this, nodes
    {
      && count == |nodes| && Distinct(nodes)
      && first == (if nodes == [] then null else nodes[0])
      && last == (if nodes == [] then null else nodes[|nodes| - 1])
      && (forall i :: 0 <= i < |nodes| ==> LinkedAt(nodes, i))
    }

    /** `list_init` on zeroed memory; the source's own statement leaves `count` alone. */
    constructor ()
      ensures Valid() && nodes == []
    {
      first, last, count, nodes := null, null, 0, [];
    }

    method InsertFirst(node: Node)
      requires Valid() && node !in nodes
      modifies this, node`pre, node`next, nodes`pre, nodes`next
      ensures Valid() && nodes == [node] + old(nodes)
    {
      node.next := first;
      node.pre := null;
      if count == 0 {
        last := node;
        first := node;
      } else {
        first.pre := node;
        first := node;
      }
      count := count + 1;
      nodes := [node] + nodes;
      forall i | 0 <= i < |nodes| ensures LinkedAt(nodes, i) {
        if i > 0 { assert nodes[i] == old(nodes)[i - 1] && old(LinkedAt(nodes, i - 1)); }
      }
    }

    method InsertLast(node: Node)
      requires Valid() && node !in nodes
      modifies this, node`pre, node`next, nodes`pre, nodes`next
      ensures Valid() && nodes == old(nodes) + [node]
    {
      node.pre := last;
      node.next := null;
      if count == 0 {
        first := node;
        last := node;
      } else {
        last.next := node;
        last := node;
      }
      count := count + 1;
      nodes := nodes + [node];
      forall i | 0 <= i < |nodes| ensures LinkedAt(nodes, i) {
        if i < |old(nodes)| { assert nodes[i] == old(nodes)[i] && old(LinkedAt(nodes, i)); }
      }
    }

    method RemoveFirst() returns (r: Node?)
      requires Valid()
      modifies this, nodes`pre, nodes`next
      ensures Valid()
      ensures old(nodes) == [] ==> r == null && nodes == []
      ensures old(nodes) != [] ==> r == old(nodes)[0] && nodes == old(nodes)[1..] && r.pre == null && r.next == null
    {
      if count == 0 {
        return null;
      }
      var node := first;
      assert LinkedAt(nodes, 0);
      first := node.next;
      if first == null {
        last := null;
      } else {
        node.next.pre := null;
      }
      node.next, node.pre := null, null;
      count := count - 1;
      nodes := nodes[1..];
      forall i | 0 <= i < |nodes| ensures LinkedAt(nodes, i) {
        assert nodes[i] == old(nodes)[i + 1] && old(LinkedAt(nodes, i + 1));
      }
      return node;
    }

    /** `list_remove`: its node must be in the list, at any position. */
    method Remove(node: Node, ghost k: nat)
      requires Valid() && k < |nodes| && nodes[k] == node
      modifies this, nodes`pre, nodes`next
      ensures Valid() && nodes == Without(old(nodes), k) && node.pre == null && node.next == null
    {
      assert LinkedAt(nodes, k);
      if node == first {
        first := node.next;
      }
      if node == last {
        last := node.pre;
      }
      if node.pre != null {
        node.pre.next := node.next;
      }
      if node.next != null {
        node.next.pre := node.pre;
      }
      node.pre, node.next := null, null;
      count := count - 1;
      nodes := Without(nodes, k);
      forall i | 0 <= i < |nodes| ensures LinkedAt(nodes, i) {
        if i < k { assert nodes[i] == old(nodes)[i] && old(LinkedAt(nodes, i)); }
        else { assert nodes[i] == old(nodes)[i + 1] && old(LinkedAt(nodes, i + 1)); }
      }
    }
  }

  // ----- the sleep sweep -----

  /** The sleepers whose count is not yet down to one, in order. */
  function StillAsleep(s: seq<Node>, ticks: seq<int>): seq<Node>
    requires |s| == |ticks|
  {
    if s == [] then []
    else
      var n := |s| - 1;
      StillAsleep(s[..n], ticks[..n]) + (if ticks[n] == 1 then [] else [s[n]])
  }

  /** The sleepers this sweep wakes, in order. */
  function Woken(s: seq<Node>, ticks: seq<int>): seq<Node>
    requires |s| == |ticks|
  {
    if s == [] then []
    else
      var n := |s| - 1;
      Woken(s[..n], ticks[..n]) + (if ticks[n] == 1 then [s[n]] else [])
  }

  lemma {:induction false} SweepMembers(s: seq<Node>, ticks: seq<int>, n: Node)
    requires |s| == |ticks|
    ensures n in StillAsleep(s, ticks) || n in Woken(s, ticks) <==> n in s
  {
    if s != [] { SweepMembers(s[..|s| - 1], ticks[..|s| - 1], n); }
  }

  lemma TakeOne(s: seq<Node>, ticks: seq<int>, i: nat)
    requires |s| == |ticks| && i < |s|
    ensures StillAsleep(s[..i + 1], ticks[..i + 1])
         == StillAsleep(s[..i], ticks[..i]) + (if ticks[i] == 1 then [] else [s[i]])
    ensures Woken(s[..i + 1], ticks[..i + 1]) == Woken(s[..i], ticks[..i]) + (if ticks[i] == 1 then [s[i]] else [])
  {
    assert s[..i + 1][..i] == s[..i] && ticks[..i + 1][..i] == ticks[..i];
  }

  /** A list whose links did not change is still well formed. */
  twostate lemma LinksKept(l: List)
    requires old(l.Valid()) && l.first == old(l.first) && l.last == old(l.last)
    requires l.count == old(l.count) && l.nodes == old(l.nodes)
    requires forall n :: n in l.nodes ==> n.pre == old(n.pre) && n.next == old(n.next)
    ensures l.Valid()
  {
    forall i | 0 <= i < |l.nodes| ensures LinkedAt(l.nodes, i) { assert old(LinkedAt(l.nodes, i)); }
  }

  /** One sleeper: count down; on zero move it from one list to the other. */
  method SweepOne(sleep: List, ready: List, curr: Node, ghost k: nat, ghost all: set<Node>) returns (next: Node?)
    requires sleep.Valid() && ready.Valid() && sleep != ready
    requires k < |sleep.nodes| && sleep.nodes[k] == curr
    requires Apart(sleep.nodes, ready.nodes)
    requires Holds(all, sleep.nodes) && Holds(all, ready.nodes)
    modifies sleep, ready, curr`sleepTicks, all`pre, all`next
    ensures sleep.Valid() && ready.Valid()
    ensures next == After(old(sleep.nodes), k)
    ensures curr.sleepTicks == old(curr.sleepTicks) - 1
    ensures sleep.nodes == if old(curr.sleepTicks) == 1 then Without(old(sleep.nodes), k) else old(sleep.nodes)
    ensures ready.nodes == if old(curr.sleepTicks) == 1 then old(ready.nodes) + [curr] else old(ready.nodes)
  {
    assert LinkedAt(sleep.nodes, k);
    next := curr.next;
    curr.sleepTicks := curr.sleepTicks - 1;
    LinksKept(sleep);
    LinksKept(ready);
    label counted:
    if curr.sleepTicks == 0 {
      sleep.Remove(curr, k);
      LinksKept@counted(ready);
      RestApart(old(sleep.nodes), k);
      label removed:
      ready.InsertLast(curr);
      LinksKept@removed(sleep);
    }
  }

  lemma RestApart(s: seq<Node>, k: nat)
    requires Distinct(s) && k < |s|
    ensures s[k] !in Without(s, k)
    ensures forall n :: n in Without(s, k) ==> n in s
  {
  }

  ghost function Ticks(s: seq<Node>): seq<int>
    reads s
  {
    seq(|s|, i requires 0 <= i < |s| reads s => s[i].sleepTicks)
  }

  /** The whole sweep: every sleeper counts down once, those that reach zero move to the
      end of the ready list in order, and the others keep their order. */
  method Sweep(sleep: List, ready: List, ghost all: set<Node>)
    requires sleep.Valid() && ready.Valid() && sleep != ready
    requires Apart(sleep.nodes, ready.nodes)
    requires Holds(all, sleep.nodes) && Holds(all, ready.nodes)
    modifies sleep, ready, sleep.nodes`sleepTicks, all`pre, all`next
    ensures sleep.Valid() && ready.Valid()
    ensures forall n :: n in old(sleep.nodes) ==> n.sleepTicks == old(n.sleepTicks) - 1
    ensures sleep.nodes == StillAsleep(old(sleep.nodes), old(Ticks(sleep.nodes)))
    ensures ready.nodes == old(ready.nodes) + Woken(old(sleep.nodes), old(Ticks(sleep.nodes)))
  {
    hide List.Valid, StillAsleep, Woken, SweepAt, After, Without, Apart, Holds;
    ghost var s, t, r0 := sleep.nodes, Ticks(sleep.nodes), ready.nodes;
    ghost var i: nat := 0;
    var curr := sleep.first;
    SweepStarts(sleep, t, r0);
    while curr != null
      invariant i <= |s| && curr == (if i == |s| then null else s[i])
      invariant sleep.Valid() && ready.Valid()
      invariant SweepAt(s, t, i, r0, sleep.nodes, ready.nodes)
      invariant forall k :: 0 <= k < |s| ==> s[k].sleepTicks == t[k] - (if k < i then 1 else 0)
      decreases |s| - i
    {
      curr := SweepRound(sleep, ready, curr, s, t, i, r0, all);
      i := i + 1;
    }
    SweepEnds(s, t, r0, sleep.nodes, ready.nodes);
  }

  method SweepRound(sleep: List, ready: List, curr: Node, ghost s: seq<Node>, ghost t: seq<int>, ghost i: nat,
                    ghost r0: seq<Node>, ghost all: set<Node>)
    returns (next: Node?)
    requires sleep.Valid() && ready.Valid() && sleep != ready
    requires i < |s| == |t| && curr == s[i] && Holds(all, s) && Holds(all, r0)
    requires SweepAt(s, t, i, r0, sleep.nodes, ready.nodes) && curr.sleepTicks == t[i]
    modifies sleep, ready, curr`sleepTicks, all`pre, all`next
    ensures sleep.Valid() && ready.Valid()
    ensures SweepAt(s, t, i + 1, r0, sleep.nodes, ready.nodes)
    ensures next == if i + 1 == |s| then null else s[i + 1]
    ensures curr.sleepTicks == old(curr.sleepTicks) - 1
    ensures forall k :: 0 <= k < |s| && k != i ==> s[k] != s[i]
  {
    hide List.Valid, StillAsleep, Woken, SweepAt, After, Without, Apart, Holds;
    ghost var k := |StillAsleep(s[..i], t[..i])|;
    ghost var now, r := sleep.nodes, ready.nodes;
    SweepPlace(s, t, i, r0, now, r, all);
    next := SweepOne(sleep, ready, curr, k, all);
    SweepStep(s, t, i, r0, now, r, sleep.nodes, ready.nodes);
  }

  /** After `i` of the original sleepers `s` the lists hold `now` and `r`. */
  ghost predicate SweepAt(s: seq<Node>, t: seq<int>, i: nat, r0: seq<Node>, now: seq<Node>, r: seq<Node>) {
    && |s| == |t| && i <= |s| && Distinct(s) && Apart(s, r0)
    && now == StillAsleep(s[..i], t[..i]) + s[i..]
    && r == r0 + Woken(s[..i], t[..i])
  }

  lemma SweepStarts(sleep: List, t: seq<int>, r0: seq<Node>)
    requires sleep.Valid() && |t| == |sleep.nodes| && Apart(sleep.nodes, r0)
    ensures SweepAt(sleep.nodes, t, 0, r0, sleep.nodes, r0)
    ensures sleep.first == if |sleep.nodes| == 0 then null else sleep.nodes[0]
  {
    hide Apart, Distinct, LinkedAt;
    NothingSwept(sleep.nodes, t, r0);
  }

  lemma NothingSwept(s: seq<Node>, t: seq<int>, r0: seq<Node>)
    requires |t| == |s| && Distinct(s) && Apart(s, r0)
    ensures SweepAt(s, t, 0, r0, s, r0)
  {
    hide Apart, Distinct;
    assert s[..0] == [] && t[..0] == [] && s[0..] == s;
  }

  lemma SweepEnds(s: seq<Node>, t: seq<int>, r0: seq<Node>, now: seq<Node>, r: seq<Node>)
    requires SweepAt(s, t, |s|, r0, now, r)
    ensures now == StillAsleep(s, t) && r == r0 + Woken(s, t)
  {
    assert s[..|s|] == s && t[..|t|] == t;
  }

  /** The walk stands at element `i` of the original list. */
  lemma SweepPlace(s: seq<Node>, t: seq<int>, i: nat, r0: seq<Node>, now: seq<Node>, r: seq<Node>, all: set<Node>)
    requires SweepAt(s, t, i, r0, now, r) && i < |s| && Holds(all, s) && Holds(all, r0)
    ensures var k := |StillAsleep(s[..i], t[..i])|;
      k < |now| && now[k] == s[i] && After(now, k) == (if i + 1 == |s| then null else s[i + 1])
    ensures Apart(now, r) && Holds(all, now) && Holds(all, r)
    ensures forall k :: 0 <= k < |s| && k != i ==> s[k] != s[i]
  {
    forall n | n in now ensures n in s && n !in r {
      SweepMembers(s[..i], t[..i], n);
      SweepApart(s, t, i, n);
    }
    forall n | n in r ensures n in s || n in r0 {
      SweepApart(s, t, i, n);
    }
    assert forall n :: n in s || n in r0 ==> n in all;
    forall j | 0 <= j < |now| ensures now[j] in all { assert now[j] in now; }
    forall j | 0 <= j < |r| ensures r[j] in all { assert r[j] in r; }
  }

  lemma SweepStep(s: seq<Node>, t: seq<int>, i: nat, r0: seq<Node>, now: seq<Node>, r: seq<Node>, now': seq<Node>,
                  r': seq<Node>)
    requires SweepAt(s, t, i, r0, now, r) && i < |s|
    requires var k := |StillAsleep(s[..i], t[..i])|;
      && k < |now| && now' == (if t[i] == 1 then Without(now, k) else now)
    requires r' == if t[i] == 1 then r + [s[i]] else r
    ensures SweepAt(s, t, i + 1, r0, now', r')
  {
    hide Apart, Distinct, StillAsleep, Woken, Without;
    TakeOne(s, t, i);
    SweepAdvance(s, t, i);
    if t[i] == 1 {
      assert now' == StillAsleep(s[..i + 1], t[..i + 1]) + s[i + 1..];
      assert r' == r0 + Woken(s[..i + 1], t[..i + 1]);
    } else {
      assert now' == StillAsleep(s[..i + 1], t[..i + 1]) + s[i + 1..];
    }
  }

  lemma {:induction false} SweepApart(s: seq<Node>, t: seq<int>, i: nat, n: Node)
    requires |s| == |t| && i <= |s| && Distinct(s)
    ensures n in Woken(s[..i], t[..i]) ==> n in s[..i] && n !in s[i..] && n !in StillAsleep(s[..i], t[..i])
  {
    if i > 0 {
      TakeOne(s, t, i - 1);
      SweepApart(s, t, i - 1, n);
      SweepMembers(s[..i - 1], t[..i - 1], n);
    }
  }

  lemma SweepAdvance(s: seq<Node>, t: seq<int>, i: nat)
    requires |s| == |t| && i < |s|
    ensures var a := StillAsleep(s[..i], t[..i]);
      && Without(a + s[i..], |a|) == a + s[i + 1..]
      && a + s[i..] == a + [s[i]] + s[i + 1..]
  {
  }
}
