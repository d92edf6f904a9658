/** Freeing and allocating cluster chains through the cached table. */
module FatAlloc {
  import opened FatLayout
  import opened FatChain
  import opened FatDisk

  ghost function Numbers(n: nat): (s: set<int>)
    ensures forall c :: c in s <==> 0 <= c < n
  {
    if n == 0 then {} else Numbers(n - 1) + {n - 1}
  }

  /** State of the freeing loop after `n` steps from `start`: the clusters of
      `freed` are cleared, and following the original table from them stays in
      `freed` or leads to the cluster about to be visited. */
  ghost predicate FreeingFrom(t0: seq<nat>, start: int, t: seq<nat>, freed: set<int>, n: nat, curr: int) {
    var w := Walk(t0, start, n);
    && |t| == |t0|
    && (forall c :: 0 <= c < |t0| ==> t[c] == if c in freed then CLUSTER_FREE else t0[c])
    && (forall c :: c in freed ==> Reaches(t0, start, c))
    && (curr == w || (w in freed && curr == CLUSTER_FREE))
    && (start in freed || !InTable(t0, start) || n == 0)
    && (forall c :: c in freed ==> var x := Next(t0, c); x in freed || x == w || !InTable(t0, x))
  }

  ghost predicate FirstVisit(t0: seq<nat>, freed: set<int>, curr: int) {
    InTable(t0, curr) && curr !in freed
  }

  /** One round: a first visit frees `curr`; a revisit or a number outside the table ends the walk. */
  lemma FreeingStep(t0: seq<nat>, start: int, t: seq<nat>, freed: set<int>, n: nat, curr: int)
    requires FreeingFrom(t0, start, t, freed, n, curr) && ClusterIsValid(curr)
    ensures FirstVisit(t0, freed, curr) ==>
      FreeingFrom(t0, start, t[curr := CLUSTER_FREE], freed + {curr}, n + 1, Next(t, curr))
    ensures InTable(t0, curr) && curr in freed ==>
      && t[curr := CLUSTER_FREE] == t && FreeingFrom(t0, start, t, freed, n, Next(t, curr))
      && Next(t, curr) == CLUSTER_FREE
    ensures !InTable(t0, curr) ==>
        FreeingFrom(t0, start, t, freed, n + 1, Next(t, curr)) && Next(t, curr) == CLUSTER_INVALID
  {
    assert Walk(t0, start, n + 1) == Next(t0, Walk(t0, start, n));
    if FirstVisit(t0, freed, curr) { assert Reaches(t0, start, curr); }
  }

  /** When the loop stops it has cleared exactly what the original table reaches from `start`. */
  lemma FreeingDone(t0: seq<nat>, start: int, t: seq<nat>, freed: set<int>, n: nat, curr: int)
    requires FreeingFrom(t0, start, t, freed, n, curr) && !ClusterIsValid(curr)
    ensures Freed(t0, start, t)
  {
    forall c | 0 <= c < |t0| && Reaches(t0, start, c) ensures c in freed {
      var k: nat :| Walk(t0, start, k) == c;
      ClosedHoldsWalk(t0, start, freed, k);
    }
  }

  /** A set closed under `Next` that holds `s` holds every cluster reachable from `s`. */
  lemma {:induction false} ClosedHoldsWalk(t: seq<nat>, s: int, f: set<int>, k: nat)
    requires s in f || !InTable(t, s)
    requires forall c :: c in f ==> Next(t, c) in f || !InTable(t, Next(t, c))
    ensures Walk(t, s, k) in f || !InTable(t, Walk(t, s, k))
  {
    if k > 0 { ClosedHoldsWalk(t, s, f, k - 1); }
  }

  /** Terminates on every table, cyclic ones included: each round either frees a
      cluster for the first time or meets an entry it has already cleared. */
  method ClusterFreeChain(fat: Fat, start: nat)
    requires fat.Valid()
    modifies fat`disk, fat`currSector, fat.buffer
    ensures fat.Valid() && fat.KeepsMirror()
    ensures Freed(old(fat.Vol().tbl), start, fat.Vol().tbl)
    ensures fat.Vol() == old(fat.Vol()).(tbl := fat.Vol().tbl)
  {
    hide VolOf, Mirrored, Fits, Freed, Linked, Fat.CacheAgrees;
    ghost var v0 := fat.Vol();
    ghost var t0 := v0.tbl;
    ghost var freed: set<int> := {};
    ghost var n: nat := 0;
    var curr := start;
    while ClusterIsValid(curr)
      invariant fat.Valid() && fat.KeepsMirror()
      invariant fat.Vol() == v0.(tbl := fat.Vol().tbl)
      invariant FreeingFrom(t0, start, fat.Vol().tbl, freed, n, curr)
      decreases Numbers(|t0|) - freed, if ClusterIsValid(curr) then 1 else 0
    {
      ghost var t := fat.Vol().tbl;
      var next := fat.ClusterGetNext(curr);
      var err := fat.ClusterSetNext(curr, CLUSTER_FREE);
      FreeingStep(t0, start, t, freed, n, curr);
      if FirstVisit(t0, freed, curr) {
        freed, n := freed + {curr}, n + 1;
      } else if !InTable(t0, curr) {
        n := n + 1;
      }
      curr := next;
    }
    FreeingDone(t0, start, fat.Vol().tbl, freed, n, curr);
  }

  /** State of the allocation scan: `ch` holds the free clusters below `curr`,
      already linked; `pre` and `start` are its ends. */
  ghost predicate Scanning(t0: seq<nat>, t: seq<nat>, ch: seq<nat>, curr: nat, pre: nat, start: nat) {
    && ch == FreeBelow(t0, curr)
    && Linked(t0, ch, CLUSTER_FREE, t)
    && (if ch == [] then start == pre == CLUSTER_INVALID else start == ch[0] && pre == ch[|ch| - 1])
  }

  lemma ScanStarts(t0: seq<nat>)
    ensures Scanning(t0, t0, [], 2, CLUSTER_INVALID, CLUSTER_INVALID)
  {
    assert FreeBelow(t0, 1) == [];
  }

  /** Both ends of the chain being built are in the table, or there is no chain yet. */
  lemma ScanEnds(t0: seq<nat>, t: seq<nat>, ch: seq<nat>, curr: nat, pre: nat, start: nat)
    requires Scanning(t0, t, ch, curr, pre, start)
    ensures |t| == |t0|
    ensures if ch == [] then !ClusterIsValid(pre) && !ClusterIsValid(start)
            else InTable(t, pre) && ClusterIsValid(start)
  {
    FreeBelowSorted(t0, curr);
    if ch != [] {
      assert ch[0] in ch && ch[|ch| - 1] in ch;
    }
  }

  lemma ScanSkips(t0: seq<nat>, t: seq<nat>, ch: seq<nat>, curr: nat, pre: nat, start: nat)
    requires Scanning(t0, t, ch, curr, pre, start) && 2 <= curr < |t0| <= CLUSTER_INVALID
    ensures curr < |t|
    ensures t[curr] == CLUSTER_FREE ==> IsFree(t0, curr)
    ensures t[curr] != CLUSTER_FREE ==> Scanning(t0, t, ch, curr + 1, pre, start)
  {
    FreeBelowSorted(t0, curr);
    assert curr !in ch;
    assert t[curr] == t0[curr];
  }

  lemma ScanTakes(t0: seq<nat>, t: seq<nat>, ch: seq<nat>, curr: nat, pre: nat, start: nat)
    requires Scanning(t0, t, ch, curr, pre, start) && IsFree(t0, curr)
    ensures ch != [] ==> 0 <= pre < |t|
    ensures Scanning(t0, if ch == [] then t else t[pre := curr], ch + [curr], curr + 1, curr,
                     if ch == [] then curr else start)
  {
    LinkOneMore(t0, ch, t, curr);
  }

  lemma LowestFree(t0: seq<nat>, ch: seq<nat>, curr: nat)
    requires ch == FreeBelow(t0, curr) && curr <= |t0|
    ensures |ch| <= |FreeClusters(t0)| && ch == FreeClusters(t0)[..|ch|]
    ensures ch != [] ==> ch[0] == FreeClusters(t0)[0]
  {
    FreeBelowPrefix(t0, curr, |t0|);
  }

  lemma LastMarked(t: seq<nat>, ch: seq<nat>, t1: seq<nat>)
    requires Linked(t, ch, CLUSTER_FREE, t1) && ch != []
    requires forall i, j :: 0 <= i < j < |ch| ==> ch[i] < ch[j]
    ensures Linked(t, ch, CLUSTER_INVALID, t1[ch[|ch| - 1] := CLUSTER_INVALID])
  {
    forall k | 0 <= k < |ch| - 1 ensures ch[k] != ch[|ch| - 1] { assert ch[k] < ch[|ch| - 1]; }
  }

  /** Once `cnt` clusters are linked, marking the last one completes the allocation. */
  lemma ScanFills(t0: seq<nat>, t: seq<nat>, ch: seq<nat>, curr: nat, pre: nat, start: nat, cnt: nat)
    requires Scanning(t0, t, ch, curr, pre, start) && curr <= |t0|
    requires |ch| == cnt && cnt > 0
    ensures InTable(t, pre) && Allocated(t0, cnt, start, t[pre := CLUSTER_INVALID])
  {
    hide Linked, FreeBelow;
    ScanEnds(t0, t, ch, curr, pre, start);
    LowestFree(t0, ch, curr);
    FreeBelowSorted(t0, curr);
    LastMarked(t0, ch, t);
  }

  /** A scan that ends short rolls back to the table it started from. */
  lemma ScanFails(t0: seq<nat>, t: seq<nat>, ch: seq<nat>, curr: nat, pre: nat, start: nat, cnt: nat, t2: seq<nat>)
    requires Scanning(t0, t, ch, curr, pre, start) && Freed(t, start, t2)
    requires (cnt == 0 && |ch| == 0) || (curr == |t0| && |ch| < cnt)
    ensures Allocated(t0, cnt, CLUSTER_INVALID, t2)
  {
    FreeBelowSorted(t0, curr);
    forall k | 0 <= k < |ch| ensures IsFree(t0, ch[k]) { assert ch[k] in ch; }
    FreeUndoesLink(t0, ch, start, t, t2);
  }

  lemma TotalIsTable(d: seq<Sector>, g: Geometry)
    requires Fits(d, g)
    ensures 256 <= |VolOf(d, g).tbl| == g.tblSectors * SECTOR_SIZE / 2 <= 65280
  {
  }

  method ClusterAllocFree(fat: Fat, cnt: nat) returns (r: nat)
    requires fat.Valid()
    modifies fat`disk, fat`currSector, fat.buffer
    ensures fat.Valid() && fat.KeepsMirror()
    ensures Allocated(old(fat.Vol().tbl), cnt, r, fat.Vol().tbl)
    ensures fat.Vol() == old(fat.Vol()).(tbl := fat.Vol().tbl)
  {
    hide VolOf, Mirrored, Fits, Freed, Linked, Scanning, Allocated, FreeBelow, IsFree, Fat.CacheAgrees;
    ghost var v0 := fat.Vol();
    ghost var t0 := v0.tbl;
    ghost var ch: seq<nat> := [];
    var total := fat.g.tblSectors * SECTOR_SIZE / 2;
    var left := cnt;
    var pre: nat, start: nat := CLUSTER_INVALID, CLUSTER_INVALID;
    var curr := 2;
    ScanStarts(t0);
    TotalIsTable(fat.disk, fat.g);
    while curr < total && left != 0
      invariant 2 <= curr <= total == |t0| && 0 <= left <= cnt && |ch| == cnt - left
      invariant fat.Valid() && fat.KeepsMirror()
      invariant fat.Vol() == v0.(tbl := fat.Vol().tbl)
      invariant Scanning(t0, fat.Vol().tbl, ch, curr, pre, start)
    {
      ghost var t := fat.Vol().tbl;
      ScanEnds(t0, t, ch, curr, pre, start);
      ScanSkips(t0, t, ch, curr, pre, start);
      var free := fat.ClusterGetNext(curr);
      if free == CLUSTER_FREE {
        ScanTakes(t0, t, ch, curr, pre, start);
        if !ClusterIsValid(start) {
          start := curr;
        }
        if ClusterIsValid(pre) {
          var err := fat.ClusterSetNext(pre, curr);
          assert err == 0;  // so the roll-back at this point is never taken
        }
        assert fat.Vol().tbl == if ch == [] then t else t[pre := curr];
        pre := curr;
        left := left - 1;
        ch := ch + [curr];
      }
      curr := curr + 1;
    }
    ghost var t1 := fat.Vol().tbl;
    ScanEnds(t0, t1, ch, curr, pre, start);
    if left == 0 {
      if cnt > 0 { ScanFills(t0, t1, ch, curr, pre, start, cnt); }
      var err := fat.ClusterSetNext(pre, CLUSTER_INVALID);
      if err == 0 {
        return start;
      }
    }
    ClusterFreeChain(fat, start);
    ScanFails(t0, t1, ch, curr, pre, start, cnt, fat.Vol().tbl);
    return CLUSTER_INVALID;
  }
}
