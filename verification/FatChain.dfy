/** Cluster chains in an allocation table, independent of how the table is stored. */
module FatChain {
  import opened FatLayout

  /** What `cluster_get_next` answers on a table. */
  function Next(t: seq<nat>, c: int): nat {
    if ClusterIsValid(c) && c < |t| then t[c] else CLUSTER_INVALID
  }

  /** The cluster reached from `s` after `k` table lookups. */
  function Walk(t: seq<nat>, s: int, k: nat): int {
    if k == 0 then s else Next(t, Walk(t, s, k - 1))
  }

  predicate InTable(t: seq<nat>, c: int) {
    ClusterIsValid(c) && c < |t|
  }

  /** `c` is an in-table cluster met when following the table from `s`. */
  ghost predicate Reaches(t: seq<nat>, s: int, c: int) {
    InTable(t, c) && exists k: nat :: Walk(t, s, k) == c
  }

  /** `ch` is linked by the table and following it stops after its last cluster. */
  ghost predicate IsPath(t: seq<nat>, ch: seq<nat>) {
    && (forall k :: 0 <= k < |ch| ==> InTable(t, ch[k]))
    && (forall k :: 0 <= k < |ch| - 1 ==> t[ch[k]] == ch[k + 1])
    && (ch != [] ==> !ClusterIsValid(t[ch[|ch| - 1]]))
  }

  /** A path whose last entry is an end-of-chain mark; none of its clusters is free. */
  ghost predicate IsChain(t: seq<nat>, ch: seq<nat>) {
    IsPath(t, ch) && (ch != [] ==> t[ch[|ch| - 1]] >= CLUSTER_INVALID)
  }

  ghost predicate PathFrom(t: seq<nat>, s: int, ch: seq<nat>) {
    && IsPath(t, ch)
    && (if ch == [] then !ClusterIsValid(s) else s == ch[0])
  }

  /** The chain of a file whose directory entry names first cluster `s`. */
  ghost predicate ChainFrom(t: seq<nat>, s: int, ch: seq<nat>) {
    && IsChain(t, ch)
    && (if ch == [] then !ClusterIsValid(s) else s == ch[0])
  }

  lemma {:induction false} PathWalk(t: seq<nat>, s: int, ch: seq<nat>, k: nat)
    requires PathFrom(t, s, ch)
    ensures k < |ch| ==> Walk(t, s, k) == ch[k]
    ensures k >= |ch| ==> !ClusterIsValid(Walk(t, s, k))
  {
    if k > 0 { PathWalk(t, s, ch, k - 1); }
  }

  lemma {:induction false} WalkAdd(t: seq<nat>, s: int, i: nat, j: nat)
    ensures Walk(t, s, i + j) == Walk(t, Walk(t, s, i), j)
  {
    if j > 0 { WalkAdd(t, s, i, j - 1); }
  }

  /** A terminated chain visits no cluster twice. */
  lemma {:induction false} PathDistinct(t: seq<nat>, ch: seq<nat>, i: nat, j: nat)
    requires IsPath(t, ch) && i < j < |ch|
    ensures ch[i] != ch[j]
  {
    if ch[i] == ch[j] {
      // The suffixes from i and from j agree, yet the one from j ends first.
      var n := |ch| - j;
      PathWalk(t, ch[0], ch, |ch|);
      PathWalk(t, ch[0], ch, i);
      PathWalk(t, ch[0], ch, j);
      PathWalk(t, ch[0], ch, i + n);
      WalkAdd(t, ch[0], i, n);
      WalkAdd(t, ch[0], j, n);
      assert false;
    }
  }

  /** Reachability along a chain is membership. */
  lemma ReachesPath(t: seq<nat>, s: int, ch: seq<nat>, c: int)
    requires PathFrom(t, s, ch)
    ensures Reaches(t, s, c) <==> c in ch
  {
    if Reaches(t, s, c) {
      var k: nat :| Walk(t, s, k) == c;
      PathWalk(t, s, ch, k);
    }
    if c in ch {
      var k :| 0 <= k < |ch| && ch[k] == c;
      PathWalk(t, s, ch, k);
    }
  }

  lemma {:induction false} PathUnique(t: seq<nat>, s: int, a: seq<nat>, b: seq<nat>)
    requires PathFrom(t, s, a) && PathFrom(t, s, b)
    ensures a == b
  {
    PathWalk(t, s, a, |a|); PathWalk(t, s, b, |a|);
    PathWalk(t, s, a, |b|); PathWalk(t, s, b, |b|);
    forall k | 0 <= k < |a| && k < |b| ensures a[k] == b[k] {
      PathWalk(t, s, a, k); PathWalk(t, s, b, k);
    }
  }

  /** A chain depends only on its own entries. */
  lemma ChainFrame(t: seq<nat>, t': seq<nat>, s: int, ch: seq<nat>)
    requires ChainFrom(t, s, ch) && |t'| == |t|
    requires forall c :: c in ch ==> c < |t'| && t'[c] == t[c]
    ensures ChainFrom(t', s, ch)
  {
    forall k | 0 <= k < |ch| ensures InTable(t', ch[k]) && t'[ch[k]] == t[ch[k]] {
      assert ch[k] in ch;
    }
  }

  /** The first cluster of a file is valid exactly when its chain is not empty. */
  lemma ChainHead(t: seq<nat>, s: int, ch: seq<nat>)
    requires ChainFrom(t, s, ch)
    ensures ClusterIsValid(s) <==> ch != []
  {
  }

  /** No cluster of a chain is marked free. */
  lemma ChainNotFree(t: seq<nat>, ch: seq<nat>)
    requires IsChain(t, ch)
    ensures forall c :: c in ch ==> !IsFree(t, c)
  {
    forall c | c in ch ensures t[c] != CLUSTER_FREE {
      var i :| 0 <= i < |ch| && ch[i] == c;
      assert i < |ch| - 1 ==> t[c] == ch[i + 1];
    }
  }

  // ----- freeing -----

  /** What `cluster_free_chain(start)` makes of table `t`. */
  ghost predicate Freed(t: seq<nat>, start: int, t': seq<nat>) {
    && |t'| == |t|
    && forall c :: 0 <= c < |t| ==> t'[c] == if Reaches(t, start, c) then CLUSTER_FREE else t[c]
  }

  // ----- allocation -----

  predicate IsFree(t: seq<nat>, c: int) {
    InTable(t, c) && t[c] == CLUSTER_FREE
  }

  /** The free clusters numbered below `hi`, in ascending order. */
  function FreeBelow(t: seq<nat>, hi: nat): seq<nat> {
    if hi == 0 then []
    else FreeBelow(t, hi - 1) + (if IsFree(t, hi - 1) then [hi - 1] else [])
  }

  lemma {:induction false} FreeBelowSorted(t: seq<nat>, hi: nat)
    ensures forall c :: c in FreeBelow(t, hi) <==> IsFree(t, c) && 0 <= c < hi
    ensures forall i, j :: 0 <= i < j < |FreeBelow(t, hi)| ==> FreeBelow(t, hi)[i] < FreeBelow(t, hi)[j]
  {
    if hi > 0 {
      FreeBelowSorted(t, hi - 1);
      var f := FreeBelow(t, hi - 1);
      forall i | 0 <= i < |f| ensures f[i] < hi - 1 { assert f[i] in f; }
    }
  }

  function FreeClusters(t: seq<nat>): seq<nat> {
    FreeBelow(t, |t|)
  }

  lemma {:induction false} FreeBelowPrefix(t: seq<nat>, lo: nat, hi: nat)
    requires lo <= hi
    ensures FreeBelow(t, lo) <= FreeBelow(t, hi)
    decreases hi
  {
    if lo < hi { FreeBelowPrefix(t, lo, hi - 1); }
  }

  /** Table `t` with the clusters of `ch` linked in order and the last one marked `end`. */
  ghost predicate Linked(t: seq<nat>, ch: seq<nat>, end: nat, t': seq<nat>) {
    && |t'| == |t|
    && (forall c :: 0 <= c < |t| && c !in ch ==> t'[c] == t[c])
    && (forall k :: 0 <= k < |ch| ==> ch[k] < |t|)
    && (forall k :: 0 <= k < |ch| - 1 ==> t'[ch[k]] == ch[k + 1])
    && (ch != [] ==> t'[ch[|ch| - 1]] == end)
  }

  /** What `cluster_alloc_free(cnt)` answers and makes of table `t`. */
  ghost predicate Allocated(t: seq<nat>, cnt: nat, start: nat, t': seq<nat>) {
    var free := FreeClusters(t);
    if 1 <= cnt <= |free|
    then start == free[0] && Linked(t, free[..cnt], CLUSTER_INVALID, t')
    else start == CLUSTER_INVALID && t' == t
  }

  /** A successful allocation is a chain of the lowest free clusters in ascending order. */
  lemma AllocatedChain(t: seq<nat>, cnt: nat, start: nat, t': seq<nat>)
    requires Allocated(t, cnt, start, t') && 1 <= cnt <= |FreeClusters(t)|
    ensures var ch := FreeClusters(t)[..cnt];
      && |t'| == |t| && |ch| == cnt && ChainFrom(t', start, ch) && t'[ch[cnt - 1]] == CLUSTER_INVALID
      && (forall c :: c in ch ==> IsFree(t, c))
      && (forall i, j :: 0 <= i < j < cnt ==> ch[i] < ch[j])
      && (forall c :: IsFree(t, c) && c !in ch ==> c > ch[cnt - 1])
      && (forall c :: 0 <= c < |t| && c !in ch ==> t'[c] == t[c])
  {
    var free := FreeClusters(t);
    var ch := free[..cnt];
    FreeBelowSorted(t, |t|);
    forall k | 0 <= k < cnt ensures IsFree(t, ch[k]) && ch[k] == free[k] { assert free[k] in free; }
    forall k | 0 <= k < cnt ensures free[k] in ch { assert ch[k] == free[k]; }
    forall c | IsFree(t, c) && c !in ch ensures c > ch[cnt - 1] {
      assert c in free;
      var k :| 0 <= k < |free| && free[k] == c;
    }
  }

  /** Allocation of at least one cluster succeeds exactly when enough are free. */
  lemma AllocatedIff(t: seq<nat>, cnt: nat, start: nat, t': seq<nat>)
    requires Allocated(t, cnt, start, t') && cnt > 0
    ensures ClusterIsValid(start) <==> cnt <= |FreeClusters(t)|
    ensures !ClusterIsValid(start) ==> t' == t
  {
    if cnt <= |FreeClusters(t)| {
      FreeBelowSorted(t, |t|);
      assert FreeClusters(t)[0] in FreeClusters(t);
    }
  }

  /** Freeing a chain just allocated restores the table. */
  lemma FreeUndoesAlloc(t: seq<nat>, cnt: nat, start: nat, t1: seq<nat>, t2: seq<nat>)
    requires Allocated(t, cnt, start, t1) && Freed(t1, start, t2)
    ensures t2 == t
  {
    hide FreeBelow;
    if 1 <= cnt <= |FreeClusters(t)| {
      AllocatedChain(t, cnt, start, t1);
      var ch := FreeClusters(t)[..cnt];
      forall c | 0 <= c < |t| ensures t2[c] == t[c] {
        ReachesPath(t1, start, ch, c);
      }
    } else {
      forall c | 0 <= c < |t| ensures t2[c] == t[c] {
        ReachesPath(t1, start, [], c);
      }
    }
  }

  /** After truncation the chain is free and every disjoint chain is as it was. */
  lemma FreedKeepsOthers(t: seq<nat>, start: int, ch: seq<nat>, t': seq<nat>, s: int, other: seq<nat>)
    requires ChainFrom(t, start, ch) && Freed(t, start, t')
    requires ChainFrom(t, s, other) && forall c :: c in other ==> c !in ch
    ensures ChainFrom(t', s, other)
    ensures forall c :: c in ch ==> IsFree(t', c)
  {
    forall c | c in other ensures c < |t'| && t'[c] == t[c] {
      ReachesPath(t, start, ch, c);
      var k :| 0 <= k < |other| && other[k] == c;
    }
    ChainFrame(t, t', s, other);
    forall c | c in ch ensures IsFree(t', c) {
      ReachesPath(t, start, ch, c);
      var k :| 0 <= k < |ch| && ch[k] == c;
    }
  }

  /** Freeing a partly built chain (last entry still free) also restores the table. */
  lemma FreeUndoesLink(t: seq<nat>, ch: seq<nat>, start: nat, t1: seq<nat>, t2: seq<nat>)
    requires Linked(t, ch, CLUSTER_FREE, t1) && Freed(t1, start, t2)
    requires forall k :: 0 <= k < |ch| ==> IsFree(t, ch[k])
    requires if ch == [] then !ClusterIsValid(start) else start == ch[0]
    ensures t2 == t
  {
    forall c | 0 <= c < |t| ensures t2[c] == t[c] {
      ReachesPath(t1, start, ch, c);
    }
  }

  /** One step of the allocation scan: the free cluster `c` joins the chain being built. */
  lemma LinkOneMore(t: seq<nat>, ch: seq<nat>, t1: seq<nat>, c: nat)
    requires Linked(t, ch, CLUSTER_FREE, t1) && ch == FreeBelow(t, c) && IsFree(t, c)
    ensures Linked(t, ch + [c], CLUSTER_FREE, if ch == [] then t1 else t1[ch[|ch| - 1] := c])
  {
    var ch' := ch + [c];
    FreeBelowSorted(t, c);
    var t2 := if ch == [] then t1 else t1[ch[|ch| - 1] := c];
    assert c !in ch;
    forall k | 0 <= k < |ch'| - 1 ensures t2[ch'[k]] == ch'[k + 1] {
      if k < |ch| - 1 { assert ch[k] < ch[|ch| - 1]; }
    }
    assert t1[c] == t[c];
  }

  // ----- growing a chain -----

  /** Linking the allocated chain `more` behind element `i` of `ch` gives the chain
      `ch[..i+1] + more`; a tail of `ch` beyond `i` is dropped. */
  lemma LinkBehind(t: seq<nat>, s: int, ch: seq<nat>, i: nat, more: seq<nat>)
    requires ChainFrom(t, s, ch) && i < |ch|
    requires more != [] && IsChain(t, more)
    requires forall c :: c in more ==> c !in ch
    ensures ChainFrom(t[ch[i] := more[0]], s, ch[..i + 1] + more)
  {
    var t' := t[ch[i] := more[0]];
    var r := ch[..i + 1] + more;
    forall k | 0 <= k < |r| - 1 ensures t'[r[k]] == r[k + 1] {
      if k < i {
        PathDistinct(t, ch, k, i);
      } else if k > i {
        assert r[k] == more[k - i - 1] && r[k] in more;
        assert ch[i] in ch;
      }
    }
    assert r[|r| - 1] == more[|more| - 1] && r[|r| - 1] in more;
    assert ch[i] in ch;
  }
}
