/** Open files: where a file's bytes are, and what growing its chain does. */
module FatFile {
  import opened Bits
  import opened FatLayout
  import opened FatChain

  /** The parts of `file_t` that locate bytes. */
  datatype Handle = Handle(size: nat, pos: nat, sblk: nat, cblk: nat)

  /** Table and clusters have the shapes the geometry gives them. */
  ghost predicate VolOk(v: Vol, csz: nat) {
    && csz > 0 && 2 <= |v.data| <= |v.tbl|
    && (forall c :: 0 <= c < |v.tbl| ==> v.tbl[c] < 0x1_0000)
    && (forall c :: 2 <= c < |v.data| ==> |v.data[c]| == csz)
  }

  lemma VolOfOk(d: seq<Sector>, g: Geometry)
    requires Fits(d, g)
    ensures VolOk(VolOf(d, g), g.ClusterSize())
  {
  }

  /** Every cluster of `ch` exists; a table may have entries for more. */
  ghost predicate OnDisk(v: Vol, ch: seq<nat>) {
    forall k :: 0 <= k < |ch| ==> ch[k] < |v.data|
  }

  /** Free clusters that exist. */
  function Spare(v: Vol): nat {
    |FreeBelow(v.tbl, |v.data|)|
  }

  /** `ch` has room for `size` bytes. */
  ghost predicate Covers(v: Vol, csz: nat, ch: seq<nat>, size: nat) {
    && csz > 0 && size <= csz * |ch|
    && forall k :: 0 <= k < |ch| ==> ch[k] < |v.data| && |v.data[ch[k]]| == csz
  }

  lemma CoversIndex(size: nat, csz: nat, n: nat, p: nat)
    requires csz > 0 && size <= csz * n && p < size
    ensures p / csz < n && p % csz < csz
  {
    if p / csz >= n { MulMono(n, p / csz, csz); }
  }

  /** Byte `p` of a file stored along `ch`. */
  ghost function ByteAt(v: Vol, csz: nat, ch: seq<nat>, size: nat, p: nat): Byte
    requires Covers(v, csz, ch, size) && p < size
  {
    CoversIndex(size, csz, |ch|, p);
    v.data[ch[p / csz]][p % csz]
  }

  /** The first `size` bytes along the chain. */
  ghost function Content(v: Vol, csz: nat, ch: seq<nat>, size: nat): (r: seq<Byte>)
    requires Covers(v, csz, ch, size)
    ensures |r| == size
  {
    seq(size, p requires 0 <= p < size => ByteAt(v, csz, ch, size, p))
  }

  /** A file that can be read: its chain covers its size and `cblk` is where
      `pos / csz` lookups from `sblk` lead. */
  ghost predicate Readable(v: Vol, csz: nat, h: Handle, ch: seq<nat>) {
    && VolOk(v, csz)
    && ChainFrom(v.tbl, h.sblk, ch) && OnDisk(v, ch) && h.sblk < 0x1_0000
    && h.size <= csz * |ch|
    && h.pos <= h.size
    && h.cblk == Walk(v.tbl, h.sblk, h.pos / csz)
  }

  /** A file positioned at its end. */
  ghost predicate AtEnd(v: Vol, csz: nat, h: Handle, ch: seq<nat>) {
    Readable(v, csz, h, ch) && h.pos == h.size
  }

  /** ... where the cluster that takes the next byte exists, unless there is no chain yet. */
  ghost predicate Appendable(v: Vol, csz: nat, h: Handle, ch: seq<nat>) {
    AtEnd(v, csz, h, ch) && (ch != [] ==> h.size / csz < |ch|)
  }

  /** What the caller sees of it: no first cluster yet, or a current cluster. A file that
      exactly fills its chain and was read to its end has neither. */
  lemma AppendableIff(v: Vol, csz: nat, h: Handle, ch: seq<nat>)
    requires AtEnd(v, csz, h, ch)
    ensures Appendable(v, csz, h, ch) <==> !ClusterIsValid(h.sblk) || ClusterIsValid(h.cblk)
    ensures ClusterIsValid(h.cblk) ==> InTable(v.tbl, h.cblk)
  {
    hide Walk;
    PathWalk(v.tbl, h.sblk, ch, h.size / csz);
    if h.size / csz < |ch| { ChainInTable(v.tbl, ch, h.size / csz); }
  }

  lemma ReadableCovers(v: Vol, csz: nat, h: Handle, ch: seq<nat>)
    requires VolOk(v, csz) && ChainFrom(v.tbl, h.sblk, ch) && OnDisk(v, ch) && h.size <= csz * |ch|
    ensures Covers(v, csz, ch, h.size)
  {
  }

  // ----- arithmetic of positions -----

  /** Moving by `m` within a cluster, at most to its end. */
  lemma MovePos(p: nat, m: nat, csz: nat)
    requires csz > 0 && p % csz + m <= csz
    ensures p % csz + m < csz ==> (p + m) / csz == p / csz && (p + m) % csz == p % csz + m
    ensures p % csz + m == csz ==> (p + m) / csz == p / csz + 1 && (p + m) % csz == 0
  {
    var q, r := p / csz, p % csz;
    assert p == q * csz + r;
    if r + m < csz { ModUnique(p + m, csz, q, r + m); } else {
      assert (q + 1) * csz == q * csz + csz;
      ModUnique(p + m, csz, q + 1, 0);
    }
  }

  lemma ClusterSizePow2(g: Geometry) returns (k: nat)
    requires g.Ok()
    ensures 9 <= k <= 12 && g.ClusterSize() == Pow2(k)
  {
    assert Pow2(9) == 512 by { assert Pow2(5) == 32; }
    var s := g.secPerCluster;
    k := if s == 1 then 9 else if s == 2 then 10 else if s == 4 then 11 else 12;
  }

  /** Whole clusters that hold `inc` bytes. */
  function ClustersFor(inc: nat, csz: nat): (n: nat)
    requires 0 < csz < TWO32
  {
    QuotientNat(Up2(inc, csz), csz);
    Up2(inc, csz) / csz
  }

  lemma ClustersForCeil(inc: nat, csz: nat, k: nat)
    requires k < 32 && csz == Pow2(k) && inc + csz < TWO32
    ensures csz < TWO32 && inc <= csz * ClustersFor(inc, csz) < inc + csz
  {
    Up2Rounds(inc, k);
    CeilCovers(inc, csz);
  }

  /** Clusters `expand_file` asks for when a file of `size` bytes grows by `inc` (fatfs.c:185-201). */
  function ExpandCount(size: nat, inc: nat, csz: nat): nat
    requires 0 < csz < TWO32
  {
    if size == 0 || size % csz == 0 then ClustersFor(inc, csz)
    else
      var cfree := csz - size % csz;
      if cfree > inc then 0
      else
        var n := ClustersFor(inc - cfree, csz);
        if n == 0 then 1 else n
  }

  /** How many clusters lie before the ones `expand_file` adds. */
  function Base(size: nat, csz: nat, empty: bool): nat
    requires csz > 0
  {
    if empty then 0 else size / csz + 1
  }

  lemma CeilCovers(n: nat, m: nat)
    requires m > 0
    ensures n <= m * ((n + m - 1) / m) < n + m
  {
    var s := n + m - 1;
    assert s == m * (s / m) + s % m;
  }

  /** The clusters asked for make room for the new bytes. */
  lemma ExpandCovers(size: nat, inc: nat, csz: nat, k: nat, empty: bool)
    requires k < 32 && csz == Pow2(k) && inc + csz < TWO32
    requires empty ==> size == 0
    ensures csz < TWO32
    ensures size + inc <= csz * (Base(size, csz, empty) + ExpandCount(size, inc, csz))
    ensures ExpandCount(size, inc, csz) > 0 || inc == 0 || (size % csz + inc < csz && !empty)
  {
    hide ClustersFor, Pow2;
    ClustersForCeil(inc, csz, k);
    var q, r := size / csz, size % csz;
    var n := ExpandCount(size, inc, csz);
    assert size == csz * q + r;
    assert csz * (q + 1 + n) == csz * q + csz + csz * n;
    if size != 0 && r != 0 {
      var cfree := csz - r;
      if cfree <= inc {
        ClustersForCeil(inc - cfree, csz, k);
      } else {
        assert csz * n == 0;
      }
    }
  }

  /** `n` is the least number of clusters that hold `bytes` bytes. */
  predicate Least(n: int, bytes: nat, csz: nat) {
    bytes <= csz * n < bytes + csz
  }

  lemma LeastUnique(a: int, b: int, bytes: nat, csz: nat)
    requires csz > 0 && Least(a, bytes, csz) && Least(b, bytes, csz)
    ensures a == b
  {
    if a < b { MulMono(a + 1, b, csz); } else if b < a { MulMono(b + 1, a, csz); }
  }

  /** What is asked for when the growth reaches the end of the last cluster, `e` bytes before the
      new end. */
  lemma ExpandBeyond(size: nat, inc: nat, csz: nat, k: nat, e: nat)
    requires k < 32 && csz == Pow2(k) && inc + csz < TWO32
    requires size % csz != 0 && e == size % csz + inc - csz
    ensures csz < TWO32 && (e > 0 ==> Least(ExpandCount(size, inc, csz), e, csz))
    ensures e == 0 ==> ExpandCount(size, inc, csz) == 1
  {
    hide ClustersFor, Pow2, ExpandCount;
    ClustersForCeil(e, csz, k);
    ExpandPast(size, inc, csz, e);
    if e == 0 { LeastUnique(0, ClustersFor(0, csz), 0, csz); }
  }

  lemma ExpandPast(size: nat, inc: nat, csz: nat, e: nat)
    requires 0 < csz < TWO32 && size % csz != 0 && e == size % csz + inc - csz
    ensures ExpandCount(size, inc, csz) == if ClustersFor(e, csz) == 0 then 1 else ClustersFor(e, csz)
  {
    hide ClustersFor;
  }

  /** An expansion asks for exactly the clusters that the longer file needs more than the file
      has, and for one more only when the growth just fills the last cluster. */
  lemma ExpandExact(size: nat, inc: nat, csz: nat, k: nat, has: int, needs: int)
    requires k < 32 && csz == Pow2(k) && inc + csz < TWO32
    requires Least(has, size, csz) && Least(needs, size + inc, csz)
    ensures csz < TWO32
    ensures ExpandCount(size, inc, csz) == needs - has + if size % csz != 0 && size % csz + inc == csz then 1 else 0
  {
    hide ClustersFor, Pow2, ExpandCount;
    ClustersForCeil(inc, csz, k);
    var q, r := size / csz, size % csz;
    var n := ExpandCount(size, inc, csz);
    assert size == csz * q + r;
    assert csz * (q + n) == csz * q + csz * n && csz * (q + 1) == csz * q + csz;
    assert csz * (q + 1 + n) == csz * (q + 1) + csz * n;
    if r == 0 {
      ExpandWhole(size, inc, csz);
      LeastUnique(has, q, size, csz);
      LeastUnique(needs, q + n, size + inc, csz);
    } else {
      LeastUnique(has, q + 1, size, csz);
      if r + inc < csz {
        ExpandWithin(size, inc, csz);
        LeastUnique(needs, q + 1, size + inc, csz);
      } else {
        ExpandBeyond(size, inc, csz, k, r + inc - csz);
        LeastUnique(needs, if r + inc == csz then q + 1 else q + 1 + n, size + inc, csz);
      }
    }
  }

  lemma ExpandWhole(size: nat, inc: nat, csz: nat)
    requires 0 < csz < TWO32 && size % csz == 0
    ensures ExpandCount(size, inc, csz) == ClustersFor(inc, csz)
  {
    hide ClustersFor;
  }

  lemma ExpandWithin(size: nat, inc: nat, csz: nat)
    requires 0 < csz < TWO32 && size % csz != 0 && size % csz + inc < csz
    ensures ExpandCount(size, inc, csz) == 0
  {
    hide ClustersFor;
  }

  /** Clusters one `fatfs_write` of `n` bytes takes from a file whose chain has `len` clusters:
      those of the first expansion, and one more when it ends exactly at the end of the chain. */
  function WriteNeeds(size: nat, n: nat, csz: nat, len: nat): nat
    requires 0 < csz < TWO32
  {
    var k := ExpandCount(size, n, csz);
    k + (if AtBoundary(size, n, csz, len) then 1 else 0)
  }

  /** Length of the chain after the first expansion. */
  function ExpandedLen(size: nat, n: nat, csz: nat, len: nat): nat
    requires 0 < csz < TWO32
  {
    var k := ExpandCount(size, n, csz);
    if k == 0 then len else Base(size, csz, len == 0) + k
  }

  predicate AtBoundary(size: nat, n: nat, csz: nat, len: nat)
    requires 0 < csz < TWO32
  {
    n > 0 && csz * ExpandedLen(size, n, csz, len) == size + n
  }

  /** ... and after the whole write. */
  function WrittenLen(size: nat, n: nat, csz: nat, len: nat): nat
    requires 0 < csz < TWO32
  {
    ExpandedLen(size, n, csz, len) + (if AtBoundary(size, n, csz, len) then 1 else 0)
  }

  /** Clusters that a file of `size` bytes takes more by a write of `n` bytes, going by where it
      starts and ends. A file that ends inside a cluster has one cluster for each one it enters.
      One that ends between clusters already has an empty one, unless it has none at all. */
  function Taken(size: nat, n: nat, csz: nat, empty: bool): int
    requires csz > 0
  {
    if n == 0 then 0
    else if size % csz != 0 || empty then (size + n) / csz - size / csz + (if empty then 1 else 0)
    else (n + csz - 1) / csz
  }

  /** `WriteNeeds` and `WrittenLen` say just that. */
  lemma NeedsTaken(size: nat, n: nat, csz: nat, k: nat, len: nat)
    requires k < 32 && csz == Pow2(k) && n + csz < TWO32 && n > 0
    requires if len == 0 then size == 0 else size / csz < len
    ensures csz < TWO32 && WriteNeeds(size, n, csz, len) == Taken(size, n, csz, len == 0)
    ensures WrittenLen(size, n, csz, len)
         == if Taken(size, n, csz, len == 0) == 0 then len
            else Base(size, csz, len == 0) + Taken(size, n, csz, len == 0)
  {
    hide Pow2, ExpandCount, AtBoundary, Taken, ClustersFor;
    ClustersForCeil(n, csz, k);
    if len == 0 {
      EmptyTakes(n, csz, k);
    } else if size % csz == 0 {
      BetweenTakes(size, n, csz, k, len);
    } else if size % csz + n < csz {
      WithinTakes(size, n, csz, len);
    } else {
      BeyondTakes(size, n, csz, k, len);
    }
  }

  lemma EmptyTakes(n: nat, csz: nat, k: nat)
    requires k < 32 && csz == Pow2(k) && n + csz < TWO32 && n > 0
    ensures csz < TWO32 && ExpandCount(0, n, csz) > 0
    ensures Taken(0, n, csz, true) == ExpandCount(0, n, csz) + if AtBoundary(0, n, csz, 0) then 1 else 0
  {
    hide ClustersFor, Pow2, ExpandCount;
    ClustersForCeil(n, csz, k);
    ExpandWhole(0, n, csz);
    WholeClusters(n, csz, ExpandCount(0, n, csz));
  }

  lemma BetweenTakes(size: nat, n: nat, csz: nat, k: nat, len: nat)
    requires k < 32 && csz == Pow2(k) && n + csz < TWO32 && n > 0 && size % csz == 0 && len > 0
    ensures csz < TWO32 && ExpandCount(size, n, csz) > 0 && !AtBoundary(size, n, csz, len)
    ensures Taken(size, n, csz, false) == ExpandCount(size, n, csz)
  {
    hide ClustersFor, Pow2, ExpandCount;
    ClustersForCeil(n, csz, k);
    ExpandWhole(size, n, csz);
    var q, c := size / csz, ExpandCount(size, n, csz);
    CeilIs(n, csz, c);
    assert size == csz * q && csz * (q + 1 + c) == csz * q + csz + csz * c;
  }

  lemma WithinTakes(size: nat, n: nat, csz: nat, len: nat)
    requires 0 < csz < TWO32 && n > 0 && size % csz != 0 && size % csz + n < csz && len > 0
    ensures ExpandCount(size, n, csz) == 0 && !AtBoundary(size, n, csz, len) && Taken(size, n, csz, false) == 0
  {
    hide ClustersFor, ExpandCount;
    ExpandWithin(size, n, csz);
    MovePos(size, n, csz);
    if csz * len == size + n { ModUnique(csz * len, csz, len, 0); }
  }

  lemma BeyondTakes(size: nat, n: nat, csz: nat, k: nat, len: nat)
    requires k < 32 && csz == Pow2(k) && n + csz < TWO32
    requires size % csz != 0 && size % csz + n >= csz && len > 0
    ensures csz < TWO32 && ExpandCount(size, n, csz) > 0
    ensures Taken(size, n, csz, false) == ExpandCount(size, n, csz) + if AtBoundary(size, n, csz, len) then 1 else 0
  {
    hide ClustersFor, Pow2, ExpandCount;
    var e, c := size % csz + n - csz, ExpandCount(size, n, csz);
    ExpandBeyond(size, n, csz, k, e);
    BeyondEnd(size, n, csz, e);
    BeyondFull(size, n, csz, e, c);
    if e > 0 { WholeClusters(e, csz, c); } else { QuotientNat(0, csz); }
  }

  /** Where the new end lies, `e` bytes behind the last cluster. */
  lemma BeyondEnd(size: nat, n: nat, csz: nat, e: nat)
    requires csz > 0 && e == size % csz + n - csz
    ensures (size + n) / csz == size / csz + 1 + e / csz
  {
    var q := size / csz;
    assert size == csz * q + size % csz && e == csz * (e / csz) + e % csz;
    assert csz * (q + 1 + e / csz) == csz * q + csz + csz * (e / csz);
    ModUnique(size + n, csz, q + 1 + e / csz, e % csz);
  }

  lemma BeyondFull(size: nat, n: nat, csz: nat, e: nat, c: nat)
    requires csz > 0 && e == size % csz + n - csz
    ensures csz * (size / csz + 1 + c) == size + n <==> csz * c == e
  {
    var q := size / csz;
    assert size == csz * q + size % csz;
    assert csz * (q + 1 + c) == csz * q + csz + csz * c;
  }

  /** Number of whole clusters and one more, from the least number that holds `e` bytes. */
  lemma WholeClusters(e: nat, csz: nat, c: int)
    requires csz > 0 && e > 0 && Least(c, e, csz)
    ensures e / csz + 1 == if csz * c == e then c + 1 else c
    ensures csz * c == e <==> e % csz == 0
  {
    var m, s := e / csz, e % csz;
    assert e == csz * m + s;
    assert csz * (m + 1) == csz * m + csz;
    LeastUnique(c, if s == 0 then m else m + 1, e, csz);
  }

  lemma CeilIs(n: nat, csz: nat, c: int)
    requires csz > 0 && Least(c, n, csz)
    ensures (n + csz - 1) / csz == c
  {
    CeilCovers(n, csz);
    LeastUnique(c, (n + csz - 1) / csz, n, csz);
  }

  /** The chain a write leaves has at most two clusters beyond those it fills. */
  lemma WrittenTight(size: nat, n: nat, csz: nat, k: nat, len: nat)
    requires k < 32 && csz == Pow2(k) && n + csz < TWO32 && n > 0
    requires if len == 0 then size == 0 else size / csz < len <= size / csz + 2
    ensures csz < TWO32 && WrittenLen(size, n, csz, len) <= (size + n) / csz + 2
  {
    hide Pow2, WrittenLen, WriteNeeds, Taken, Base;
    NeedsTaken(size, n, csz, k, len);
    DivGrows(size, n, csz);
    TakenTight(size, n, csz, len == 0);
  }

  lemma TakenTight(size: nat, n: nat, csz: nat, empty: bool)
    requires csz > 0 && n > 0 && (empty ==> size == 0)
    ensures Base(size, csz, empty) + Taken(size, n, csz, empty) <= (size + n) / csz + 2
  {
    if empty {
      QuotientNat(0, csz);
    } else if size % csz == 0 {
      DivGrows(size, n, csz);
      DivAtMost(n + csz - 1, csz, n / csz + 1) by { assert n == csz * (n / csz) + n % csz; }
    }
  }

  lemma DivGrows(size: nat, n: nat, csz: nat)
    requires csz > 0
    ensures size / csz + n / csz <= (size + n) / csz
    ensures size / csz <= (size + n) / csz
  {
    var q, m := size / csz, n / csz;
    assert size == csz * q + size % csz && n == csz * m + n % csz;
    DivAtLeast(n, csz, 0);
    assert csz * (q + m) == csz * q + csz * m;
    DivAtLeast(size + n, csz, q + m);
  }

  lemma DivAtLeast(x: nat, m: nat, q: nat)
    requires m > 0 && m * q <= x
    ensures q <= x / m
  {
    if x / m < q { MulMono(x / m + 1, q, m); }
  }

  lemma DivAtMost(x: nat, m: nat, q: nat)
    requires m > 0 && x < m * q + m
    ensures x / m <= q
  {
    if x / m > q { MulMono(q + 1, x / m, m); }
  }

  // ----- growing -----

  /** Going from table `t` and chain `ch` to `t'` and `ch'`: the new chain keeps
      the first `keep` clusters and otherwise consists of clusters that were free;
      no table entry outside the new chain changes. */
  ghost predicate Grown(t: seq<nat>, ch: seq<nat>, keep: nat, t': seq<nat>, ch': seq<nat>) {
    && |t'| == |t| && keep <= |ch| && keep <= |ch'|
    && ch'[..keep] == ch[..keep]
    && (forall k :: keep <= k < |ch'| ==> IsFree(t, ch'[k]) || (k < |ch| && ch'[k] == ch[k]))
    && (forall c :: 0 <= c < |t| && c !in ch' ==> t'[c] == t[c])
  }

  /** A chain of another file survives the growth untouched and disjoint. */
  lemma GrownKeepsOthers(t: seq<nat>, ch: seq<nat>, keep: nat, t': seq<nat>, ch': seq<nat>, s: int, other: seq<nat>)
    requires Grown(t, ch, keep, t', ch')
    requires ChainFrom(t, s, other) && forall c :: c in other ==> c !in ch
    ensures ChainFrom(t', s, other)
    ensures forall c :: c in other ==> c !in ch'
  {
    ChainNotFree(t, other);
    forall k | 0 <= k < |ch'| ensures ch'[k] !in other {
      if k < keep {
        assert ch'[..keep][k] == ch[..keep][k];
        assert ch[k] in ch;
      } else if !IsFree(t, ch'[k]) {
        assert ch[k] in ch;
      }
    }
    forall c | c in other ensures 0 <= c < |t| {
      var i :| 0 <= i < |other| && other[i] == c;
    }
    ChainFrame(t, t', s, other);
  }

  /** Chain and table after a successful `expand_file` behind element `i`. */
  ghost function GrownChain(t: seq<nat>, ch: seq<nat>, i: nat, cnt: nat): seq<nat>
    requires ch != [] ==> i < |ch|
    requires cnt <= |FreeClusters(t)|
  {
    (if ch == [] then [] else ch[..i + 1]) + FreeClusters(t)[..cnt]
  }

  lemma GrowBehind(t: seq<nat>, s: int, ch: seq<nat>, i: nat, cnt: nat, start: nat, t1: seq<nat>)
    requires ChainFrom(t, s, ch) && i < |ch|
    requires 1 <= cnt <= |FreeClusters(t)| && Allocated(t, cnt, start, t1)
    ensures ClusterIsValid(start) && InTable(t1, ch[i])
    ensures
      var ch' := GrownChain(t, ch, i, cnt);
      var t2 := t1[ch[i] := start];
      && ChainFrom(t2, s, ch') && t2[ch'[|ch'| - 1]] == CLUSTER_INVALID
      && Grown(t, ch, i + 1, t2, ch')
  {
    hide Linked, FreeBelow, FreeClusters, Walk;
    AllocatedChain(t, cnt, start, t1);
    var more := FreeClusters(t)[..cnt];
    assert more[0] in more && more[cnt - 1] in more;
    ChainNotFree(t, ch);
    forall c | c in ch ensures 0 <= c < |t1| && t1[c] == t[c] {
      var j :| 0 <= j < |ch| && ch[j] == c;
    }
    ChainFrame(t, t1, s, ch);
    assert ch[i] in ch;
    LinkBehind(t1, s, ch, i, more);
    GrownByLink(t, ch, i, more, t1, start);
  }

  lemma GrownByLink(t: seq<nat>, ch: seq<nat>, i: nat, more: seq<nat>, t1: seq<nat>, start: nat)
    requires i < |ch| && ch[i] < |t1| == |t| && more != []
    requires forall c :: c in more ==> IsFree(t, c) && c != ch[i]
    requires forall c :: 0 <= c < |t| && c !in more ==> t1[c] == t[c]
    ensures Grown(t, ch, i + 1, t1[ch[i] := start], ch[..i + 1] + more)
    ensures more[|more| - 1] < |t| && t1[ch[i] := start][more[|more| - 1]] == t1[more[|more| - 1]]
  {
    var ch' := ch[..i + 1] + more;
    assert ch'[..i + 1] == ch[..i + 1];
    assert ch[i] == ch'[i];
    assert more[|more| - 1] in more;
    forall k | i + 1 <= k < |ch'| ensures IsFree(t, ch'[k]) { assert ch'[k] == more[k - i - 1]; }
    forall j | 0 <= j < |more| ensures more[j] in ch' { assert ch'[i + 1 + j] == more[j]; }
  }

  lemma GrowEmpty(t: seq<nat>, s: int, cnt: nat, start: nat, t1: seq<nat>)
    requires ChainFrom(t, s, [])
    requires 1 <= cnt <= |FreeClusters(t)| && Allocated(t, cnt, start, t1)
    ensures ClusterIsValid(start)
    ensures
      var ch' := GrownChain(t, [], 0, cnt);
      && ChainFrom(t1, start, ch') && t1[ch'[|ch'| - 1]] == CLUSTER_INVALID
      && Grown(t, [], 0, t1, ch')
  {
    hide Linked, FreeBelow, FreeClusters, Walk;
    AllocatedChain(t, cnt, start, t1);
    var more := FreeClusters(t)[..cnt];
    assert [] + more == more;
    assert more[0] in more;
    forall k | 0 <= k < cnt ensures IsFree(t, more[k]) { assert more[k] in more; }
  }

  /** Freedom of the remaining clusters: exactly the `cnt` allocated ones are gone. */
  lemma {:induction false} FreeAfter(t: seq<nat>, cnt: nat, t2: seq<nat>, hi: nat)
    requires |t2| == |t| && cnt <= |FreeClusters(t)| && hi <= |t|
    requires forall c :: 0 <= c < |t| ==> (IsFree(t2, c) <==> IsFree(t, c) && c !in FreeClusters(t)[..cnt])
    ensures |FreeBelow(t2, hi)| == if cnt <= |FreeBelow(t, hi)| then |FreeBelow(t, hi)| - cnt else 0
  {
    if hi > 0 {
      FreeAfter(t, cnt, t2, hi - 1);
      if IsFree(t, hi - 1) { FreeRank(t, cnt, hi - 1); }
    }
  }

  /** A free cluster is among the first `cnt` iff fewer than `cnt` free clusters lie below it. */
  lemma FreeRank(t: seq<nat>, cnt: nat, c: nat)
    requires cnt <= |FreeClusters(t)| && IsFree(t, c)
    ensures c in FreeClusters(t)[..cnt] <==> |FreeBelow(t, c)| < cnt
  {
    var f, all := FreeBelow(t, c), FreeClusters(t);
    FreeBelowSorted(t, |t|);
    FreeBelowPrefix(t, c + 1, |t|);
    assert FreeBelow(t, c + 1)[|f|] == c;
    assert all[|f|] == c;
    if |f| < cnt {
      assert all[..cnt][|f|] == c;
    } else {
      forall j | 0 <= j < cnt ensures all[..cnt][j] != c { assert all[j] < all[|f|]; }
    }
  }

  lemma FreeCountAfter(t: seq<nat>, s: int, ch: seq<nat>, i: nat, cnt: nat, start: nat, t1: seq<nat>, lim: nat)
    requires ChainFrom(t, s, ch) && (ch != [] ==> i < |ch|) && lim <= |t|
    requires 1 <= cnt <= |FreeClusters(t)| && Allocated(t, cnt, start, t1)
    ensures
      var t2 := if ch == [] then t1 else if ch[i] < |t1| then t1[ch[i] := start] else t1;
      |FreeBelow(t2, lim)| == if cnt <= |FreeBelow(t, lim)| then |FreeBelow(t, lim)| - cnt else 0
  {
    hide FreeBelow, Walk, Linked;
    var t2 := if ch == [] then t1 else if ch[i] < |t1| then t1[ch[i] := start] else t1;
    var more := FreeClusters(t)[..cnt];
    AllocatedChain(t, cnt, start, t1);
    ChainNotFree(t, ch);
    ChainNotFree(t1, more);
    assert more[0] in more;
    if ch != [] { assert ch[i] in ch; }
    forall c | 0 <= c < |t| ensures IsFree(t2, c) <==> IsFree(t, c) && c !in more {
      if c in more { assert !IsFree(t1, c); }
    }
    FreeAfter(t, cnt, t2, lim);
  }

  /** The allocation scans the whole table. All clusters it hands out exist exactly when the
      last of them does, that is when enough of the free ones exist. */
  lemma AllocatedExistIff(t: seq<nat>, cnt: nat, lim: nat)
    requires 1 <= cnt <= |FreeClusters(t)| && lim <= |t|
    ensures (forall k :: 0 <= k < cnt ==> FreeClusters(t)[k] < lim) <==> FreeClusters(t)[cnt - 1] < lim
    ensures FreeClusters(t)[cnt - 1] < lim <==> cnt <= |FreeBelow(t, lim)|
  {
    hide FreeBelow;
    var free, low := FreeClusters(t), FreeBelow(t, lim);
    FreeBelowSorted(t, |t|);
    FreeBelowSorted(t, lim);
    FreeBelowPrefix(t, lim, |t|);
    if cnt <= |low| {
      assert low[cnt - 1] in low && free[cnt - 1] == low[cnt - 1];
    } else {
      assert free[cnt - 1] in free;
      forall k | 0 <= k < |low| ensures low[k] < free[cnt - 1] { assert low[k] == free[k]; }
    }
  }

  lemma {:induction false} OneFree(t: seq<nat>, x: nat, hi: nat)
    requires hi <= |t| && forall c :: 0 <= c < |t| ==> (IsFree(t, c) <==> c == x)
    ensures FreeBelow(t, hi) == if x < hi then [x] else []
  {
    if hi > 0 { OneFree(t, x, hi - 1); }
  }

  /** Whenever a volume's table has more entries than there are clusters, it can be that the
      only free entry is the one behind the last cluster, and that one is handed out. */
  lemma AllocatesNoCluster(g: Geometry)
    requires g.Ok() && g.Limit() < g.Total()
    ensures var t := seq(g.Total(), c => if c == g.Limit() then CLUSTER_FREE else CLUSTER_INVALID);
      FreeClusters(t) == [g.Limit()] && FreeBelow(t, g.Limit()) == []
  {
    var t := seq(g.Total(), c => if c == g.Limit() then CLUSTER_FREE else CLUSTER_INVALID);
    assert forall c :: 0 <= c < |t| ==> (IsFree(t, c) <==> c == g.Limit());
    OneFree(t, g.Limit(), |t|);
    OneFree(t, g.Limit(), g.Limit());
  }

  lemma GrownOnDisk(v: Vol, ch: seq<nat>, i: nat, cnt: nat)
    requires OnDisk(v, ch) && (ch != [] ==> i < |ch|) && |v.data| <= |v.tbl|
    requires 1 <= cnt <= Spare(v)
    ensures cnt <= |FreeClusters(v.tbl)| && OnDisk(v, GrownChain(v.tbl, ch, i, cnt))
  {
    hide FreeBelow;
    FreeBelowPrefix(v.tbl, |v.data|, |v.tbl|);
    AllocatedExistIff(v.tbl, cnt, |v.data|);
  }

  lemma GrownTrans(t0: seq<nat>, ch0: seq<nat>, keep: nat, t1: seq<nat>, ch1: seq<nat>, t2: seq<nat>, ch2: seq<nat>)
    requires Grown(t0, ch0, keep, t1, ch1) && Grown(t1, ch1, |ch1|, t2, ch2) && IsChain(t1, ch1)
    ensures Grown(t0, ch0, keep, t2, ch2)
  {
    ChainNotFree(t1, ch1);
    assert ch2[..|ch1|] == ch1;
    assert ch2[..keep] == ch1[..keep];
    forall k | keep <= k < |ch2| ensures IsFree(t0, ch2[k]) || (k < |ch0| && ch2[k] == ch0[k]) {
      if k < |ch1| { assert ch2[k] == ch1[k]; }
    }
    forall k | 0 <= k < |ch1| ensures ch1[k] in ch2 { assert ch2[k] == ch1[k]; }
  }

  lemma GrownRefl(t: seq<nat>, ch: seq<nat>, keep: nat)
    requires keep <= |ch|
    ensures Grown(t, ch, keep, t, ch)
  {
  }

  /** The bytes in the kept prefix of a chain do not depend on what follows it. */
  lemma ContentPrefix(v: Vol, v': Vol, csz: nat, ch: seq<nat>, ch': seq<nat>, keep: nat, size: nat)
    requires Covers(v, csz, ch, size) && Covers(v', csz, ch', size)
    requires keep <= |ch| && keep <= |ch'| && ch'[..keep] == ch[..keep] && size <= csz * keep
    requires |v'.data| == |v.data| && forall k :: 0 <= k < keep ==> v'.data[ch[k]] == v.data[ch[k]]
    ensures Content(v', csz, ch', size) == Content(v, csz, ch, size)
  {
    forall p | 0 <= p < size
      ensures ByteAt(v', csz, ch', size, p) == ByteAt(v, csz, ch, size, p)
    {
      CoversIndex(size, csz, keep, p);
      assert ch'[..keep][p / csz] == ch[..keep][p / csz];
    }
  }

  /** Storing `b` behind the last byte appends `b` to the content. */
  lemma ContentAppend(v: Vol, csz: nat, s: int, ch: seq<nat>, size: nat, b: seq<Byte>)
    requires VolOk(v, csz) && ChainFrom(v.tbl, s, ch) && OnDisk(v, ch) && size / csz < |ch|
    requires size % csz + |b| <= csz && size + |b| <= csz * |ch|
    requires Covers(v, csz, ch, size)
    ensures
      var c, o := ch[size / csz], size % csz;
      && c < |v.data| && o + |b| <= |v.data[c]|
      && var v' := v.(data := v.data[c := v.data[c][..o] + b + v.data[c][o + |b|..]]);
      && VolOk(v', csz) && Covers(v', csz, ch, size + |b|)
      && Content(v', csz, ch, size + |b|) == Content(v, csz, ch, size) + b
  {
    var i, o := size / csz, size % csz;
    var c := ch[i];
    var v' := v.(data := v.data[c := v.data[c][..o] + b + v.data[c][o + |b|..]]);
    assert size == csz * i + o;
    forall p | 0 <= p < size + |b|
      ensures ByteAt(v', csz, ch, size + |b|, p) == (Content(v, csz, ch, size) + b)[p]
    {
      CoversIndex(size + |b|, csz, |ch|, p);
      if p < size {
        AppendKeeps(v, csz, ch, i, o, b, p);
      } else {
        MovePos(size, p - size, csz);
      }
    }
  }

  lemma ChainInTable(t: seq<nat>, ch: seq<nat>, k: nat)
    requires IsChain(t, ch) && k < |ch|
    ensures 2 <= ch[k] < |t| && IsPath(t, ch)
  {
  }

  lemma AppendKeeps(v: Vol, csz: nat, ch: seq<nat>, i: nat, o: nat, b: seq<Byte>, p: nat)
    requires VolOk(v, csz) && IsChain(v.tbl, ch) && OnDisk(v, ch) && i < |ch| && o + |b| <= csz
    requires p < csz * i + o && p / csz < |ch|
    ensures ch[i] < |v.data| && ch[p / csz] < |v.data| && p % csz < csz
    ensures v.data[ch[i] := v.data[ch[i]][..o] + b + v.data[ch[i]][o + |b|..]][ch[p / csz]][p % csz]
         == v.data[ch[p / csz]][p % csz]
  {
    hide IsPath, Pow2;
    var q := p / csz;
    assert p == csz * q + p % csz;
    ChainInTable(v.tbl, ch, q);
    ChainInTable(v.tbl, ch, i);
    if q == i {
      assert p % csz < o;
    } else if q < i {
      PathDistinct(v.tbl, ch, q, i);
    } else {
      PathDistinct(v.tbl, ch, i, q);
    }
  }

  // ----- a file as a whole -----

  /** A handle together with the chain it stands in. */
  datatype Stream = Stream(h: Handle, ch: seq<nat>)

  /** A new or truncated file. */
  const EMPTY: Stream := Stream(Handle(0, 0, CLUSTER_INVALID, CLUSTER_INVALID), [])

  ghost function Bytes(v: Vol, csz: nat, s: Stream): seq<Byte>
    requires Readable(v, csz, s.h, s.ch)
  {
    Content(v, csz, s.ch, s.h.size)
  }

  lemma EmptyAppends(v: Vol, csz: nat)
    requires VolOk(v, csz)
    ensures Appendable(v, csz, EMPTY.h, EMPTY.ch) && Bytes(v, csz, EMPTY) == []
  {
  }

  /** The two volumes hold the same at every cluster of `ch`. */
  ghost predicate SameOn(v: Vol, v': Vol, ch: seq<nat>) {
    && |v'.tbl| == |v.tbl| && |v'.data| == |v.data|
    && (forall c :: c in ch && 0 <= c < |v.tbl| ==> v'.tbl[c] == v.tbl[c])
    && (forall c :: c in ch && 0 <= c < |v.data| ==> v'.data[c] == v.data[c])
  }

  /** Walking a chain gives the same in both tables, up to the entry behind its last cluster. */
  lemma {:induction false} WalkAgrees(t: seq<nat>, t': seq<nat>, s: int, ch: seq<nat>, k: nat)
    requires ChainFrom(t, s, ch) && k <= |ch| && |t'| == |t|
    requires forall c :: c in ch && 0 <= c < |t| ==> t'[c] == t[c]
    ensures Walk(t', s, k) == Walk(t, s, k)
  {
    if k > 0 {
      WalkAgrees(t, t', s, ch, k - 1);
      PathWalk(t, s, ch, k - 1);
      assert ch[k - 1] in ch;
    }
  }

  /** Handle, chain and bytes of a file depend on the clusters of its chain only. */
  lemma StreamFrame(v: Vol, v': Vol, csz: nat, s: Stream)
    requires Readable(v, csz, s.h, s.ch) && VolOk(v', csz) && SameOn(v, v', s.ch)
    ensures Readable(v', csz, s.h, s.ch) && Bytes(v', csz, s) == Bytes(v, csz, s)
  {
    hide Walk, Content, IsPath, ChainFrom, VolOk;
    VolSizes(v, csz);
    PosInChain(s.h.pos, s.h.size, csz, |s.ch|);
    forall c | c in s.ch ensures c < |v.tbl| && c < |v.data| {
      var k :| 0 <= k < |s.ch| && s.ch[k] == c;
    }
    ChainFrame(v.tbl, v'.tbl, s.h.sblk, s.ch);
    WalkAgrees(v.tbl, v'.tbl, s.h.sblk, s.ch, s.h.pos / csz);
    ReadableCovers(v, csz, s.h, s.ch);
    ReadableCovers(v', csz, s.h, s.ch);
    SameContent(v, v', csz, s);
  }

  lemma VolSizes(v: Vol, csz: nat)
    requires VolOk(v, csz)
    ensures csz > 0 && |v.data| <= |v.tbl|
  {
  }

  lemma SameContent(v: Vol, v': Vol, csz: nat, s: Stream)
    requires Covers(v, csz, s.ch, s.h.size) && Covers(v', csz, s.ch, s.h.size) && SameOn(v, v', s.ch)
    ensures Content(v', csz, s.ch, s.h.size) == Content(v, csz, s.ch, s.h.size)
  {
    hide Content;
    forall k | 0 <= k < |s.ch| ensures s.ch[k] in s.ch {}
    ContentPrefix(v, v', csz, s.ch, s.ch, |s.ch|, s.h.size);
  }

  lemma PosInChain(pos: nat, size: nat, csz: nat, n: nat)
    requires csz > 0 && pos <= size <= csz * n
    ensures pos / csz <= n
  {
    if pos / csz > n { MulMono(n + 1, pos / csz, csz); }
  }
}
