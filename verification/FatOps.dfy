/** Reading, writing, growing and seeking open files (fatfs.c:182-641). */
module FatOps {
  import opened Bits
  import opened FatLayout
  import opened FatChain
  import opened FatDisk
  import opened FatAlloc
  import opened FatFile
  import opened FatPlace

  /** The fields of `file_t` the file system uses. */
  class File {
    var size: nat
    var pos: nat
    var sblk: nat
    var cblk: nat
    var pIndex: int
    var mode: nat

    ghost function H(): Handle
      reads this
    {
      Handle(size, pos, sblk, cblk)
    }

    constructor (mode: nat)
      ensures this.mode == mode && H() == Handle(0, 0, CLUSTER_INVALID, CLUSTER_INVALID)
    {
      this.mode := mode;
      size, pos, sblk, cblk, pIndex := 0, 0, CLUSTER_INVALID, CLUSTER_INVALID, 0;
    }
  }

  /** `cnt` clusters were taken off the free ones and linked to no file. */
  ghost predicate Leaked(t: seq<nat>, cnt: nat, t': seq<nat>) {
    1 <= cnt <= |FreeClusters(t)| && Allocated(t, cnt, FreeClusters(t)[0], t')
  }

  /** A leak keeps every chain of every file, and costs `cnt` free clusters. */
  lemma LeakKeepsChains(t: seq<nat>, cnt: nat, t': seq<nat>, s: int, ch: seq<nat>, lim: nat)
    requires Leaked(t, cnt, t') && ChainFrom(t, s, ch) && lim <= |t|
    ensures ChainFrom(t', s, ch) && |t'| == |t| && |FreeClusters(t')| == |FreeClusters(t)| - cnt
    ensures |FreeBelow(t', lim)| == if cnt <= |FreeBelow(t, lim)| then |FreeBelow(t, lim)| - cnt else 0
  {
    hide FreeBelow, Walk;
    var start := FreeClusters(t)[0];
    AllocatedChain(t, cnt, start, t');
    ChainNotFree(t, ch);
    forall c | c in ch ensures 0 <= c < |t| && t'[c] == t[c] {
      var j :| 0 <= j < |ch| && ch[j] == c;
    }
    ChainFrame(t, t', s, ch);
    FreeCountAfter(t, CLUSTER_INVALID, [], 0, cnt, start, t', lim);
    FreeCountAfter(t, CLUSTER_INVALID, [], 0, cnt, start, t', |t|);
  }

  /** Outcome of `expand_file` asking for `cnt` clusters behind element `i` of `ch`. When the
      file has clusters but no current one, they are allocated and then not linked. */
  ghost predicate Expanded(t: seq<nat>, lim: nat, h: Handle, ch: seq<nat>, i: nat, cnt: nat, err: int,
                           t': seq<nat>, h': Handle, ch': seq<nat>)
    requires ch != [] && InTable(t, h.cblk) ==> i < |ch|
  {
    if cnt == 0 || cnt > |FreeClusters(t)| then
      err == (if cnt == 0 then 0 else -1) && t' == t && h' == h && ch' == ch
    else if ch != [] && !InTable(t, h.cblk) then
      err == -1 && Leaked(t, cnt, t') && h' == h && ch' == ch
    else
      && err == 0
      && ch' == GrownChain(t, ch, i, cnt)
      && h' == (if ch == [] then h.(sblk := ch'[0], cblk := ch'[0]) else h)
      && ChainFrom(t', h'.sblk, ch') && t'[ch'[|ch'| - 1]] == CLUSTER_INVALID
      && Grown(t, ch, if ch == [] then 0 else i + 1, t', ch')
      && |FreeBelow(t', lim)| == (if cnt <= |FreeBelow(t, lim)| then |FreeBelow(t, lim)| - cnt else 0)
      && |FreeClusters(t')| == |FreeClusters(t)| - cnt
  }

  /** Once free space in the last cluster is exhausted, at least one cluster is asked for. */
  lemma CountPositive(g: Geometry, size: nat, inc: nat)
    requires g.Ok() && 0 < inc < 0x8000_0000
    ensures 0 < g.ClusterSize() < TWO32
    ensures ExpandCount(size, inc, g.ClusterSize()) == 0 ==>
      size > 0 && size % g.ClusterSize() > 0 && size % g.ClusterSize() + inc < g.ClusterSize()
  {
    hide Up2;
    var k := ClusterSizePow2(g);
    ClustersForCeil(inc, g.ClusterSize(), k);
  }

  method ExpandFile(fat: Fat, file: File, incBytes: nat, ghost ch: seq<nat>, ghost i: nat)
    returns (err: int, ghost ch': seq<nat>)
    requires fat.Valid() && 0 < incBytes < 0x8000_0000
    requires ChainFrom(fat.Vol().tbl, file.sblk, ch)
    requires ch != [] && InTable(fat.Vol().tbl, file.cblk) ==> i < |ch| && file.cblk == ch[i]
    modifies fat`disk, fat`currSector, fat.buffer, file`sblk, file`cblk
    ensures fat.Valid() && fat.KeepsMirror()
    ensures fat.Vol() == old(fat.Vol()).(tbl := fat.Vol().tbl)
    ensures 0 < fat.g.ClusterSize() < TWO32
    ensures Expanded(old(fat.Vol().tbl), fat.g.Limit(), old(file.H()), ch, i,
                     ExpandCount(file.size, incBytes, fat.g.ClusterSize()), err, fat.Vol().tbl, file.H(), ch')
  {
    hide VolOf, Linked, Mirrored, Fat.CacheAgrees, FreeBelow, Up2, Grown, IsPath;
    var csz := fat.g.secPerCluster * SECTOR_SIZE;
    ghost var t0 := fat.Vol().tbl;
    CountPositive(fat.g, file.size, incBytes);
    ChainHead(t0, file.sblk, ch);
    var clusterCnt: nat;
    if file.size == 0 || file.size % csz == 0 {
      clusterCnt := Up2(incBytes, csz) / csz;
    } else {
      var cfree := csz - file.size % csz;
      if cfree > incBytes {
        return 0, ch;
      }
      clusterCnt := Up2(incBytes - cfree, csz) / csz;
      if clusterCnt == 0 {
        clusterCnt := 1;
      }
    }
    var start := ClusterAllocFree(fat, clusterCnt);
    ghost var t1 := fat.Vol().tbl;
    AllocatedIff(t0, clusterCnt, start, t1);
    if !ClusterIsValid(start) {
      return -1, ch;
    }
    if !ClusterIsValid(file.sblk) {
      GrowEmpty(t0, file.sblk, clusterCnt, start, t1);
      file.cblk, file.sblk := start, start;
    } else {
      if InTable(t0, file.cblk) { GrowBehind(t0, file.sblk, ch, i, clusterCnt, start, t1); }
      var e := fat.ClusterSetNext(file.cblk, start);
      if e < 0 {
        return -1, ch;
      }
    }
    FreeCountAfter(t0, old(file.sblk), ch, i, clusterCnt, start, t1, fat.g.Limit());
    FreeCountAfter(t0, old(file.sblk), ch, i, clusterCnt, start, t1, |t0|);
    ch' := GrownChain(t0, ch, i, clusterCnt);
    return 0, ch';
  }

  /** An expansion takes just the clusters that the longer file needs more, and one when it fills
      the last cluster, or there are fewer free and it takes none. */
  lemma ExpandTakes(g: Geometry, t: seq<nat>, h: Handle, ch: seq<nat>, i: nat, inc: nat, err: int, t': seq<nat>,
                    h': Handle, ch': seq<nat>, has: int, needs: int)
    requires g.Ok() && 0 < inc < 0x8000_0000 && 0 < g.ClusterSize() < TWO32 && ChainFrom(t, h.sblk, ch)
    requires ch != [] && InTable(t, h.cblk) ==> i < |ch|
    requires Expanded(t, g.Limit(), h, ch, i, ExpandCount(h.size, inc, g.ClusterSize()), err, t', h', ch')
    requires Least(has, h.size, g.ClusterSize()) && Least(needs, h.size + inc, g.ClusterSize())
    ensures var fills := h.size % g.ClusterSize() != 0 && h.size % g.ClusterSize() + inc == g.ClusterSize();
      var cnt := needs - has + if fills then 1 else 0;
      if cnt > |FreeClusters(t)| then err == -1 && t' == t else |FreeClusters(t')| == |FreeClusters(t)| - cnt
  {
    hide ExpandCount, Pow2, Grown, FreeClusters, GrownChain, ChainFrom, Allocated, Least;
    var csz := g.ClusterSize();
    var k := ClusterSizePow2(g);
    var cnt := ExpandCount(h.size, inc, csz);
    if 0 < cnt <= |FreeClusters(t)| && ch != [] && !InTable(t, h.cblk) {
      LeakKeepsChains(t, cnt, t', h.sblk, ch, 0);
    }
    ExpandExact(h.size, inc, csz, k, has, needs);
  }

  // ----- moving the file position -----

  /** What `move_file_pos(.., expand = 1)` finds: `m` bytes were just stored at
      `pos`, `size` already counts them, and `cblk` holds position `pos`. */
  ghost predicate Moving(t: seq<nat>, lim: nat, csz: nat, h: Handle, ch: seq<nat>, m: nat) {
    && csz > 0 && lim <= |t|
    && ChainFrom(t, h.sblk, ch)
    && h.pos / csz < |ch| && h.cblk == ch[h.pos / csz]
    && h.pos % csz + m <= csz && h.size == h.pos + m
    && (h.pos % csz + m == csz && h.pos / csz + 1 == |ch| ==>
          t[ch[|ch| - 1]] == CLUSTER_INVALID && (|FreeBelow(t, lim)| >= 1 || FreeClusters(t) == []))
  }

  /** The move ends at the end of the chain and no table entry is free. */
  ghost predicate StopsShort(t: seq<nat>, csz: nat, h: Handle, ch: seq<nat>, m: nat) {
    csz > 0 && h.pos % csz + m == csz && h.pos / csz + 1 == |ch| && FreeClusters(t) == []
  }

  /** What it leaves: the same chain, or the chain with one new cluster behind it. */
  ghost predicate Moved(t: seq<nat>, lim: nat, csz: nat, h: Handle, ch: seq<nat>, t': seq<nat>, h': Handle,
                        ch': seq<nat>)
  {
    && csz > 0
    && ChainFrom(t', h'.sblk, ch')
    && h'.sblk == h.sblk && h'.size == h'.pos == h.size
    && (if h'.pos / csz < |ch| then t' == t && ch' == ch
        else
          && |ch'| == |ch| + 1 && ch'[|ch|] < lim
          && |FreeBelow(t', lim)| == |FreeBelow(t, lim)| - 1)
    && h'.pos / csz < |ch'| && h'.cblk == ch'[h'.pos / csz]
    && Grown(t, ch, |ch|, t', ch')
  }

  method MoveFilePos(fat: Fat, file: File, moveBytes: nat, expand: bool, ghost ch: seq<nat>)
    returns (err: int, ghost ch': seq<nat>)
    requires fat.Valid() && fat.g.ClusterSize() > 0
    requires expand ==> Moving(fat.Vol().tbl, fat.g.Limit(), fat.g.ClusterSize(), file.H(), ch, moveBytes)
    modifies fat`disk, fat`currSector, fat.buffer, file
    ensures fat.Valid() && fat.KeepsMirror()
    ensures err == if expand && StopsShort(old(fat.Vol().tbl), fat.g.ClusterSize(), old(file.H()), ch, moveBytes)
                   then -1 else 0
    ensures err < 0 ==> fat.Vol() == old(fat.Vol()) && file.H() == old(file.H()) && ch' == ch
    ensures fat.Vol() == old(fat.Vol()).(tbl := fat.Vol().tbl)
    ensures file.mode == old(file.mode) && file.pIndex == old(file.pIndex)
    ensures expand && err == 0 ==>
      Moved(old(fat.Vol().tbl), fat.g.Limit(), fat.g.ClusterSize(), old(file.H()), ch, fat.Vol().tbl, file.H(), ch')
    ensures !expand ==> fat.disk == old(fat.disk) && file.H() == old(file.H()).(
        pos := old(file.pos) + moveBytes,
        cblk := if old(file.pos) % fat.g.ClusterSize() + moveBytes >= fat.g.ClusterSize()
                then Next(fat.Vol().tbl, old(file.cblk)) else old(file.cblk))
  {
    hide VolOf, Mirrored, Fat.CacheAgrees, FreeBelow, Expanded, Grown, IsPath, IsChain, ExpandCount, FreeClusters;
    var csz := fat.g.secPerCluster * SECTOR_SIZE;
    ghost var t0, h0 := fat.Vol().tbl, file.H();
    ghost var i := file.pos / csz;
    ch' := ch;
    var cOffset := file.pos % csz;
    if expand { MovePos(file.pos, moveBytes, csz); GrownRefl(t0, ch, |ch|); }
    if cOffset + moveBytes >= csz {
      if expand { NextInChain(t0, file.sblk, ch, i); }
      var next := fat.ClusterGetNext(file.cblk);
      if next == CLUSTER_INVALID && expand {
        BoundaryCount(fat.g, file.size);
        err, ch' := ExpandFile(fat, file, csz, ch, i);
        OneMoreOrNone(t0, fat.g.Limit(), h0, ch, i, err, fat.Vol().tbl, file.H(), ch');
        if err < 0 {
          return -1, ch;
        }
        ExpandedByOne(t0, fat.g.Limit(), h0, ch, i, err, fat.Vol().tbl, file.H(), ch');
        NextInChain(fat.Vol().tbl, file.sblk, ch', i);
        next := fat.ClusterGetNext(file.cblk);
      }
      file.cblk := next;
    }
    file.pos := file.pos + moveBytes;
    return 0, ch';
  }

  lemma NextInChain(t: seq<nat>, s: int, ch: seq<nat>, i: nat)
    requires ChainFrom(t, s, ch) && i < |ch|
    ensures i + 1 < |ch| ==> Next(t, ch[i]) == ch[i + 1] && ClusterIsValid(ch[i + 1])
    ensures i + 1 == |ch| ==> Next(t, ch[i]) == t[ch[i]]
    ensures InTable(t, ch[i])
  {
  }

  /** At a cluster boundary one more cluster is asked for. */
  lemma BoundaryCount(g: Geometry, size: nat)
    requires g.Ok() && size % g.ClusterSize() == 0
    ensures 0 < g.ClusterSize() < TWO32 && g.ClusterSize() < 0x8000_0000
    ensures ExpandCount(size, g.ClusterSize(), g.ClusterSize()) == 1
  {
    hide Up2, ClustersFor;
    var k := ClusterSizePow2(g);
    var csz := g.ClusterSize();
    ClustersForCeil(csz, csz, k);
    var n := ClustersFor(csz, csz);
    if n > 1 { MulMono(2, n, csz); }
  }

  lemma OneMoreOrNone(t: seq<nat>, lim: nat, h: Handle, ch: seq<nat>, i: nat, err: int, t': seq<nat>, h': Handle,
                      ch': seq<nat>)
    requires i < |ch| && InTable(t, h.cblk)
    requires Expanded(t, lim, h, ch, i, 1, err, t', h', ch')
    ensures err == if FreeClusters(t) == [] then -1 else 0
    ensures err < 0 ==> t' == t && h' == h && ch' == ch
  {
  }

  lemma ExpandedByOne(t: seq<nat>, lim: nat, h: Handle, ch: seq<nat>, i: nat, err: int, t': seq<nat>, h': Handle,
                      ch': seq<nat>)
    requires i + 1 == |ch| && lim <= |t| && InTable(t, h.cblk)
    requires Expanded(t, lim, h, ch, i, 1, err, t', h', ch')
    requires FreeClusters(t) == [] || |FreeBelow(t, lim)| >= 1
    requires err == 0
    ensures |FreeBelow(t, lim)| >= 1 && h' == h && |ch'| == |ch| + 1 && ch'[i] == ch[i] && ch'[|ch|] < lim
    ensures ChainFrom(t', h.sblk, ch') && Grown(t, ch, |ch|, t', ch')
    ensures |FreeBelow(t', lim)| == |FreeBelow(t, lim)| - 1
  {
    hide FreeBelow;
    FreeBelowPrefix(t, lim, |t|);
    AllocatedExistIff(t, 1, lim);
  }

  // ----- cluster data -----

  method ReadChunk(fat: Fat, cblk: nat, offset: nat, n: nat) returns (r: seq<Byte>)
    requires fat.Valid() && 2 <= cblk < fat.g.Limit() && offset + n <= fat.g.ClusterSize()
    modifies fat`currSector, fat.buffer
    ensures fat.Valid()
    ensures offset + n <= |fat.Vol().data[cblk]| && r == fat.Vol().data[cblk][offset..offset + n]
  {
    hide VolOf, Mirrored, Flat;
    ClusterInDisk(fat.g, cblk);
    var startSector := fat.g.DataStart() + (cblk - 2) * fat.g.secPerCluster;
    DataOf(fat.disk, fat.g, cblk);
    fat.currSector := startSector;
    fat.DevRead(startSector, fat.g.secPerCluster);
    assert fat.buffer[..fat.g.ClusterSize()] == fat.Vol().data[cblk];
    r := fat.buffer[offset..offset + n];
    PrefixSlice(fat.buffer, fat.g.ClusterSize(), offset, offset + n);
  }

  /** The path for one whole cluster goes past the buffer. */
  method ReadWhole(fat: Fat, cblk: nat) returns (r: seq<Byte>)
    requires fat.Valid() && 2 <= cblk < fat.g.Limit()
    ensures r == fat.Vol().data[cblk]
  {
    ClusterInDisk(fat.g, cblk);
    var startSector := fat.g.DataStart() + (cblk - 2) * fat.g.secPerCluster;
    r := [];
    for i := 0 to fat.g.secPerCluster
      invariant |r| == 512 * i && r == Flat(fat.disk, startSector, i)
    {
      r := r + fat.disk[startSector + i];
      assert r == Flat(fat.disk, startSector, i + 1);
    }
  }

  method WriteChunk(fat: Fat, cblk: nat, offset: nat, b: seq<Byte>)
    requires fat.Valid() && 2 <= cblk < fat.g.Limit() && offset + |b| <= fat.g.ClusterSize()
    modifies fat`disk, fat`currSector, fat.buffer
    ensures fat.Valid() && fat.KeepsMirror()
    ensures var c := old(fat.Vol().data[cblk]);
      && |c| == fat.g.ClusterSize()
      && fat.Vol() == old(fat.Vol()).(data := old(fat.Vol().data)[cblk := c[..offset] + b + c[offset + |b|..]])
  {
    hide VolOf, Mirrored, Flat;
    var csz := fat.g.ClusterSize();
    ClusterInDisk(fat.g, cblk);
    var startSector := fat.g.DataStart() + (cblk - 2) * fat.g.secPerCluster;
    DataOf(fat.disk, fat.g, cblk);
    fat.currSector := -1;
    fat.DevRead(startSector, fat.g.secPerCluster);
    ghost var c := fat.buffer[..csz];
    forall k | 0 <= k < |b| { fat.buffer[offset + k] := b[k]; }
    assert forall k :: offset <= k < offset + |b| ==> fat.buffer[k] == b[k - offset];
    IsSpliced(c, offset, b, fat.buffer[..csz]);
    WriteClusterVol(fat.disk, fat.g, cblk, fat.buffer[..]);
    assert fat.buffer[..][..csz] == fat.buffer[..csz];
    WriteClusterMirror(fat.disk, fat.g, cblk, fat.buffer[..]);
    fat.DevWrite(startSector, fat.g.secPerCluster, fat.buffer[..]);
  }

  lemma IsSpliced(c: seq<Byte>, o: nat, b: seq<Byte>, r: seq<Byte>)
    requires o + |b| <= |c| == |r|
    requires forall k :: 0 <= k < |c| ==> r[k] == if o <= k < o + |b| then b[k - o] else c[k]
    ensures r == c[..o] + b + c[o + |b|..]
  {
  }

  method WriteWhole(fat: Fat, cblk: nat, b: seq<Byte>)
    requires fat.Valid() && 2 <= cblk < fat.g.Limit() && |b| >= fat.g.ClusterSize()
    modifies fat`disk
    ensures fat.Valid() && fat.KeepsMirror()
    ensures fat.Vol() == old(fat.Vol()).(data := old(fat.Vol().data)[cblk := b[..fat.g.ClusterSize()]])
  {
    hide VolOf, Mirrored, Flat;
    ClusterInDisk(fat.g, cblk);
    var startSector := fat.g.DataStart() + (cblk - 2) * fat.g.secPerCluster;
    WriteClusterVol(fat.disk, fat.g, cblk, b);
    WriteClusterMirror(fat.disk, fat.g, cblk, b);
    fat.DevWrite(startSector, fat.g.secPerCluster, b);
  }

  lemma DataOf(d: seq<Sector>, g: Geometry, c: nat)
    requires Fits(d, g) && 2 <= c < g.Limit()
    ensures g.ClusterSector(c) + g.secPerCluster <= |d|
    ensures VolOf(d, g).data[c] == Flat(d, g.ClusterSector(c), g.secPerCluster)
  {
    ClusterInDisk(g, c);
  }

  // ----- reading -----

  function Min(a: nat, b: nat): nat { if a <= b then a else b }

  lemma ContentByte(v: Vol, csz: nat, h: Handle, ch: seq<nat>, k: nat)
    requires Readable(v, csz, h, ch) && h.pos + k < h.size && h.pos % csz + k < csz
    requires Covers(v, csz, ch, h.size)
    ensures 2 <= h.cblk < |v.data| && |v.data[h.cblk]| == csz
    ensures v.data[h.cblk][h.pos % csz + k] == Content(v, csz, ch, h.size)[h.pos + k]
  {
    CoversIndex(h.size, csz, |ch|, h.pos);
    PathWalk(v.tbl, h.sblk, ch, h.pos / csz);
    MovePos(h.pos, k, csz);
  }

  /** The bytes of one chunk lie in the current cluster. */
  lemma ContentSlice(v: Vol, csz: nat, h: Handle, ch: seq<nat>, m: nat)
    requires Readable(v, csz, h, ch) && 0 < m && h.pos + m <= h.size && h.pos % csz + m <= csz
    requires Covers(v, csz, ch, h.size)
    ensures 2 <= h.cblk < |v.data| && |v.data[h.cblk]| == csz
    ensures v.data[h.cblk][h.pos % csz..h.pos % csz + m] == Content(v, csz, ch, h.size)[h.pos..h.pos + m]
  {
    hide ByteAt, Walk, IsChain, Content;
    ContentByte(v, csz, h, ch, 0);
    var o := h.pos % csz;
    var a, b := v.data[h.cblk][o..o + m], Content(v, csz, ch, h.size)[h.pos..h.pos + m];
    forall k | 0 <= k < m ensures a[k] == b[k] { ContentByte(v, csz, h, ch, k); }
  }

  /** Advancing by a chunk keeps the file readable. */
  lemma ReadableMoves(v: Vol, csz: nat, h: Handle, ch: seq<nat>, m: nat)
    requires Readable(v, csz, h, ch) && h.pos + m <= h.size && h.pos % csz + m <= csz
    ensures Readable(v, csz, h.(pos := h.pos + m,
        cblk := if h.pos % csz + m >= csz then Next(v.tbl, h.cblk) else h.cblk), ch)
  {
    MovePos(h.pos, m, csz);
  }

  /** One round of the read loop: the rest of the current cluster, or what is still wanted. */
  method ReadNext(fat: Fat, file: File, nbytes: nat, ghost ch: seq<nat>) returns (chunk: seq<Byte>)
    requires fat.Valid() && Readable(fat.Vol(), fat.g.ClusterSize(), file.H(), ch)
    requires Covers(fat.Vol(), fat.g.ClusterSize(), ch, file.size)
    requires 0 < nbytes && file.pos + nbytes <= file.size
    modifies fat`disk, fat`currSector, fat.buffer, file
    ensures fat.Valid() && fat.disk == old(fat.disk)
    ensures file.mode == old(file.mode) && file.pIndex == old(file.pIndex)
    ensures file.size == old(file.size) && file.sblk == old(file.sblk)
    ensures 0 < |chunk| <= nbytes && file.pos == old(file.pos) + |chunk|
    ensures Readable(fat.Vol(), fat.g.ClusterSize(), file.H(), ch)
    ensures chunk == Content(fat.Vol(), fat.g.ClusterSize(), ch, file.size)[old(file.pos)..file.pos]
  {
    hide VolOf, Mirrored, Fat.CacheAgrees, Content, IsChain, Walk, VolOk, Moving, Moved, Covers;
    var csz := fat.g.secPerCluster * SECTOR_SIZE;
    ghost var v := fat.Vol();
    var currRead := nbytes;
    var clusterOffset := file.pos % csz;
    if clusterOffset == 0 && nbytes == csz {
      ContentSlice(v, csz, file.H(), ch, currRead);
      chunk := ReadWhole(fat, file.cblk);
      assert chunk == chunk[0..csz];
      currRead := csz;
    } else {
      if clusterOffset + currRead > csz {
        currRead := csz - clusterOffset;
      }
      ContentSlice(v, csz, file.H(), ch, currRead);
      chunk := ReadChunk(fat, file.cblk, clusterOffset, currRead);
    }
    ReadableMoves(v, csz, file.H(), ch, currRead);
    var err, _ := MoveFilePos(fat, file, currRead, false, ch);
  }

  /** Bytes one read transfers, in the unsigned 32-bit arithmetic of fatfs.c:470-473. */
  function ReadLength(pos: nat, size: nat, fileSize: nat): nat {
    if (pos + size) % TWO32 > fileSize then (fileSize - pos) % TWO32 else size
  }

  /** The count is the smaller of what is asked for and what is left exactly when the
      position is not past the end; past it (as a seek into the last cluster's slack
      allows) the subtraction wraps and more is read than was asked for. */
  lemma ReadLengthExact(pos: nat, size: nat, fileSize: nat)
    requires pos < 0x8000_0000 && size < 0x8000_0000 && fileSize < 0x8000_0000
    ensures pos <= fileSize <==> ReadLength(pos, size, fileSize) <= size
    ensures pos <= fileSize ==> ReadLength(pos, size, fileSize) == Min(size, fileSize - pos)
  {
  }

  /** `fatfs_read`: the bytes stored to `buf`, whose number is the result. */
  method FatfsRead(fat: Fat, file: File, size: nat, ghost ch: seq<nat>) returns (r: seq<Byte>)
    requires fat.Valid() && Readable(fat.Vol(), fat.g.ClusterSize(), file.H(), ch)
    requires size < 0x8000_0000 && file.size < 0x8000_0000
    modifies fat`disk, fat`currSector, fat.buffer, file
    ensures fat.Valid() && fat.disk == old(fat.disk)
    ensures file.mode == old(file.mode) && file.pIndex == old(file.pIndex)
    ensures file.size == old(file.size) && file.sblk == old(file.sblk)
    ensures old(file.pos) <= file.size && file.pos == old(file.pos) + Min(size, file.size - old(file.pos))
    ensures Readable(fat.Vol(), fat.g.ClusterSize(), file.H(), ch)
    ensures Covers(fat.Vol(), fat.g.ClusterSize(), ch, file.size)
    ensures r == Content(fat.Vol(), fat.g.ClusterSize(), ch, file.size)[old(file.pos)..file.pos]
    ensures forall i :: 0 <= i < |r| ==> OnDiskAt(fat.disk, fat.g, ch, old(file.pos) + i, r[i])
  {
    hide VolOf, Mirrored, Fat.CacheAgrees, Content, ChainFrom, Walk, Fits, Readable, Covers, ReadLength, OnDiskAt;
    ghost var v, csz, pos0 := fat.Vol(), fat.g.ClusterSize(), file.pos;
    ReadableWithin(v, csz, file.H(), ch);
    ReadLengthExact(file.pos, size, file.size);
    ghost var c := Content(v, csz, ch, file.size);
    var nbytes := ReadLength(file.pos, size, file.size);
    ghost var n := nbytes;
    r := [];
    while nbytes > 0
      invariant fat.Valid() && fat.disk == old(fat.disk)
      invariant file.mode == old(file.mode) && file.pIndex == old(file.pIndex)
      invariant file.size == old(file.size) && file.sblk == old(file.sblk)
      invariant Readable(v, csz, file.H(), ch)
      invariant 0 <= nbytes == n - |r| && file.pos == pos0 + |r| && pos0 + n <= file.size
      invariant r == c[pos0..file.pos]
      decreases nbytes
    {
      ghost var p := file.pos;
      var chunk := ReadNext(fat, file, nbytes, ch);
      SliceJoin(c, pos0, p, file.pos);
      r := r + chunk;
      nbytes := nbytes - |chunk|;
    }
    PartOnDisk(fat.disk, fat.g, file.sblk, ch, file.size, pos0, file.pos);
  }

  lemma ReadableWithin(v: Vol, csz: nat, h: Handle, ch: seq<nat>)
    requires Readable(v, csz, h, ch)
    ensures h.pos <= h.size && Covers(v, csz, ch, h.size) && ChainFrom(v.tbl, h.sblk, ch)
  {
    ReadableCovers(v, csz, h, ch);
  }

  lemma SliceJoin(c: seq<Byte>, i: nat, j: nat, k: nat)
    requires i <= j <= k <= |c|
    ensures c[i..j] + c[j..k] == c[i..k]
  {
  }

  // ----- writing -----

  /** Clusters outside `ch` hold the bytes they held. */
  ghost predicate OnlyData(v: Vol, v': Vol, ch: seq<nat>) {
    && |v'.data| == |v.data|
    && forall c :: 0 <= c < |v.data| && c !in ch ==> v'.data[c] == v.data[c]
  }

  /** `b` was appended: the handle stands at the new end, ready for more, and nothing changed
      outside the file's chain, whose first `keep` clusters are as they were. */
  ghost predicate Appended(v: Vol, csz: nat, h: Handle, ch: seq<nat>, keep: nat, b: seq<Byte>,
                           v': Vol, h': Handle, ch': seq<nat>)
  {
    && Covers(v, csz, ch, h.size)
    && Appendable(v', csz, h', ch') && Covers(v', csz, ch', h'.size)
    && h'.size == h.size + |b|
    && Content(v', csz, ch', h'.size) == Content(v, csz, ch, h.size) + b
    && Grown(v.tbl, ch, keep, v'.tbl, ch')
    && OnlyData(v, v', ch')
    && v'.root == v.root
  }

  /** `b` was appended and ended at the end of the chain with no table entry left: all bytes are
      there, but the position stays where the last round began, in the last cluster. */
  ghost predicate Filled(v: Vol, csz: nat, h: Handle, ch: seq<nat>, keep: nat, b: seq<Byte>,
                         v': Vol, h': Handle, ch': seq<nat>)
  {
    && Covers(v, csz, ch, h.size)
    && Readable(v', csz, h', ch') && Covers(v', csz, ch', h'.size)
    && h'.size == h.size + |b| == csz * |ch'|
    && h'.pos < h'.size && h'.pos / csz == |ch'| - 1
    && Content(v', csz, ch', h'.size) == Content(v, csz, ch, h.size) + b
    && Grown(v.tbl, ch, keep, v'.tbl, ch')
    && OnlyData(v, v', ch')
    && v'.root == v.root && FreeClusters(v'.tbl) == []
  }

  /** How many clusters a round took: one when it ended at the end of the chain. */
  ghost predicate RoundTook(v: Vol, csz: nat, ch: seq<nat>, end: nat, v': Vol, ch': seq<nat>) {
    if end < csz * |ch| then v'.tbl == v.tbl && ch' == ch && |v'.data| == |v.data|
    else |ch'| == |ch| + 1 && Spare(v') == Spare(v) - 1
  }

  /** Storing a chunk and then moving the position completes one round. */
  lemma RoundAppends(v: Vol, csz: nat, h: Handle, ch: seq<nat>, b: seq<Byte>, v1: Vol, v2: Vol, h2: Handle,
                     ch2: seq<nat>)
    requires Appendable(v, csz, h, ch) && ch != []
    requires h.size % csz + |b| <= csz && h.size + |b| <= csz * |ch|
    requires VolOk(v1, csz) && v1.tbl == v.tbl && v1.root == v.root && OnlyData(v, v1, ch)
    requires Covers(v, csz, ch, h.size) && Covers(v1, csz, ch, h.size + |b|)
    requires Content(v1, csz, ch, h.size + |b|) == Content(v, csz, ch, h.size) + b
    requires v2 == v1.(tbl := v2.tbl) && VolOk(v2, csz)
    requires Moved(v1.tbl, |v.data|, csz, h.(size := h.size + |b|), ch, v2.tbl, h2, ch2)
    ensures Appended(v, csz, h, ch, |ch|, b, v2, h2, ch2)
    ensures h2.sblk == h.sblk && h2.size == h.size + |b| && RoundTook(v, csz, ch, h.size + |b|, v2, ch2)
  {
    hide IsPath, ByteAt, Content, Walk, Appendable, ChainFrom, FreeBelow, Moved, VolOk;
    AppendableOnDisk(v, csz, h, ch);
    MovedAppendable(v1.tbl, csz, h.(size := h.size + |b|), ch, v2, h2, ch2);
    MovedTook(v1, csz, h.(size := h.size + |b|), ch, v2, h2, ch2);
    ContentPrefix(v1, v2, csz, ch, ch2, |ch|, h.size + |b|);
    forall k | 0 <= k < |ch| ensures ch[k] in ch2 { assert ch2[..|ch|][k] == ch[k]; }
  }

  /** A chunk stored at the very end, with no way to move on. */
  lemma RoundFills(v: Vol, csz: nat, h: Handle, ch: seq<nat>, b: seq<Byte>, v1: Vol)
    requires Appendable(v, csz, h, ch) && ch != [] && b != []
    requires h.size + |b| == csz * |ch| && FreeClusters(v.tbl) == []
    requires VolOk(v1, csz) && v1.tbl == v.tbl && v1.root == v.root && OnlyData(v, v1, ch)
    requires Covers(v, csz, ch, h.size) && Covers(v1, csz, ch, h.size + |b|)
    requires Content(v1, csz, ch, h.size + |b|) == Content(v, csz, ch, h.size) + b
    requires h.size % csz + |b| <= csz
    ensures Filled(v, csz, h, ch, |ch|, b, v1, h.(size := h.size + |b|), ch)
  {
    hide IsPath, ByteAt, Content, Walk, ChainFrom, FreeClusters;
    EndReached(h.size, |b|, csz, |ch|);
    GrownRefl(v.tbl, ch, |ch|);
  }

  lemma MovedTook(v1: Vol, csz: nat, h: Handle, ch: seq<nat>, v2: Vol, h2: Handle, ch2: seq<nat>)
    requires Moved(v1.tbl, |v1.data|, csz, h, ch, v2.tbl, h2, ch2) && |v2.data| == |v1.data|
    requires h.size <= csz * |ch|
    ensures h2.sblk == h.sblk && h2.size == h.size && RoundTook(v1, csz, ch, h.size, v2, ch2)
    ensures Grown(v1.tbl, ch, |ch|, v2.tbl, ch2)
  {
    hide IsPath, FreeBelow, Grown;
    if h.size < csz * |ch| {
      CoversIndex(csz * |ch|, csz, |ch|, h.size);
    } else {
      ModUnique(csz * |ch|, csz, |ch|, 0);
    }
  }

  lemma AppendableOnDisk(v: Vol, csz: nat, h: Handle, ch: seq<nat>)
    requires Appendable(v, csz, h, ch)
    ensures OnDisk(v, ch) && h.sblk < 0x1_0000
  {
  }

  lemma MovedAppendable(t: seq<nat>, csz: nat, h: Handle, ch: seq<nat>, v2: Vol, h2: Handle, ch2: seq<nat>)
    requires Moved(t, |v2.data|, csz, h, ch, v2.tbl, h2, ch2) && VolOk(v2, csz)
    requires OnDisk(v2, ch) && h.sblk < 0x1_0000
    ensures Appendable(v2, csz, h2, ch2) && Covers(v2, csz, ch2, h2.size)
  {
    hide IsPath, Walk, FreeBelow;
    PathWalk(v2.tbl, h2.sblk, ch2, h2.pos / csz);
    PosCovered(h2.size, csz, |ch2|);
    forall k | 0 <= k < |ch2| ensures ch2[k] < |v2.data| {
      if k < |ch| { assert ch2[..|ch|][k] == ch[k]; }
    }
    ReadableCovers(v2, csz, h2, ch2);
  }

  /** The cluster that takes the next byte. */
  lemma CurrentCluster(v: Vol, csz: nat, h: Handle, ch: seq<nat>)
    requires Appendable(v, csz, h, ch) && ch != []
    ensures h.size / csz < |ch| && h.cblk == ch[h.size / csz]
    ensures 2 <= h.cblk < |v.data| && |v.data[h.cblk]| == csz && InTable(v.tbl, h.cblk)
  {
    PathWalk(v.tbl, h.sblk, ch, h.size / csz);
  }

  ghost function Stored(v: Vol, c: nat, o: nat, b: seq<Byte>): Vol
    requires c < |v.data| && o + |b| <= |v.data[c]|
  {
    v.(data := v.data[c := v.data[c][..o] + b + v.data[c][o + |b|..]])
  }

  lemma StoredWhole(v: Vol, c: nat, b: seq<Byte>)
    requires c < |v.data| && |b| == |v.data[c]|
    ensures Stored(v, c, 0, b) == v.(data := v.data[c := b])
  {
    assert v.data[c][..0] + b + v.data[c][|b|..] == b;
  }

  /** What a write that ends exactly at the end of the chain finds: the mark the driver looks
      for there, and one more cluster or no free table entry at all. */
  ghost predicate EndReady(v: Vol, ch: seq<nat>) {
    && ch != [] && ch[|ch| - 1] < |v.tbl| && v.tbl[ch[|ch| - 1]] == CLUSTER_INVALID
    && (Spare(v) >= 1 || FreeClusters(v.tbl) == [])
  }

  /** Storing a chunk into the current cluster appends it and leaves the position to be moved. */
  lemma ChunkAppends(v: Vol, csz: nat, h: Handle, ch: seq<nat>, b: seq<Byte>)
    requires Appendable(v, csz, h, ch) && ch != []
    requires h.size % csz + |b| <= csz && h.size + |b| <= csz * |ch|
    requires h.size + |b| == csz * |ch| ==> EndReady(v, ch)
    ensures 2 <= h.cblk < |v.data| && |v.data[h.cblk]| == csz
    ensures Covers(v, csz, ch, h.size) && Covers(v, csz, ch, h.size + |b|)
    ensures var v1 := Stored(v, h.cblk, h.size % csz, b);
      && VolOk(v1, csz) && OnlyData(v, v1, ch) && Covers(v1, csz, ch, h.size + |b|)
      && Content(v1, csz, ch, h.size + |b|) == Content(v, csz, ch, h.size) + b
      && Moving(v1.tbl, |v.data|, csz, h.(size := h.size + |b|), ch, |b|)
  {
    hide Content, IsPath, FreeBelow, FreeClusters, Walk, ByteAt, Moving, EndReady, ChainFrom, Appendable, VolOk,
         OnlyData, Covers;
    CurrentCluster(v, csz, h, ch);
    AppendableParts(v, csz, h, ch);
    ReadableCovers(v, csz, h, ch);
    ReadableCovers(v, csz, h.(size := h.size + |b|), ch);
    ContentAppend(v, csz, h.sblk, ch, h.size, b);
    assert ch[h.size / csz] in ch;
    StoredShapes(v, csz, h.cblk, h.size % csz, b, ch, h.size + |b|);
    ChunkMoves(v, csz, h, ch, |b|);
  }

  /** Storing into a cluster of the chain leaves all shapes as they were. */
  lemma StoredShapes(v: Vol, csz: nat, c: nat, o: nat, b: seq<Byte>, ch: seq<nat>, size: nat)
    requires VolOk(v, csz) && 2 <= c < |v.data| && o + |b| <= csz && c in ch && Covers(v, csz, ch, size)
    ensures |v.data[c]| == csz
    ensures var v1 := Stored(v, c, o, b);
      v1.tbl == v.tbl && VolOk(v1, csz) && OnlyData(v, v1, ch) && Covers(v1, csz, ch, size)
  {
  }

  lemma AppendableParts(v: Vol, csz: nat, h: Handle, ch: seq<nat>)
    requires Appendable(v, csz, h, ch)
    ensures VolOk(v, csz) && ChainFrom(v.tbl, h.sblk, ch) && OnDisk(v, ch) && h.size <= csz * |ch| && h.pos == h.size
  {
  }

  /** After a chunk of `m` bytes is stored the position can be moved. */
  lemma ChunkMoves(v: Vol, csz: nat, h: Handle, ch: seq<nat>, m: nat)
    requires Appendable(v, csz, h, ch) && ch != [] && h.size % csz + m <= csz
    requires h.size + m == csz * |ch| ==> EndReady(v, ch)
    ensures Moving(v.tbl, |v.data|, csz, h.(size := h.size + m), ch, m)
  {
    hide IsPath, FreeBelow, FreeClusters, Walk;
    CurrentCluster(v, csz, h, ch);
    EndReached(h.size, m, csz, |ch|);
  }

  lemma EndReached(size: nat, m: nat, csz: nat, n: nat)
    requires csz > 0 && size / csz < n && size % csz + m <= csz
    ensures size % csz + m == csz && size / csz + 1 == n <==> size + m == csz * n
  {
    var q := size / csz;
    assert size == csz * q + size % csz;
    assert csz * (q + 1) == csz * q + csz;
    MovePos(size, m, csz);
    if size + m == csz * n { ModUnique(csz * n, csz, n, 0); }
  }

  lemma PosCovered(p: nat, csz: nat, n: nat)
    requires csz > 0 && p / csz < n
    ensures p < csz * n
  {
    MulMono(p / csz + 1, n, csz);
    assert p == csz * (p / csz) + p % csz;
  }

  /** The round leaves no room and finds no free table entry. */
  ghost predicate AtFullEnd(v: Vol, csz: nat, ch: seq<nat>, end: nat) {
    end == csz * |ch| && FreeClusters(v.tbl) == []
  }

  method WriteNext(fat: Fat, file: File, buf: seq<Byte>, ghost ch: seq<nat>)
    returns (err: int, n: nat, ghost ch': seq<nat>)
    requires fat.Valid() && Appendable(fat.Vol(), fat.g.ClusterSize(), file.H(), ch)
    requires ch != [] && |buf| > 0 && file.size + |buf| <= fat.g.ClusterSize() * |ch|
    requires file.size + |buf| == fat.g.ClusterSize() * |ch| ==> EndReady(fat.Vol(), ch)
    modifies fat`disk, fat`currSector, fat.buffer, file
    ensures fat.Valid() && fat.KeepsMirror()
    ensures file.mode == old(file.mode) && file.pIndex == old(file.pIndex) && file.sblk == old(file.sblk)
    ensures 0 < n <= |buf| && file.size == old(file.size) + n
    ensures err == if AtFullEnd(old(fat.Vol()), fat.g.ClusterSize(), ch, file.size) then -1 else 0
    ensures if err == 0
      then
        && Appended(old(fat.Vol()), fat.g.ClusterSize(), old(file.H()), ch, |ch|, buf[..n], fat.Vol(), file.H(), ch')
        && RoundTook(old(fat.Vol()), fat.g.ClusterSize(), ch, file.size, fat.Vol(), ch')
      else
        && ch' == ch
        && Filled(old(fat.Vol()), fat.g.ClusterSize(), old(file.H()), ch, |ch|, buf[..n], fat.Vol(), file.H(), ch')
  {
    hide VolOf, Mirrored, Fat.CacheAgrees, Content, IsPath, Walk, Moved, Moving, Covers, Appended, OnlyData, FreeBelow,
         EndReady, RoundTook, ChainFrom, VolOk, Filled, FreeClusters;
    var csz := fat.g.secPerCluster * SECTOR_SIZE;
    ghost var v, h := fat.Vol(), file.H();
    var currWrite := |buf|;
    var clusterOffset := file.pos % csz;
    CurrentCluster(v, csz, h, ch);
    if clusterOffset == 0 && |buf| == csz {
      ChunkAppends(v, csz, h, ch, buf[..currWrite]);
      WriteWhole(fat, file.cblk, buf);
      assert buf[..csz] == buf[..currWrite];
      StoredWhole(v, h.cblk, buf[..currWrite]);
      currWrite := csz;
    } else {
      if clusterOffset + currWrite > csz {
        currWrite := csz - clusterOffset;
      }
      ChunkAppends(v, csz, h, ch, buf[..currWrite]);
      WriteChunk(fat, file.cblk, clusterOffset, buf[..currWrite]);
    }
    n := currWrite;
    ghost var v1 := fat.Vol();
    file.size := file.size + currWrite;
    VolOfOk(fat.disk, fat.g);
    EndReached(h.size, n, csz, |ch|);
    err, ch' := MoveFilePos(fat, file, currWrite, true, ch);
    VolOfOk(fat.disk, fat.g);
    if err < 0 {
      RoundFills(v, csz, h, ch, buf[..n], v1);
    } else {
      RoundAppends(v, csz, h, ch, buf[..n], v1, fat.Vol(), file.H(), ch');
    }
  }

  lemma FilledTrans(v0: Vol, csz: nat, h0: Handle, ch0: seq<nat>, keep: nat, b1: seq<Byte>,
                    v1: Vol, h1: Handle, ch1: seq<nat>, b2: seq<Byte>, v2: Vol, h2: Handle, ch2: seq<nat>)
    requires Appended(v0, csz, h0, ch0, keep, b1, v1, h1, ch1)
    requires Filled(v1, csz, h1, ch1, |ch1|, b2, v2, h2, ch2)
    ensures Filled(v0, csz, h0, ch0, keep, b1 + b2, v2, h2, ch2)
  {
    hide Content, Grown, Covers, VolOk, IsPath, Walk, FreeClusters;
    GrownTrans(v0.tbl, ch0, keep, v1.tbl, ch1, v2.tbl, ch2);
    GrownHolds(v1.tbl, ch1, v2.tbl, ch2);
    assert Content(v0, csz, ch0, h0.size) + (b1 + b2) == Content(v0, csz, ch0, h0.size) + b1 + b2;
  }

  lemma AppendedTrans(v0: Vol, csz: nat, h0: Handle, ch0: seq<nat>, keep: nat, b1: seq<Byte>,
                      v1: Vol, h1: Handle, ch1: seq<nat>, b2: seq<Byte>, v2: Vol, h2: Handle, ch2: seq<nat>)
    requires Appended(v0, csz, h0, ch0, keep, b1, v1, h1, ch1)
    requires Appended(v1, csz, h1, ch1, |ch1|, b2, v2, h2, ch2)
    ensures Appended(v0, csz, h0, ch0, keep, b1 + b2, v2, h2, ch2)
  {
    hide Content, Grown, Covers, VolOk, IsPath, Walk;
    GrownTrans(v0.tbl, ch0, keep, v1.tbl, ch1, v2.tbl, ch2);
    GrownHolds(v1.tbl, ch1, v2.tbl, ch2);
    assert Content(v0, csz, ch0, h0.size) + (b1 + b2) == Content(v0, csz, ch0, h0.size) + b1 + b2;
  }

  lemma GrownHolds(t: seq<nat>, ch: seq<nat>, t': seq<nat>, ch': seq<nat>)
    requires Grown(t, ch, |ch|, t', ch')
    ensures forall c :: c in ch ==> c in ch'
    ensures |ch| <= |ch'|
  {
    forall k | 0 <= k < |ch| ensures ch[k] in ch' { assert ch'[..|ch|][k] == ch[k]; }
  }

  /** Clusters a write finds: all it needs, or all but the one behind the end of the chain when
      no table entry is left for that. */
  ghost predicate EnoughFor(v: Vol, size: nat, n: nat, csz: nat, len: nat)
    requires 0 < csz < TWO32
  {
    || WriteNeeds(size, n, csz, len) <= Spare(v)
    || ExpandCount(size, n, csz) == Spare(v) == |FreeClusters(v.tbl)|
  }

  /** The first expansion appends nothing yet but makes room for `inc` bytes. */
  lemma ExpandAppends(v: Vol, g: Geometry, csz: nat, h: Handle, ch: seq<nat>, inc: nat, v1: Vol, h1: Handle,
                      ch1: seq<nat>)
    requires 0 < csz < TWO32 && csz == g.ClusterSize()
    requires g.Ok() && 0 < inc < 0x8000_0000
    requires ch != [] ==> h.size / csz < |ch|
    requires Expanded(v.tbl, |v.data|, h, ch, h.size / csz, ExpandCount(h.size, inc, csz), 0, v1.tbl, h1, ch1)
    requires Appendable(v, csz, h, ch) && EnoughFor(v, h.size, inc, csz, |ch|)
    requires v1 == v.(tbl := v1.tbl) && VolOk(v1, csz)
    ensures Appended(v, csz, h, ch, Base(h.size, csz, ch == []), [], v1, h1, ch1)
    ensures ch1 != [] && h.size + inc <= csz * |ch1|
    ensures |ch1| == ExpandedLen(h.size, inc, csz, |ch|)
    ensures Spare(v1) == Spare(v) - ExpandCount(h.size, inc, csz)
    ensures |FreeClusters(v1.tbl)| == |FreeClusters(v.tbl)| - ExpandCount(h.size, inc, csz)
    ensures h.size + inc == csz * |ch1| ==> EndReady(v1, ch1)
  {
    hide Content, IsPath, Walk, FreeBelow, ExpandCount, Grown, ChainFrom, Appended, OnlyData, Covers;
    var k := ClusterSizePow2(g);
    var cnt := ExpandCount(h.size, inc, csz);
    var base := Base(h.size, csz, ch == []);
    ExpandCovers(h.size, inc, csz, k, ch == []);
    EmptySize(v, csz, h, ch);
    if cnt == 0 {
      NothingAppended(v, csz, h, ch);
      CountPositive(g, h.size, inc);
      RoomLeft(h.size, inc, csz, |ch|);
    } else {
      ExpandedAppendable(v, csz, h, ch, cnt, v1, h1, ch1);
      SomethingGrown(v, csz, h, ch, base, v1, h1, ch1);
    }
  }

  /** A volume as it was counts as nothing appended. */
  lemma NothingAppended(v: Vol, csz: nat, h: Handle, ch: seq<nat>)
    requires Appendable(v, csz, h, ch)
    ensures Covers(v, csz, ch, h.size)
    ensures Appended(v, csz, h, ch, Base(h.size, csz, ch == []), [], v, h, ch)
  {
    hide Content, IsPath, Walk, FreeClusters, Grown, ChainFrom;
    AppendableCovers(v, csz, h, ch);
    EmptySize(v, csz, h, ch);
    GrownRefl(v.tbl, ch, Base(h.size, csz, ch == []));
    assert Content(v, csz, ch, h.size) + [] == Content(v, csz, ch, h.size);
  }

  /** A longer chain with the same first clusters counts as nothing appended. */
  lemma SomethingGrown(v: Vol, csz: nat, h: Handle, ch: seq<nat>, base: nat, v1: Vol, h1: Handle, ch1: seq<nat>)
    requires Appendable(v, csz, h, ch) && Appendable(v1, csz, h1, ch1) && Covers(v1, csz, ch1, h1.size)
    requires h1.size == h.size <= csz * base && base <= |ch| && base <= |ch1| && ch1[..base] == ch[..base]
    requires OnlyData(v, v1, ch1) && Grown(v.tbl, ch, base, v1.tbl, ch1) && v1.root == v.root && v1.data == v.data
    ensures Appended(v, csz, h, ch, base, [], v1, h1, ch1)
  {
    hide Content, IsPath, Walk, FreeClusters, Grown, ChainFrom;
    AppendableCovers(v, csz, h, ch);
    ContentPrefix(v, v1, csz, ch, ch1, base, h.size);
    assert Content(v, csz, ch, h.size) + [] == Content(v, csz, ch, h.size);
  }

  lemma AppendableCovers(v: Vol, csz: nat, h: Handle, ch: seq<nat>)
    requires Appendable(v, csz, h, ch)
    ensures Covers(v, csz, ch, h.size)
  {
    ReadableCovers(v, csz, h, ch);
  }

  /** Bytes that fit behind the last one in its cluster lie inside the chain. */
  lemma RoomLeft(size: nat, inc: nat, csz: nat, n: nat)
    requires csz > 0 && size / csz < n && size % csz + inc < csz
    ensures size + inc < csz * n
  {
    MovePos(size, inc, csz);
    PosCovered(size + inc, csz, n);
  }

  lemma EmptySize(v: Vol, csz: nat, h: Handle, ch: seq<nat>)
    requires Appendable(v, csz, h, ch)
    ensures ch == [] ==> h.size == 0
    ensures h.size <= csz * Base(h.size, csz, ch == [])
    ensures Base(h.size, csz, ch == []) <= |ch|
  {
    if ch != [] { PosCovered(h.size, csz, h.size / csz + 1); }
  }

  lemma ExpandedAppendable(v: Vol, csz: nat, h: Handle, ch: seq<nat>, cnt: nat, v1: Vol, h1: Handle, ch1: seq<nat>)
    requires Appendable(v, csz, h, ch)
    requires 0 < cnt <= Spare(v)
    requires Expanded(v.tbl, |v.data|, h, ch, h.size / csz, cnt, 0, v1.tbl, h1, ch1)
    requires v1 == v.(tbl := v1.tbl) && VolOk(v1, csz)
    ensures var base := Base(h.size, csz, ch == []);
      && Appendable(v1, csz, h1, ch1) && Covers(v1, csz, ch1, h1.size)
      && h1.size == h.size && |ch1| == base + cnt && base <= |ch| && ch1[..base] == ch[..base]
      && OnlyData(v, v1, ch1) && Grown(v.tbl, ch, base, v1.tbl, ch1)
    ensures Spare(v1) == Spare(v) - cnt && |FreeClusters(v1.tbl)| == |FreeClusters(v.tbl)| - cnt
    ensures Spare(v1) >= 1 || FreeClusters(v1.tbl) == [] ==> EndReady(v1, ch1)
  {
    hide IsPath, FreeBelow, Walk, Grown, Expanded, ChainFrom;
    var base := Base(h.size, csz, ch == []);
    EmptySize(v, csz, h, ch);
    ExpandedHandle(v, csz, h, ch, cnt, v1, h1, ch1);
    CoversIndexLe(h.size, csz, base, |ch1|);
    ReadableCovers(v1, csz, h1, ch1);
  }

  /** The handle after an expansion stands at the same byte, in a cluster of the new chain. */
  lemma ExpandedHandle(v: Vol, csz: nat, h: Handle, ch: seq<nat>, cnt: nat, v1: Vol, h1: Handle, ch1: seq<nat>)
    requires Appendable(v, csz, h, ch) && csz > 0
    requires 0 < cnt <= Spare(v)
    requires Expanded(v.tbl, |v.data|, h, ch, h.size / csz, cnt, 0, v1.tbl, h1, ch1)
    requires v1 == v.(tbl := v1.tbl)
    ensures var base := Base(h.size, csz, ch == []);
      && |ch1| == base + cnt && base <= |ch| && ch1[..base] == ch[..base] && Grown(v.tbl, ch, base, v1.tbl, ch1)
    ensures h1.size == h.size && h1.pos == h.pos && h1.sblk < 0x1_0000
    ensures ChainFrom(v1.tbl, h1.sblk, ch1) && OnDisk(v1, ch1)
    ensures ch1[|ch1| - 1] < |v1.tbl| && v1.tbl[ch1[|ch1| - 1]] == CLUSTER_INVALID
    ensures h1.cblk == Walk(v1.tbl, h1.sblk, h.size / csz) && h.size / csz < |ch1|
    ensures Spare(v1) == Spare(v) - cnt && |FreeClusters(v1.tbl)| == |FreeClusters(v.tbl)| - cnt
  {
    hide IsPath, FreeBelow, FreeClusters, Walk, Grown, Expanded, GrownChain, ChainFrom;
    var base := Base(h.size, csz, ch == []);
    EmptySize(v, csz, h, ch);
    HandleFacts(v, csz, h, ch);
    var i := h.size / csz;
    GrownOnDisk(v, ch, i, cnt);
    ExpandedShape(v.tbl, |v.data|, h, ch, i, cnt, v1.tbl, h1, ch1);
    ChainWalk(v1.tbl, h1.sblk, ch1, i);
    ChainWalk(v1.tbl, h1.sblk, ch1, |ch1| - 1);
    ChainWalk(v1.tbl, h1.sblk, ch1, 0);
  }

  lemma HandleFacts(v: Vol, csz: nat, h: Handle, ch: seq<nat>)
    requires Appendable(v, csz, h, ch)
    ensures OnDisk(v, ch) && h.sblk < 0x1_0000 && |v.data| <= |v.tbl| && h.pos == h.size
    ensures ch != [] ==> h.size / csz < |ch| && InTable(v.tbl, h.cblk) && h.cblk == ch[h.size / csz]
  {
    if ch != [] { CurrentCluster(v, csz, h, ch); }
  }

  lemma ChainWalk(t: seq<nat>, s: int, ch: seq<nat>, k: nat)
    requires ChainFrom(t, s, ch) && k < |ch|
    ensures Walk(t, s, k) == ch[k] && InTable(t, ch[k]) && s == ch[0]
  {
    hide Walk;
    PathWalk(t, s, ch, k);
  }

  lemma ExpandedShape(t: seq<nat>, lim: nat, h: Handle, ch: seq<nat>, i: nat, cnt: nat, t': seq<nat>, h': Handle,
                      ch': seq<nat>)
    requires ch != [] ==> i < |ch| && InTable(t, h.cblk)
    requires 0 < cnt <= |FreeClusters(t)|
    requires Expanded(t, lim, h, ch, i, cnt, 0, t', h', ch')
    ensures var base := if ch == [] then 0 else i + 1;
      && |ch'| == base + cnt && ch'[..base] == ch[..base] && (ch != [] ==> ch'[i] == ch[i])
      && Grown(t, ch, base, t', ch')
    ensures ch' == GrownChain(t, ch, i, cnt) && ChainFrom(t', h'.sblk, ch')
    ensures h' == if ch == [] then h.(sblk := ch'[0], cblk := ch'[0]) else h
    ensures ch'[|ch'| - 1] < |t'| && t'[ch'[|ch'| - 1]] == CLUSTER_INVALID
    ensures |FreeBelow(t', lim)| == if cnt <= |FreeBelow(t, lim)| then |FreeBelow(t, lim)| - cnt else 0
    ensures |FreeClusters(t')| == |FreeClusters(t)| - cnt
  {
    hide IsPath, Grown, FreeBelow;
    if ch' != [] { NextInChain(t', h'.sblk, ch', |ch'| - 1); }
  }

  lemma CoversIndexLe(size: nat, csz: nat, base: nat, n: nat)
    requires csz > 0 && size <= csz * base && base <= n
    ensures size <= csz * n
  {
    MulMono(base, n, csz);
  }

  /** What `fatfs_write` of `b` at the end of a file answers and leaves. Without enough free
      table entries nothing happens. When the file has clusters but no current one, which is so
      after reading a file that exactly fills its chain to its end, the clusters are allocated
      and lost. When it ends at the end of the chain and no entry is left for one cluster more,
      all bytes are stored but the position does not follow. */
  ghost predicate Written(v: Vol, csz: nat, h: Handle, ch: seq<nat>, b: seq<Byte>, r: nat,
                          v': Vol, h': Handle, ch': seq<nat>)
    requires 0 < csz < TWO32
  {
    var cnt := ExpandCount(h.size, |b|, csz);
    if b == [] || cnt > |FreeClusters(v.tbl)| then
      r == 0 && v' == v && h' == h && ch' == ch
    else if ch != [] && !ClusterIsValid(h.cblk) then
      r == 0 && h' == h && ch' == ch && v' == v.(tbl := v'.tbl) && Leaked(v.tbl, cnt, v'.tbl)
    else if AtBoundary(h.size, |b|, csz, |ch|) && cnt == |FreeClusters(v.tbl)| then
      && r == |b| && Filled(v, csz, h, ch, Base(h.size, csz, ch == []), b, v', h', ch')
      && |ch'| == ExpandedLen(h.size, |b|, csz, |ch|)
    else
      && r == |b| && Appended(v, csz, h, ch, Base(h.size, csz, ch == []), b, v', h', ch')
      && |ch'| == WrittenLen(h.size, |b|, csz, |ch|)
      && Spare(v') == Spare(v) - WriteNeeds(h.size, |b|, csz, |ch|)
  }

  /** `fatfs_write` at the end of a file. */
  method FatfsWrite(fat: Fat, file: File, buf: seq<Byte>, ghost ch: seq<nat>) returns (r: nat, ghost ch': seq<nat>)
    requires fat.Valid() && AtEnd(fat.Vol(), fat.g.ClusterSize(), file.H(), ch)
    requires file.pos + |buf| < 0x8000_0000 && 0 < fat.g.ClusterSize() < TWO32
    requires Appendable(fat.Vol(), fat.g.ClusterSize(), file.H(), ch) ==>
      || EnoughFor(fat.Vol(), file.size, |buf|, fat.g.ClusterSize(), |ch|)
      || |FreeClusters(fat.Vol().tbl)| < ExpandCount(file.size, |buf|, fat.g.ClusterSize())
    modifies fat`disk, fat`currSector, fat.buffer, file
    ensures fat.Valid() && fat.KeepsMirror()
    ensures file.mode == old(file.mode) && file.pIndex == old(file.pIndex)
    ensures Written(old(fat.Vol()), fat.g.ClusterSize(), old(file.H()), ch, buf, r, fat.Vol(), file.H(), ch')
    ensures r <= |buf| && forall i :: 0 <= i < r ==> OnDiskAt(fat.disk, fat.g, ch', old(file.size) + i, buf[i])
  {
    hide VolOf, Mirrored, Fat.CacheAgrees, Content, ChainFrom, Walk, Grown, FreeBelow, Appended, Covers, ExpandCount,
         WriteNeeds, ExpandedLen, Appendable, Expanded, Base, Filled, FreeClusters, EnoughFor, OnDiskAt;
    ghost var v0, h0, csz := fat.Vol(), file.H(), fat.g.ClusterSize();
    AppendableIff(v0, csz, h0, ch);
    if file.pos + |buf| > file.size {
      var incSize := file.pos + |buf| - file.size;
      var err;
      StartsAt(v0, csz, h0, ch);
      err, ch' := ExpandFile(fat, file, incSize, ch, file.size / csz);
      ExpandOutcome(v0, fat.g, h0, ch, incSize, err, fat.Vol(), file.H(), ch');
      if err < 0 {
        return 0, ch;
      }
      VolOfOk(fat.disk, fat.g);
      ghost var v1, ch1 := fat.Vol(), ch';
      ExpandAppends(v0, fat.g, csz, h0, ch, incSize, v1, file.H(), ch1);
      AppendedIsAppendable(v0, csz, h0, ch, Base(h0.size, csz, ch == []), [], v1, file.H(), ch1);
      r, ch' := WriteRounds(fat, file, buf, v0, h0, ch, ch1);
      EnoughMeans(v0, h0.size, |buf|, csz, |ch|);
      if !AtFullEnd(v1, csz, ch1, h0.size + |buf|) {
        WriteTook(v0, csz, h0.size, |buf|, ch, v1, ch1, fat.Vol(), ch');
      }
      WrittenOnDisk(v0, fat.disk, fat.g, h0, ch, buf, r, file.H(), ch');
    } else {
      r, ch' := 0, ch;
    }
  }

  /** The bytes written are on the disk, in the clusters of the new chain. */
  lemma WrittenOnDisk(v: Vol, d': seq<Sector>, g: Geometry, h: Handle, ch: seq<nat>, b: seq<Byte>, r: nat, h': Handle,
                      ch': seq<nat>)
    requires Fits(d', g) && 0 < g.ClusterSize() < TWO32
    requires Written(v, g.ClusterSize(), h, ch, b, r, VolOf(d', g), h', ch')
    ensures r <= |b| && forall i :: 0 <= i < r ==> OnDiskAt(d', g, ch', h.size + i, b[i])
  {
    hide VolOf, Fits, Content, Covers, Walk, IsPath, Grown, OnlyData, ExpandCount, FreeBelow, FreeClusters, OnDiskAt,
         WrittenLen, ExpandedLen, WriteNeeds;
    if r > 0 {
      var was, now := Content(v, g.ClusterSize(), ch, h.size), Content(VolOf(d', g), g.ClusterSize(), ch', h'.size);
      assert now == was + b && now[h.size..h'.size] == b;
      PartOnDisk(d', g, h'.sblk, ch', h'.size, h.size, h'.size);
    }
  }

  lemma EnoughMeans(v: Vol, size: nat, n: nat, csz: nat, len: nat)
    requires 0 < csz < TWO32 && EnoughFor(v, size, n, csz, len) && |v.data| <= |v.tbl|
    ensures ExpandCount(size, n, csz) <= |FreeClusters(v.tbl)|
  {
    hide ExpandCount, FreeBelow;
    FreeBelowPrefix(v.tbl, |v.data|, |v.tbl|);
  }

  /** Clusters a write takes in all. */
  lemma WriteTook(v: Vol, csz: nat, size: nat, n: nat, ch: seq<nat>, v1: Vol, ch1: seq<nat>, v2: Vol, ch2: seq<nat>)
    requires 0 < csz < TWO32 && n > 0 && size + n <= csz * |ch1|
    requires |ch1| == ExpandedLen(size, n, csz, |ch|) && Spare(v1) == Spare(v) - ExpandCount(size, n, csz)
    requires RoundTook(v1, csz, ch1, size + n, v2, ch2)
    ensures |ch2| == WrittenLen(size, n, csz, |ch|) && Spare(v2) == Spare(v) - WriteNeeds(size, n, csz, |ch|)
  {
    hide FreeBelow, ExpandCount, ExpandedLen;
  }

  /** Which of the outcomes of the first expansion it is. */
  lemma ExpandOutcome(v: Vol, g: Geometry, h: Handle, ch: seq<nat>, inc: nat, err: int, v1: Vol, h1: Handle,
                      ch1: seq<nat>)
    requires g.Ok() && 0 < inc < 0x8000_0000 && 0 < g.ClusterSize() < TWO32
    requires AtEnd(v, g.ClusterSize(), h, ch)
    requires ch != [] && InTable(v.tbl, h.cblk) ==> h.size / g.ClusterSize() < |ch|
    requires Expanded(v.tbl, |v.data|, h, ch, h.size / g.ClusterSize(), ExpandCount(h.size, inc, g.ClusterSize()), err,
                      v1.tbl, h1, ch1)
    requires v1 == v.(tbl := v1.tbl)
    ensures var cnt := ExpandCount(h.size, inc, g.ClusterSize());
      && (cnt > |FreeClusters(v.tbl)| ==> err == -1 && v1 == v && h1 == h && ch1 == ch)
      && (cnt <= |FreeClusters(v.tbl)| && ch != [] && !ClusterIsValid(h.cblk) ==>
            err == -1 && Leaked(v.tbl, cnt, v1.tbl) && h1 == h && ch1 == ch)
      && (cnt <= |FreeClusters(v.tbl)| && (ch == [] || ClusterIsValid(h.cblk)) ==>
            err == 0 && Appendable(v, g.ClusterSize(), h, ch))
  {
    hide IsPath, Walk, FreeBelow, Grown;
    AppendableIff(v, g.ClusterSize(), h, ch);
    ChainHead(v.tbl, h.sblk, ch);
    CountPositive(g, h.size, inc);
    if ch != [] && !ClusterIsValid(h.cblk) { NoCurrent(v, g.ClusterSize(), h, ch); }
  }

  /** A file with clusters but no current one exactly fills its chain. */
  lemma NoCurrent(v: Vol, csz: nat, h: Handle, ch: seq<nat>)
    requires AtEnd(v, csz, h, ch) && ch != []
    ensures !ClusterIsValid(h.cblk) <==> h.size == csz * |ch|
    ensures h.size == csz * |ch| ==> h.size > 0 && h.size % csz == 0
  {
    AppendableIff(v, csz, h, ch);
    if h.size == csz * |ch| {
      ModUnique(csz * |ch|, csz, |ch|, 0);
      MulMono(1, |ch|, csz);
    } else {
      CoversIndex(csz * |ch|, csz, |ch|, h.size);
    }
  }

  /** The loop of `fatfs_write`. */
  method WriteRounds(fat: Fat, file: File, buf: seq<Byte>, ghost v0: Vol, ghost h0: Handle, ghost ch: seq<nat>,
                     ghost ch1: seq<nat>)
    returns (total: nat, ghost ch': seq<nat>)
    requires fat.Valid() && fat.g.ClusterSize() > 0 && |buf| > 0
    requires Appended(v0, fat.g.ClusterSize(), h0, ch, Base(h0.size, fat.g.ClusterSize(), ch == []), [],
                      fat.Vol(), file.H(), ch1)
    requires ch1 != [] && file.size + |buf| <= fat.g.ClusterSize() * |ch1|
    requires file.size + |buf| == fat.g.ClusterSize() * |ch1| ==> EndReady(fat.Vol(), ch1)
    modifies fat`disk, fat`currSector, fat.buffer, file
    ensures fat.Valid() && fat.KeepsMirror()
    ensures file.mode == old(file.mode) && file.pIndex == old(file.pIndex)
    ensures total == |buf| && file.size == old(file.size) + |buf|
    ensures if AtFullEnd(old(fat.Vol()), fat.g.ClusterSize(), ch1, file.size)
      then
        && ch' == ch1
        && Filled(v0, fat.g.ClusterSize(), h0, ch, Base(h0.size, fat.g.ClusterSize(), ch == []), buf,
                  fat.Vol(), file.H(), ch')
      else
        && Appended(v0, fat.g.ClusterSize(), h0, ch, Base(h0.size, fat.g.ClusterSize(), ch == []), buf,
                    fat.Vol(), file.H(), ch')
        && RoundTook(old(fat.Vol()), fat.g.ClusterSize(), ch1, file.size, fat.Vol(), ch')
  {
    hide VolOf, Mirrored, Fat.CacheAgrees, Content, ChainFrom, Walk, Grown, FreeBelow, Appended, Covers, Appendable,
         Base, EndReady, Filled, FreeClusters;
    ghost var v1 := fat.Vol();
    ghost var size := fat.g.ClusterSize();
    ghost var keep := Base(h0.size, size, ch == []);
    ghost var end := file.size + |buf|;
    total, ch' := 0, ch1;
    assert buf[..0] == [];
    while total < |buf|
      invariant total <= |buf|
      invariant fat.Valid() && fat.KeepsMirror()
      invariant file.mode == old(file.mode) && file.pIndex == old(file.pIndex)
      invariant Appended(v0, size, h0, ch, keep, buf[..total], fat.Vol(), file.H(), ch')
      invariant file.size == end - |buf| + total
      invariant if total < |buf| then fat.Vol().tbl == v1.tbl && |fat.Vol().data| == |v1.data| && ch' == ch1
                else !AtFullEnd(v1, size, ch1, end) && RoundTook(v1, size, ch1, file.size, fat.Vol(), ch')
    {
      ghost var v, h, c := fat.Vol(), file.H(), ch';
      AppendedIsAppendable(v0, size, h0, ch, keep, buf[..total], v, h, c);
      if end == size * |ch1| { EndStillReady(v1, v, ch1); }
      var err, n;
      err, n, ch' := WriteNext(fat, file, buf[total..], ch');
      if err < 0 {
        FilledTrans(v0, size, h0, ch, keep, buf[..total], v, h, c, buf[total..][..n], fat.Vol(), file.H(), ch');
        PrefixJoin(buf, total, n);
        total := total + n;
        assert buf[..|buf|] == buf;
        return total, ch';
      }
      AppendedTrans(v0, size, h0, ch, keep, buf[..total], v, h, c, buf[total..][..n], fat.Vol(), file.H(), ch');
      PrefixJoin(buf, total, n);
      total := total + n;
    }
    assert buf[..|buf|] == buf;
  }

  lemma PrefixJoin(b: seq<Byte>, i: nat, n: nat)
    requires i + n <= |b|
    ensures b[..i] + b[i..][..n] == b[..i + n]
  {
  }

  lemma EndStillReady(v: Vol, v': Vol, ch: seq<nat>)
    requires EndReady(v, ch) && v'.tbl == v.tbl && |v'.data| == |v.data|
    ensures EndReady(v', ch)
  {
  }

  lemma StartsAt(v: Vol, csz: nat, h: Handle, ch: seq<nat>)
    requires AtEnd(v, csz, h, ch)
    ensures ch != [] && InTable(v.tbl, h.cblk) ==> h.size / csz < |ch| && h.cblk == ch[h.size / csz]
    ensures ChainFrom(v.tbl, h.sblk, ch)
  {
    PathWalk(v.tbl, h.sblk, ch, h.size / csz);
  }

  lemma AppendedIsAppendable(v: Vol, csz: nat, h: Handle, ch: seq<nat>, keep: nat, b: seq<Byte>, v': Vol, h': Handle,
                             ch': seq<nat>)
    requires Appended(v, csz, h, ch, keep, b, v', h', ch')
    ensures Appendable(v', csz, h', ch') && h'.size == h.size + |b|
  {
  }

  /** With enough free clusters a write of at least one byte at the end of a file appends it
      exactly when the file has no cluster yet or has a current one. Otherwise it answers 0,
      every chain is kept, and the clusters it asked for are gone from the free ones. The
      position follows the bytes exactly when one cluster is left for a write that ends at the
      end of the chain. */
  lemma WriteAppendsIff(v: Vol, csz: nat, h: Handle, ch: seq<nat>, b: seq<Byte>, r: nat, v': Vol, h': Handle,
                        ch': seq<nat>)
    requires 0 < csz < TWO32 && AtEnd(v, csz, h, ch) && b != []
    requires ExpandCount(h.size, |b|, csz) <= |FreeClusters(v.tbl)|
    requires Written(v, csz, h, ch, b, r, v', h', ch')
    ensures
      var appends := !ClusterIsValid(h.sblk) || ClusterIsValid(h.cblk);
      && (r == |b| <==> appends) && (Appendable(v, csz, h, ch) <==> appends)
      && (appends && WriteNeeds(h.size, |b|, csz, |ch|) <= |FreeClusters(v.tbl)| ==>
            Appended(v, csz, h, ch, Base(h.size, csz, ch == []), b, v', h', ch') && h'.pos == h'.size)
      && (appends && WriteNeeds(h.size, |b|, csz, |ch|) > |FreeClusters(v.tbl)| ==>
            Filled(v, csz, h, ch, Base(h.size, csz, ch == []), b, v', h', ch') && h'.pos < h'.size)
      && (!appends ==>
            && r == 0 && h' == h && v' == v.(tbl := v'.tbl)
            && |FreeClusters(v'.tbl)| == |FreeClusters(v.tbl)| - ExpandCount(h.size, |b|, csz)
            && forall s: int, c: seq<nat> :: ChainFrom(v.tbl, s, c) ==> ChainFrom(v'.tbl, s, c))
  {
    hide Content, IsPath, Walk, FreeBelow, Grown, ExpandCount, Covers, OnlyData, ChainFrom;
    AppendableIff(v, csz, h, ch);
    AtEndHead(v, csz, h, ch);
    var cnt := ExpandCount(h.size, |b|, csz);
    if ch != [] && !ClusterIsValid(h.cblk) {
      LeakKeepsChains(v.tbl, cnt, v'.tbl, h.sblk, ch, 0);
      forall s: int, c: seq<nat> | ChainFrom(v.tbl, s, c) ensures ChainFrom(v'.tbl, s, c) {
        LeakKeepsChains(v.tbl, cnt, v'.tbl, s, c, 0);
      }
    }
  }

  /** What a write takes, by where it starts and ends. With as many free clusters it stores all
      its bytes, and one that starts inside a cluster ends in the last cluster of the chain. */
  lemma WriteTakes(v: Vol, g: Geometry, h: Handle, ch: seq<nat>, b: seq<Byte>, r: nat, v': Vol, h': Handle,
                   ch': seq<nat>)
    requires g.Ok() && 0 < g.ClusterSize() < TWO32 && b != [] && |b| < 0x8000_0000
    requires Appendable(v, g.ClusterSize(), h, ch) && Written(v, g.ClusterSize(), h, ch, b, r, v', h', ch')
    ensures var csz, n := g.ClusterSize(), Taken(h.size, |b|, g.ClusterSize(), ch == []);
      && n >= 0
      && (n <= Spare(v) ==>
            && r == |b| && Spare(v') == Spare(v) - n
            && |ch'| == (if n == 0 then |ch| else Base(h.size, csz, ch == []) + n)
            && (n > 0 && (h.size % csz != 0 || ch == []) ==> csz * (|ch'| - 1) <= h'.size < csz * |ch'|))
  {
    hide Content, Walk, IsPath, ExpandCount, FreeBelow, Grown, OnlyData, ExpandedLen, WrittenLen, Taken, Pow2, Covers;
    var csz := g.ClusterSize();
    var k := ClusterSizePow2(g);
    HandleFacts(v, csz, h, ch);
    EmptySize(v, csz, h, ch);
    NeedsTaken(h.size, |b|, csz, k, |ch|);
    FreeBelowPrefix(v.tbl, |v.data|, |v.tbl|);
    if h.size % csz != 0 || ch == [] { LastHolds(h.size, |b|, csz, ch == []); }
  }

  /** A write is refused exactly when fewer entries are free than the longer file needs more, or
      than the one it takes to fill its last cluster. */
  lemma WriteRefusedIff(v: Vol, g: Geometry, h: Handle, ch: seq<nat>, b: seq<Byte>, r: nat, v': Vol, h': Handle,
                        ch': seq<nat>, has: int, needs: int)
    requires g.Ok() && 0 < g.ClusterSize() < TWO32 && b != [] && |b| < 0x8000_0000
    requires Appendable(v, g.ClusterSize(), h, ch) && Written(v, g.ClusterSize(), h, ch, b, r, v', h', ch')
    requires Least(has, h.size, g.ClusterSize()) && Least(needs, h.size + |b|, g.ClusterSize())
    ensures var fills := h.size % g.ClusterSize() != 0 && h.size % g.ClusterSize() + |b| == g.ClusterSize();
      r == 0 <==> |FreeClusters(v.tbl)| < needs - has + if fills then 1 else 0
  {
    hide Content, Walk, IsPath, ExpandCount, FreeBelow, Pow2, Appended, Filled, Least, WrittenLen;
    var k := ClusterSizePow2(g);
    HandleFacts(v, g.ClusterSize(), h, ch);
    ExpandExact(h.size, |b|, g.ClusterSize(), k, has, needs);
  }

  lemma LastHolds(size: nat, n: nat, csz: nat, empty: bool)
    requires csz > 0 && n > 0 && (empty ==> size == 0) && (size % csz != 0 || empty)
    ensures var len := Base(size, csz, empty) + Taken(size, n, csz, empty);
      csz * (len - 1) <= size + n < csz * len
  {
    var q := (size + n) / csz;
    assert size + n == csz * q + (size + n) % csz && csz * (q + 1) == csz * q + csz;
    if empty { assert 0 / csz == 0; }
  }

  lemma AtEndHead(v: Vol, csz: nat, h: Handle, ch: seq<nat>)
    requires AtEnd(v, csz, h, ch)
    ensures ChainFrom(v.tbl, h.sblk, ch) && (ClusterIsValid(h.sblk) <==> ch != [])
  {
    ChainHead(v.tbl, h.sblk, ch);
  }

  // ----- seeking -----

  lemma {:induction false} WalkStaysInvalid(t: seq<nat>, s: int, i: nat, j: nat)
    requires i <= j && !ClusterIsValid(Walk(t, s, i)) && i > 0
    ensures !ClusterIsValid(Walk(t, s, j))
    decreases j
  {
    if i < j { WalkStaysInvalid(t, s, i, j - 1); }
  }

  /** `fatfs_seek`: only from the start of the file. It fails exactly when the
      walk to the target cluster leaves the chain, and then changes nothing. */
  method FatfsSeek(fat: Fat, file: File, offset: nat, dir: int) returns (r: int)
    requires fat.Valid() && fat.g.ClusterSize() > 0 && file.sblk < 0x1_0000
    modifies fat`currSector, fat.buffer, file`pos, file`cblk
    ensures fat.Valid()
    ensures var k := offset / fat.g.ClusterSize();
      var target := Walk(fat.Vol().tbl, file.sblk, k);
      if dir == 0 && (k == 0 || ClusterIsValid(target))
      then r == 0 && file.H() == old(file.H()).(pos := offset, cblk := target)
      else r == -1 && file.H() == old(file.H())
  {
    hide VolOf, Mirrored, Fat.CacheAgrees, Fits;
    if dir != 0 {
      return -1;
    }
    var csz := fat.g.secPerCluster * SECTOR_SIZE;
    ghost var t := fat.Vol().tbl;
    var currCluster := file.sblk;
    var currPos, offsetToMove := 0, offset;
    ghost var i: nat := 0;
    while offsetToMove > 0
      invariant fat.Valid() && file.H() == old(file.H())
      invariant 0 <= currPos == csz * i && currPos + offsetToMove == offset
      invariant 0 <= offsetToMove
      invariant currCluster == Walk(t, file.sblk, i) && (i > 0 ==> ClusterIsValid(currCluster))
      decreases offsetToMove
    {
      SeekRound(csz, i, offset);
      var cOff := currPos % csz;
      var currMove := offsetToMove;
      if cOff + currMove < csz {
        currPos := currPos + currMove;
        break;
      }
      currMove := csz - cOff;
      currPos := currPos + currMove;
      offsetToMove := offsetToMove - currMove;
      currCluster := fat.ClusterGetNext(currCluster);
      i := i + 1;
      if !ClusterIsValid(currCluster) {
        WalkStaysInvalid(t, file.sblk, i, offset / csz);
        return -1;
      }
    }
    SeekRound(csz, i, offset);
    file.pos := currPos;
    file.cblk := currCluster;
    return 0;
  }

  lemma SeekRound(csz: nat, i: nat, offset: nat)
    requires csz > 0
    ensures (csz * i) % csz == 0 && csz * (i + 1) == csz * i + csz
    ensures csz * i <= offset < csz * i + csz ==> offset / csz == i
    ensures csz * i <= offset ==> i <= offset / csz
    ensures csz * i + csz <= offset ==> i + 1 <= offset / csz
  {
    ModUnique(csz * i, csz, i, 0);
    var q := offset / csz;
    assert offset == csz * q + offset % csz;
    if csz * i <= offset < csz * i + csz {
      ModUnique(offset, csz, i, offset - csz * i);
    }
    if csz * i <= offset && q < i { MulMono(q + 1, i, csz); }
    if csz * i + csz <= offset && q < i + 1 { MulMono(q + 1, i + 1, csz); }
  }
}
