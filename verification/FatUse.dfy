/** One file from opening to closing: reading, seeking and writing in sequence. */
module FatUse {
  import opened Bits
  import opened FatLayout
  import opened FatChain
  import opened FatDisk
  import opened FatAlloc
  import opened FatFile
  import opened FatOps
  import opened FatDir

  // ----- reading in pieces -----

  function Sum(ns: seq<nat>): nat {
    if ns == [] then 0 else Sum(ns[..|ns| - 1]) + ns[|ns| - 1]
  }

  /** Reading with any sequence of chunk sizes gives the bytes of one long read. */
  method ReadInPieces(fat: Fat, file: File, sizes: seq<nat>, ghost ch: seq<nat>) returns (r: seq<Byte>)
    requires fat.Valid() && Readable(fat.Vol(), fat.g.ClusterSize(), file.H(), ch)
    requires file.size < 0x8000_0000 && forall i :: 0 <= i < |sizes| ==> sizes[i] < 0x8000_0000
    modifies fat`disk, fat`currSector, fat.buffer, file
    ensures fat.Valid() && fat.disk == old(fat.disk) && file.size == old(file.size)
    ensures old(file.pos) <= file.size && file.pos == old(file.pos) + Min(Sum(sizes), file.size - old(file.pos))
    ensures Covers(fat.Vol(), fat.g.ClusterSize(), ch, file.size)
    ensures r == Content(fat.Vol(), fat.g.ClusterSize(), ch, file.size)[old(file.pos)..file.pos]
  {
    hide VolOf, Mirrored, Fat.CacheAgrees, Content, ChainFrom, Walk, Fits;
    ghost var v, csz, pos0 := fat.Vol(), fat.g.ClusterSize(), file.pos;
    ReadableCovers(v, csz, file.H(), ch);
    ghost var c := Content(v, csz, ch, file.size);
    r := [];
    for i := 0 to |sizes|
      invariant fat.Valid() && fat.disk == old(fat.disk)
      invariant file.size == old(file.size) && Readable(v, csz, file.H(), ch)
      invariant pos0 <= file.pos == pos0 + Min(Sum(sizes[..i]), file.size - pos0)
      invariant r == c[pos0..file.pos]
    {
      assert sizes[..i + 1][..i] == sizes[..i];
      var piece := FatfsRead(fat, file, sizes[i], ch);
      r := r + piece;
    }
    assert sizes[..|sizes|] == sizes;
  }

  /** The walk to a byte of the file stays in its chain. */
  lemma WalkToByte(v: Vol, csz: nat, h: Handle, ch: seq<nat>, offset: nat, k: nat)
    requires csz > 0 && k == offset / csz && (offset < h.size || offset == 0)
    requires Readable(v, csz, h, ch)
    ensures k == 0 || ClusterIsValid(Walk(v.tbl, h.sblk, k))
    ensures Readable(v, csz, h.(pos := offset, cblk := Walk(v.tbl, h.sblk, k)), ch)
  {
    hide Walk, IsPath, ChainFrom;
    if offset > 0 {
      CoversIndex(h.size, csz, |ch|, offset);
      ChainWalk(v.tbl, h.sblk, ch, k);
    }
  }

  /** A seek up to the end leaves the chain exactly at the end of a file that fills its chain. */
  lemma SeekWithin(v: Vol, csz: nat, h: Handle, ch: seq<nat>, offset: nat, k: nat)
    requires csz > 0 && k == offset / csz && offset <= h.size && Readable(v, csz, h, ch)
    ensures k == 0 || ClusterIsValid(Walk(v.tbl, h.sblk, k)) <==> !(0 < offset == csz * |ch|)
    ensures Readable(v, csz, h.(pos := offset, cblk := Walk(v.tbl, h.sblk, k)), ch)
  {
    hide IsPath, ChainFrom;
    if offset < h.size || offset == 0 {
      WalkToByte(v, csz, h, ch, offset, k);
    } else {
      NoCurrent(v, csz, h.(pos := offset, cblk := Walk(v.tbl, h.sblk, k)), ch);
      if offset == csz * |ch| { ModUnique(offset, csz, |ch|, 0); }
    }
  }

  /** Seeking back to the start and reading gives the whole file. */
  method ReadBack(fat: Fat, file: File, ghost ch: seq<nat>) returns (r: seq<Byte>)
    requires fat.Valid() && Readable(fat.Vol(), fat.g.ClusterSize(), file.H(), ch)
    requires file.size < 0x8000_0000 && fat.g.ClusterSize() > 0
    modifies fat`disk, fat`currSector, fat.buffer, file
    ensures fat.Valid() && fat.disk == old(fat.disk) && file.size == old(file.size)
    ensures Covers(fat.Vol(), fat.g.ClusterSize(), ch, file.size)
    ensures r == Content(fat.Vol(), fat.g.ClusterSize(), ch, file.size)
  {
    hide VolOf, Mirrored, Fat.CacheAgrees, Content, ChainFrom, Walk, Fits;
    WalkToByte(fat.Vol(), fat.g.ClusterSize(), file.H(), ch, 0, 0);
    var err := FatfsSeek(fat, file, 0, 0);
    r := FatfsRead(fat, file, file.size, ch);
  }

  /** Seeking to a byte of the file reaches the position and the cluster that reading up to
      that byte reaches: `Readable` leaves one cluster for each position. */
  method SeekMeetsReading(fat: Fat, file: File, n: nat, ghost ch: seq<nat>) returns (err: int)
    requires fat.Valid() && Readable(fat.Vol(), fat.g.ClusterSize(), file.H(), ch)
    requires n < 0x8000_0000 && file.size < 0x8000_0000 && fat.g.ClusterSize() > 0
    modifies fat`disk, fat`currSector, fat.buffer, file
    ensures fat.Valid() && fat.disk == old(fat.disk)
    ensures old(file.pos) + n < old(file.size) ==>
      && err == 0 && file.pos == old(file.pos) + n
      && Readable(fat.Vol(), fat.g.ClusterSize(), file.H(), ch)
  {
    hide VolOf, Mirrored, Fat.CacheAgrees, Content, ChainFrom, Walk, Fits, VolOk, OnDisk, Covers;
    var piece := FatfsRead(fat, file, n, ch);
    ghost var reached := file.H();
    QuotientNat(file.pos, fat.g.ClusterSize());
    if file.pos < file.size {
      WalkToByte(fat.Vol(), fat.g.ClusterSize(), file.H(), ch, file.pos, file.pos / fat.g.ClusterSize());
    }
    err := FatfsSeek(fat, file, file.pos, 0);
    assert reached.pos < reached.size ==> file.H() == reached;
  }

  // ----- a file that exactly fills its chain -----

  /** Reading such a file to its end leaves no current cluster, and what is written then is
      refused: the answer is 0, the file is as it was, and the clusters asked for are lost. */
  method FullFileRefusesWrite(fat: Fat, file: File, buf: seq<Byte>, ghost ch: seq<nat>) returns (r: nat)
    requires fat.Valid() && Readable(fat.Vol(), fat.g.ClusterSize(), file.H(), ch)
    requires file.size == fat.g.ClusterSize() * |ch| > 0 && |buf| > 0
    requires file.size + |buf| < 0x8000_0000 && 0 < fat.g.ClusterSize() < TWO32
    requires ExpandCount(file.size, |buf|, fat.g.ClusterSize()) <= |FreeClusters(fat.Vol().tbl)|
    modifies fat`disk, fat`currSector, fat.buffer, file
    ensures fat.Valid() && fat.KeepsMirror()
    ensures r == 0 && file.size == old(file.size) && !ClusterIsValid(file.cblk)
    ensures |FreeClusters(fat.Vol().tbl)|
         == |FreeClusters(old(fat.Vol().tbl))| - ExpandCount(file.size, |buf|, fat.g.ClusterSize())
    ensures fat.Vol() == old(fat.Vol()).(tbl := fat.Vol().tbl) && ChainFrom(fat.Vol().tbl, file.sblk, ch)
  {
    hide VolOf, Mirrored, Fat.CacheAgrees, Content, ChainFrom, Walk, Fits, FreeBelow, ExpandCount, WriteNeeds, Readable,
         Written;
    ghost var v, csz := fat.Vol(), fat.g.ClusterSize();
    ReadableWithin(v, csz, file.H(), ch);
    var piece := FatfsRead(fat, file, file.size - file.pos, ch);
    FullHasNoCurrent(v, csz, file.H(), ch);
    ghost var h := file.H();
    ghost var ch';
    r, ch' := FatfsWrite(fat, file, buf, ch);
    AtEndHead(v, csz, h, ch);
    WriteAppendsIff(v, csz, h, ch, buf, r, fat.Vol(), file.H(), ch');
    assert ChainFrom(fat.Vol().tbl, h.sblk, ch);
  }

  lemma FullHasNoCurrent(v: Vol, csz: nat, h: Handle, ch: seq<nat>)
    requires Readable(v, csz, h, ch) && h.pos == h.size == csz * |ch| > 0
    ensures !ClusterIsValid(h.cblk) && ClusterIsValid(h.sblk) && !Appendable(v, csz, h, ch) && AtEnd(v, csz, h, ch)
  {
    hide Walk, IsPath;
    NoCurrent(v, csz, h, ch);
    AppendableIff(v, csz, h, ch);
    ChainHead(v.tbl, h.sblk, ch);
  }

  // ----- a position past the end -----

  /** A seek past the end of a short file succeeds, and the next read takes its count for more
      than was asked for. */
  method SeekPastEnd(fat: Fat, file: File, offset: nat, n: nat) returns (r: int)
    requires fat.Valid() && file.sblk < 0x1_0000
    requires file.size < offset < fat.g.ClusterSize() && n < 0x8000_0000
    modifies fat`currSector, fat.buffer, file`pos, file`cblk
    ensures fat.Valid() && r == 0 && file.pos == offset
    ensures ReadLength(file.pos, n, file.size) > n
  {
    hide VolOf, Mirrored, Fat.CacheAgrees, Fits, Walk, ReadLength;
    SmallCluster(fat.disk, fat.g);
    SeekRound(fat.g.ClusterSize(), 0, offset);
    CountPastEnd(offset, n, file.size);
    r := FatfsSeek(fat, file, offset, 0);
  }

  lemma CountPastEnd(pos: nat, n: nat, size: nat)
    requires size < pos < 0x8000_0000 && n < 0x8000_0000
    ensures ReadLength(pos, n, size) > n
  {
  }

  lemma SmallCluster(d: seq<Sector>, g: Geometry)
    requires Fits(d, g)
    ensures g.ClusterSize() <= 4096
  {
  }

  // ----- from opening to reading back -----

  function Concat(bufs: seq<seq<Byte>>): seq<Byte> {
    if bufs == [] then [] else bufs[0] + Concat(bufs[1..])
  }

  /** Clusters that writing all of `bufs` to a file of `size` bytes and `len` clusters takes. */
  function NeedsAll(size: nat, bufs: seq<seq<Byte>>, csz: nat, len: nat): nat
    requires 0 < csz < TWO32
    decreases |bufs|
  {
    if bufs == [] then 0
    else if bufs[0] == [] then NeedsAll(size, bufs[1..], csz, len)
    else
      var n := |bufs[0]|;
      WriteNeeds(size, n, csz, len) + NeedsAll(size + n, bufs[1..], csz, WrittenLen(size, n, csz, len))
  }

  /** One write after the other. */
  method WriteAll(fat: Fat, file: File, bufs: seq<seq<Byte>>, ghost ch: seq<nat>) returns (ghost ch': seq<nat>)
    requires fat.Valid() && Appendable(fat.Vol(), fat.g.ClusterSize(), file.H(), ch)
    requires file.size + |Concat(bufs)| < 0x8000_0000 && 0 < fat.g.ClusterSize() < TWO32
    requires NeedsAll(file.size, bufs, fat.g.ClusterSize(), |ch|) <= Spare(fat.Vol())
    modifies fat`disk, fat`currSector, fat.buffer, file
    ensures fat.Valid() && fat.KeepsMirror()
    ensures Appendable(fat.Vol(), fat.g.ClusterSize(), file.H(), ch')
    ensures file.size == old(file.size) + |Concat(bufs)|
    ensures file.mode == old(file.mode) && file.pIndex == old(file.pIndex) && fat.Vol().root == old(fat.Vol().root)
    ensures Bytes(fat.Vol(), fat.g.ClusterSize(), Stream(file.H(), ch'))
         == old(Bytes(fat.Vol(), fat.g.ClusterSize(), Stream(file.H(), ch))) + Concat(bufs)
    decreases |bufs|
  {
    hide VolOf, Mirrored, Fat.CacheAgrees, Written, Appendable, AtEnd, Readable, WriteNeeds, WrittenLen, ExpandCount,
         FreeBelow, Fits, Bytes;
    ch' := ch;
    if |bufs| > 0 {
      ghost var v, f, csz := fat.Vol(), Stream(file.H(), ch), fat.g.ClusterSize();
      AtItsEnd(v, csz, f);
      if bufs[0] == [] { NothingNeeded(fat.disk, fat.g, file.size, |ch|); }
      var r;
      r, ch' := FatfsWrite(fat, file, bufs[0], ch);
      BufferWritten(v, csz, f, bufs[0], r, fat.Vol(), Stream(file.H(), ch'));
      ch' := WriteAll(fat, file, bufs[1..], ch');
    }
  }

  lemma AtItsEnd(v: Vol, csz: nat, f: Stream)
    requires Appendable(v, csz, f.h, f.ch)
    ensures AtEnd(v, csz, f.h, f.ch) && f.h.pos == f.h.size
  {
  }

  lemma NothingNeeded(d: seq<Sector>, g: Geometry, size: nat, len: nat)
    requires Fits(d, g) && 0 < g.ClusterSize() < TWO32
    ensures WriteNeeds(size, 0, g.ClusterSize(), len) == 0
  {
    hide Up2, Pow2;
    var csz := g.ClusterSize();
    var k := ClusterSizePow2(g);
    ClustersForCeil(0, csz, k);
    if ClustersFor(0, csz) > 0 { MulMono(1, ClustersFor(0, csz), csz); }
  }

  /** A write that finds its clusters appends all of its buffer and takes just these. */
  lemma BufferWritten(v: Vol, csz: nat, f: Stream, b: seq<Byte>, r: nat, v': Vol, f': Stream)
    requires 0 < csz < TWO32 && Appendable(v, csz, f.h, f.ch)
    requires Written(v, csz, f.h, f.ch, b, r, v', f'.h, f'.ch)
    requires b != [] ==> WriteNeeds(f.h.size, |b|, csz, |f.ch|) <= Spare(v)
    ensures Appendable(v', csz, f'.h, f'.ch) && f'.h.size == f.h.size + |b| && v'.root == v.root
    ensures Bytes(v', csz, f') == Bytes(v, csz, f) + b
    ensures b == [] ==> v' == v && f' == f
    ensures b != [] ==>
      && |f'.ch| == WrittenLen(f.h.size, |b|, csz, |f.ch|)
      && Spare(v') == Spare(v) - WriteNeeds(f.h.size, |b|, csz, |f.ch|)
  {
    hide Appended, Filled, Walk, IsPath, ExpandCount, FreeBelow, WrittenLen, Content, ExpandedLen;
    HandleFacts(v, csz, f.h, f.ch);
    FreeBelowPrefix(v.tbl, |v.data|, |v.tbl|);
    if b != [] {
      AppendedOwn(v, csz, f, Base(f.h.size, csz, f.ch == []), b, v', f');
    }
  }

  lemma AppendedOwn(v: Vol, csz: nat, f: Stream, keep: nat, b: seq<Byte>, v': Vol, f': Stream)
    requires Appendable(v, csz, f.h, f.ch) && Appended(v, csz, f.h, f.ch, keep, b, v', f'.h, f'.ch)
    ensures Appendable(v', csz, f'.h, f'.ch) && f'.h.size == f.h.size + |b| && v'.root == v.root
    ensures Bytes(v', csz, f') == Bytes(v, csz, f) + b
  {
    hide Content, Walk, IsPath, Grown, OnlyData;
  }

  /** What is written can be read back: a write at the end of a file, a seek to 0 and a read
      of the whole file give the bytes the file had, followed by the bytes written, also when
      the write took the last cluster. */
  method WriteThenRead(fat: Fat, file: File, buf: seq<Byte>, ghost ch: seq<nat>) returns (r: seq<Byte>)
    requires fat.Valid() && Appendable(fat.Vol(), fat.g.ClusterSize(), file.H(), ch)
    requires file.pos + |buf| < 0x8000_0000 && 0 < fat.g.ClusterSize() < TWO32
    requires EnoughFor(fat.Vol(), file.size, |buf|, fat.g.ClusterSize(), |ch|)
    modifies fat`disk, fat`currSector, fat.buffer, file
    ensures fat.Valid() && fat.KeepsMirror()
    ensures old(Covers(fat.Vol(), fat.g.ClusterSize(), ch, file.size))
    ensures r == old(Content(fat.Vol(), fat.g.ClusterSize(), ch, file.size)) + buf
  {
    hide VolOf, Mirrored, Fat.CacheAgrees, Content, Bytes, Readable, AtEnd, Appendable, Fits, FreeBelow, ExpandCount,
         WriteNeeds, Written, Covers, EnoughFor;
    ghost var v, f, csz := fat.Vol(), Stream(file.H(), ch), fat.g.ClusterSize();
    BytesAreContent(v, csz, f);
    AtItsEnd(v, csz, f);
    var n, ch' := FatfsWrite(fat, file, buf, ch);
    WrittenReadable(v, csz, f, buf, n, fat.Vol(), Stream(file.H(), ch'));
    r := ReadBack(fat, file, ch');
  }

  lemma WrittenReadable(v: Vol, csz: nat, f: Stream, b: seq<Byte>, r: nat, v': Vol, f': Stream)
    requires 0 < csz < TWO32 && Appendable(v, csz, f.h, f.ch) && EnoughFor(v, f.h.size, |b|, csz, |f.ch|)
    requires Written(v, csz, f.h, f.ch, b, r, v', f'.h, f'.ch)
    ensures Readable(v', csz, f'.h, f'.ch) && Covers(v, csz, f.ch, f.h.size) && Covers(v', csz, f'.ch, f'.h.size)
    ensures Content(v', csz, f'.ch, f'.h.size) == Content(v, csz, f.ch, f.h.size) + b && f'.h.size == f.h.size + |b|
  {
    hide Content, Walk, IsPath, ExpandCount, FreeBelow, FreeClusters, EnoughFor, Grown, OnlyData, ExpandedLen;
    HandleFacts(v, csz, f.h, f.ch);
    AppendableCovers(v, csz, f.h, f.ch);
    EnoughMeans(v, f.h.size, |b|, csz, |f.ch|);
  }

  /** Freeing makes no free cluster less. */
  lemma {:induction false} FreedSpare(t: seq<nat>, s: int, t': seq<nat>, n: nat)
    requires Freed(t, s, t') && n <= |t|
    ensures |FreeBelow(t', n)| >= |FreeBelow(t, n)|
  {
    hide Reaches;
    if n > 0 { FreedSpare(t, s, t', n - 1); }
  }

  /** Open a file for writing from nothing, new or truncated, write `bufs` to it one after the
      other, seek to 0 and read: the bytes are all that was written, in order. */
  method OpenWriteRead(fat: Fat, name: Sfn, file: File, tenths: Byte, bufs: seq<seq<Byte>>)
    returns (err: int, r: seq<Byte>)
    requires fat.Valid() && And(file.mode, O_CREAT) != 0 && And(file.mode, O_TRUNC) != 0
    requires |Concat(bufs)| < 0x8000_0000 && 0 < fat.g.ClusterSize() < TWO32
    requires NeedsAll(0, bufs, fat.g.ClusterSize(), 0) <= Spare(fat.Vol())
    modifies fat`disk, fat`currSector, fat.buffer, file
    ensures fat.Valid() && fat.KeepsMirror()
    ensures 32 * fat.g.rootEntCnt <= |old(fat.Vol().root)|
    ensures err == if SlotFor(old(fat.Vol().root), fat.g.rootEntCnt, name, -1) then -1 else 0
    ensures err == 0 ==> r == Concat(bufs)
    ensures err == -1 ==> fat.Vol() == old(fat.Vol())
  {
    hide VolOf, Mirrored, Fat.CacheAgrees, Appendable, NeedsAll, WriteNeeds, FreeBelow, Fits, And, SetItem, SlotFor,
         Bytes, FirstMatch, Content;
    ghost var v := fat.Vol();
    r := [];
    err := FatfsOpen(fat, name, file, tenths);
    OpenedEmpty(v, fat.g.rootEntCnt, name, file.mode, tenths, err, fat.Vol(), file.H(), file.pIndex);
    if err < 0 {
      return;
    }
    VolOfOk(fat.disk, fat.g);
    EmptyAppends(fat.Vol(), fat.g.ClusterSize());
    ghost var ch := WriteAll(fat, file, bufs, []);
    BytesAreContent(fat.Vol(), fat.g.ClusterSize(), Stream(file.H(), ch));
    r := ReadBack(fat, file, ch);
  }

  lemma BytesAreContent(v: Vol, csz: nat, f: Stream)
    requires Appendable(v, csz, f.h, f.ch)
    ensures Covers(v, csz, f.ch, f.h.size) && Readable(v, csz, f.h, f.ch)
    ensures Bytes(v, csz, f) == Content(v, csz, f.ch, f.h.size)
  {
    hide Content, Walk, IsPath;
    AppendableCovers(v, csz, f.h, f.ch);
  }

  /** Opening to create and truncate gives an empty file, or fails for lack of a slot. */
  lemma OpenedEmpty(v: Vol, n: nat, name: Sfn, mode: nat, tenths: Byte, err: int, v': Vol, h': Handle, pIndex: int)
    requires 32 * n <= |v.root| && And(mode, O_CREAT) != 0 && And(mode, O_TRUNC) != 0 && |v.data| <= |v.tbl|
    requires Opened(v, n, name, mode, tenths, err, v', h', pIndex)
    requires (exists m: nat :: FirstMatch(v.root, n, name, m)) || (exists p: int :: SlotFor(v.root, n, name, p))
    ensures err == if SlotFor(v.root, n, name, -1) then -1 else 0
    ensures err == -1 ==> v' == v
    ensures err == 0 ==> h' == EMPTY.h && |v'.data| == |v.data| && Spare(v') >= Spare(v)
  {
    hide And, SetItem, SlotFor, FreeBelow, Freed, InitItem, ItemCluster, ItemAt;
    if m: nat :| FirstMatch(v.root, n, name, m) {
      OnlyMatch(v.root, n, name, m);
      FreedSpare(v.tbl, ItemCluster(ItemAt(v.root, m)) % 0x1_0000, v'.tbl, |v.data|);
    } else {
      var p: int :| SlotFor(v.root, n, name, p);
      OnlySlot(v.root, n, name, p);
    }
  }

  /** Write a file from nothing, close it, open it again and read: the bytes are all that was
      written. A new file must have a name that can be found. */
  method SaveAndLoad(fat: Fat, name: Sfn, file: File, again: File, tenths: Byte, bufs: seq<seq<Byte>>)
    returns (err: int, r: seq<Byte>)
    requires fat.Valid() && file != again && And(file.mode, O_CREAT) != 0 && And(file.mode, O_TRUNC) != 0
    requires And(again.mode, O_TRUNC) == 0 && name[0] != NAME_END && name[0] != NAME_FREE
    requires |Concat(bufs)| < 0x8000_0000 && 0 < fat.g.ClusterSize() < TWO32
    requires NeedsAll(0, bufs, fat.g.ClusterSize(), 0) <= Spare(fat.Vol())
    modifies fat`disk, fat`currSector, fat.buffer, file, again
    ensures fat.Valid() && fat.KeepsMirror()
    ensures 32 * fat.g.rootEntCnt <= |old(fat.Vol().root)|
    ensures err == if SlotFor(old(fat.Vol().root), fat.g.rootEntCnt, name, -1) then -1 else 0
    ensures err == 0 ==> r == Concat(bufs)
  {
    hide VolOf, Mirrored, Fat.CacheAgrees, Appendable, Readable, NeedsAll, WriteNeeds, FreeBelow, Fits, And, SetItem,
         SlotFor, Bytes, FirstMatch, Content, ItemAt, CloseItem, InitItem, Opened, Covers;
    ghost var v, n := fat.Vol(), fat.g.rootEntCnt;
    r := [];
    err := FatfsOpen(fat, name, file, tenths);
    OpenedEmpty(v, n, name, file.mode, tenths, err, fat.Vol(), file.H(), file.pIndex);
    if err < 0 {
      return;
    }
    OpenedIsFound(v, n, name, file.mode, tenths, fat.Vol(), file.H(), file.pIndex);
    VolOfOk(fat.disk, fat.g);
    EmptyAppends(fat.Vol(), fat.g.ClusterSize());
    ghost var ch := WriteAll(fat, file, bufs, []);
    ghost var v1, h := fat.Vol(), file.H();
    BytesAreContent(v1, fat.g.ClusterSize(), Stream(h, ch));
    FatfsClose(fat, file);
    ghost var v2 := fat.Vol();
    WriterMode(file.mode);
    err := FatfsOpen(fat, name, again, tenths);
    ReopenAfterClose(v1, n, fat.g.ClusterSize(), name, file.pIndex, h, ch, v2, again.mode, tenths, err, fat.Vol(),
                     again.H(), again.pIndex);
    r := FatfsRead(fat, again, again.size, ch);
  }

  lemma WriterMode(mode: nat)
    requires And(mode, O_CREAT) != 0
    ensures mode != O_RDONLY
  {
  }

  /** What was opened or created is found under its name. */
  lemma OpenedIsFound(v: Vol, n: nat, name: Sfn, mode: nat, tenths: Byte, v': Vol, h': Handle, pIndex: int)
    requires 32 * n <= |v.root| && name[0] != NAME_END && name[0] != NAME_FREE
    requires Opened(v, n, name, mode, tenths, 0, v', h', pIndex)
    requires (exists m: nat :: FirstMatch(v.root, n, name, m)) || (exists p: int :: SlotFor(v.root, n, name, p))
    ensures |v'.root| == |v.root| && 0 <= pIndex < n && FirstMatch(v'.root, n, name, pIndex)
  {
    hide And, SetItem, SlotFor, Freed, InitItem, ItemCluster, ItemAt, FirstMatch;
    if m: nat :| FirstMatch(v.root, n, name, m) {
      OnlyMatch(v.root, n, name, m);
      MatchInRoot(v.root, n, name, m);
    } else {
      var p: int :| SlotFor(v.root, n, name, p);
      OnlySlot(v.root, n, name, p);
      CreatedIsFound(v, n, name, p, tenths);
    }
  }
}
