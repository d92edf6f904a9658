/** Whole runs on a volume with any number of files: create, open, truncate, read, seek, write
    and close, in any order. */
module FatRuns {
  import opened Bits
  import opened FatLayout
  import opened FatChain
  import opened FatDisk
  import opened FatAlloc
  import opened FatFile
  import opened FatOps
  import opened FatDir
  import opened FatUse

  /** A file of the volume: its directory slot, whether and how it is open, and where its bytes
      are. The handle of a closed file is the one an open would give. */
  datatype FileRec = FileRec(slot: nat, isOpen: bool, mode: nat, s: Stream)

  ghost predicate Apart(a: Stream, b: Stream) {
    forall c :: c in a.ch ==> c !in b.ch
  }

  /** Size and first cluster are those in the directory entry. */
  predicate AsStored(e: Item, h: Handle) {
    h.size == ItemSize(e) && h.sblk == ItemCluster(e)
  }

  /** The file has an entry in use and can be read. Its entry may be out of date only while it
      is open for writing. */
  ghost predicate FileOk(v: Vol, n: nat, csz: nat, f: FileRec)
    requires 32 * n <= |v.root|
  {
    && f.slot < n && !IsEnd(v.root, f.slot) && !IsFreeItem(v.root, f.slot)
    && Readable(v, csz, f.s.h, f.s.ch) && f.s.h.size < TWO32
    && (!f.isOpen || f.mode == O_RDONLY ==> AsStored(ItemAt(v.root, f.slot), f.s.h))
    && (!f.isOpen ==> f.s.h.pos == 0 && f.s.h.cblk == f.s.h.sblk)
  }

  /** Every file is good, and no two share a slot or a cluster. */
  ghost predicate FilesOk(v: Vol, n: nat, csz: nat, fs: seq<FileRec>) {
    && VolOk(v, csz) && 32 * n <= |v.root|
    && (forall i :: 0 <= i < |fs| ==> FileOk(v, n, csz, fs[i]))
    && (forall i, j :: 0 <= i < |fs| && 0 <= j < |fs| && i != j ==> fs[i].slot != fs[j].slot && Apart(fs[i].s, fs[j].s))
  }

  ghost function BytesOf(v: Vol, n: nat, csz: nat, fs: seq<FileRec>, j: nat): seq<Byte>
    requires FilesOk(v, n, csz, fs) && j < |fs|
  {
    Bytes(v, csz, fs[j].s)
  }

  /** Creating a file `name` in slot `p`; opening file `k` under a name that finds it; closing
      it; writing `b` at its end, which answers `r`; reading or seeking, which moves the handle. */
  datatype Act =
    | Create(name: Sfn, mode: nat, tenths: Byte, p: nat)
    | Open(k: nat, name: Sfn, mode: nat, tenths: Byte)
    | Close(k: nat)
    | Write(k: nat, b: seq<Byte>, r: nat)
    | Move(k: nat)

  /** What `fatfs_close` leaves: the entry brought up to date, unless opened for reading only. */
  function ClosedRoot(root: seq<Byte>, f: FileRec): seq<Byte>
    requires 32 * f.slot + 32 <= |root|
  {
    if f.mode == O_RDONLY then root
    else SetItem(root, f.slot, CloseItem(ItemAt(root, f.slot), f.s.h.size, f.s.h.sblk))
  }

  function Rewound(s: Stream): Stream {
    Stream(Handle(s.h.size, 0, s.h.sblk, s.h.sblk), s.ch)
  }

  /** The operations are called as `sys_open`, `sys_close`, `sys_write`, `sys_read` and
      `sys_lseek` call them and do what their contracts say, in every outcome. Of the other
      files, and of the free clusters, nothing is assumed. */
  ghost predicate ActDone(n: nat, csz: nat, v: Vol, fs: seq<FileRec>, a: Act, v': Vol, fs': seq<FileRec>) {
    && 0 < csz < TWO32 && 32 * n <= |v.root|
    && match a
       case Create(name, mode, tenths, p) =>
         && |fs'| == |fs| + 1 && fs' == fs + [FileRec(p, true, mode, Stream(fs'[|fs|].s.h, []))]
         && SlotFor(v.root, n, name, p) && name[0] != NAME_END && name[0] != NAME_FREE
         && And(mode, O_CREAT) != 0 && Opened(v, n, name, mode, tenths, 0, v', fs'[|fs|].s.h, p)
       case Open(k, name, mode, tenths) =>
         && k < |fs| == |fs'| && !fs[k].isOpen && FirstMatch(v.root, n, name, fs[k].slot)
         && fs' == fs[k := FileRec(fs[k].slot, true, mode,
                                   Stream(fs'[k].s.h, if And(mode, O_TRUNC) != 0 then [] else fs[k].s.ch))]
         && Opened(v, n, name, mode, tenths, 0, v', fs'[k].s.h, fs[k].slot)
       case Close(k) =>
         && k < |fs| && fs[k].isOpen && fs[k].slot < n
         && v' == v.(root := ClosedRoot(v.root, fs[k]))
         && fs' == fs[k := fs[k].(isOpen := false, s := Rewound(fs[k].s))]
       case Write(k, b, r) =>
         && k < |fs| == |fs'| && fs[k].isOpen && fs[k].mode != O_RDONLY
         && fs[k].s.h.pos == fs[k].s.h.size && fs[k].s.h.size + |b| < 0x8000_0000
         && fs' == fs[k := fs[k].(s := fs'[k].s)]
         && Written(v, csz, fs[k].s.h, fs[k].s.ch, b, r, v', fs'[k].s.h, fs'[k].s.ch)
       case Move(k) =>
         && k < |fs| == |fs'| && fs[k].isOpen && v' == v
         && fs' == fs[k := fs[k].(s := Stream(fs'[k].s.h, fs[k].s.ch))]
         && fs'[k].s.h.size == fs[k].s.h.size && fs'[k].s.h.sblk == fs[k].s.h.sblk
         && Readable(v, csz, fs'[k].s.h, fs[k].s.ch)
  }

  // ----- a write, in all its outcomes -----

  /** Entries that an allocation changes are not on any chain. */
  lemma AllocatedSpares(t: seq<nat>, cnt: nat, start: nat, t': seq<nat>, s: int, ch: seq<nat>)
    requires Allocated(t, cnt, start, t') && ChainFrom(t, s, ch)
    ensures |t'| == |t| && forall c :: c in ch && 0 <= c < |t| ==> t'[c] == t[c]
  {
    hide FreeBelow, Walk;
    ChainNotFree(t, ch);
    if 1 <= cnt <= |FreeClusters(t)| { AllocatedChain(t, cnt, start, t'); }
  }

  lemma {:induction false} LeakedVolOk(v: Vol, csz: nat, cnt: nat, v': Vol)
    requires VolOk(v, csz) && Leaked(v.tbl, cnt, v'.tbl) && v' == v.(tbl := v'.tbl)
    ensures VolOk(v', csz)
  {
    hide FreeBelow;
    var free := FreeClusters(v.tbl);
    AllocatedChain(v.tbl, cnt, free[0], v'.tbl);
    FreeBelowSorted(v.tbl, |v.tbl|);
    forall c | 0 <= c < |v'.tbl| ensures v'.tbl[c] < 0x1_0000 {
      if c in free[..cnt] {
        var k :| 0 <= k < cnt && free[..cnt][k] == c;
        if k + 1 < cnt { assert free[k + 1] in free; }
      }
    }
  }

  /** The file written: everything that the answer counts is appended, and it can be read. */
  lemma WriteOwn(v: Vol, csz: nat, s: Stream, b: seq<Byte>, r: nat, v': Vol, s': Stream)
    requires 0 < csz < TWO32 && AtEnd(v, csz, s.h, s.ch) && Written(v, csz, s.h, s.ch, b, r, v', s'.h, s'.ch)
    ensures r <= |b| && VolOk(v', csz) && v'.root == v.root && Readable(v', csz, s'.h, s'.ch)
    ensures Bytes(v', csz, s') == Bytes(v, csz, s) + b[..r] && s'.h.size == s.h.size + r
  {
    hide Content, Walk, IsPath, ExpandCount, FreeBelow, Grown, OnlyData, ExpandedLen, WrittenLen, WriteNeeds;
    assert b[..0] == [] && b[..|b|] == b;
    if r == 0 && v' != v && s' == s { LeakKeepsOwn(v, csz, s, ExpandCount(s.h.size, |b|, csz), v'); }
  }

  lemma LeakKeepsOwn(v: Vol, csz: nat, s: Stream, cnt: nat, v': Vol)
    requires Readable(v, csz, s.h, s.ch) && Leaked(v.tbl, cnt, v'.tbl) && v' == v.(tbl := v'.tbl)
    ensures VolOk(v', csz) && Readable(v', csz, s.h, s.ch) && Bytes(v', csz, s) == Bytes(v, csz, s)
  {
    hide Content, Walk, IsPath, FreeBelow, FreeClusters, Allocated;
    LeakedVolOk(v, csz, cnt, v');
    AllocatedSpares(v.tbl, cnt, FreeClusters(v.tbl)[0], v'.tbl, s.h.sblk, s.ch);
    StreamFrame(v, v', csz, s);
  }

  /** Any other file: nothing changes at its clusters, and they stay its own. */
  lemma WriteSpares(v: Vol, csz: nat, s: Stream, b: seq<Byte>, r: nat, v': Vol, s': Stream, o: Stream)
    requires 0 < csz < TWO32 && AtEnd(v, csz, s.h, s.ch) && Written(v, csz, s.h, s.ch, b, r, v', s'.h, s'.ch)
    requires Readable(v, csz, o.h, o.ch) && Apart(o, s)
    ensures SameOn(v, v', o.ch) && Apart(o, s')
  {
    hide Content, Walk, IsPath, ExpandCount, FreeBelow, ExpandedLen, WrittenLen, WriteNeeds, Covers, ChainFrom;
    if s' == s && v'.data == v.data {
      if v' != v {
        AllocatedSpares(v.tbl, ExpandCount(s.h.size, |b|, csz), FreeClusters(v.tbl)[0], v'.tbl, o.h.sblk, o.ch);
      }
    } else {
      GrownKeepsOthers(v.tbl, s.ch, Base(s.h.size, csz, s.ch == []), v'.tbl, s'.ch, o.h.sblk, o.ch);
    }
  }

  /** A write leaves every other file alone: handle, bytes, and its clusters its own. */
  lemma WriteKeepsOther(v: Vol, csz: nat, s: Stream, b: seq<Byte>, r: nat, v': Vol, s': Stream, o: Stream)
    requires 0 < csz < TWO32 && AtEnd(v, csz, s.h, s.ch) && Written(v, csz, s.h, s.ch, b, r, v', s'.h, s'.ch)
    requires Readable(v, csz, o.h, o.ch) && Apart(o, s)
    ensures Readable(v', csz, o.h, o.ch) && Bytes(v', csz, o) == Bytes(v, csz, o) && Apart(o, s')
  {
    hide Written, Readable, Bytes, SameOn, AtEnd;
    WriteOwn(v, csz, s, b, r, v', s');
    WriteSpares(v, csz, s, b, r, v', s', o);
    StreamFrame(v, v', csz, o);
  }

  // ----- a truncation -----

  lemma FreedVolOk(v: Vol, csz: nat, s: int, v': Vol)
    requires VolOk(v, csz) && Freed(v.tbl, s, v'.tbl) && v' == v.(tbl := v'.tbl)
    ensures VolOk(v', csz)
  {
    hide Reaches;
  }

  /** A truncation leaves every other file alone. */
  lemma TruncateKeepsOther(v: Vol, csz: nat, g: Stream, v': Vol, o: Stream)
    requires Readable(v, csz, g.h, g.ch) && Readable(v, csz, o.h, o.ch) && Apart(o, g)
    requires Freed(v.tbl, g.h.sblk, v'.tbl) && v' == v.(tbl := v'.tbl)
    ensures Readable(v', csz, o.h, o.ch) && Bytes(v', csz, o) == Bytes(v, csz, o)
  {
    hide Content, Walk, IsPath, Reaches;
    FreedVolOk(v, csz, g.h.sblk, v');
    forall c | c in o.ch && 0 <= c < |v.tbl| ensures v'.tbl[c] == v.tbl[c] { ReachesPath(v.tbl, g.h.sblk, g.ch, c); }
    StreamFrame(v, v', csz, o);
  }

  // ----- directory entries -----

  /** Setting one entry leaves the others. */
  lemma OtherItem(root: seq<Byte>, p: nat, e: Item, n: nat, i: nat)
    requires 32 * n <= |root| && p < n && i < n && i != p
    ensures ItemAt(SetItem(root, p, e), i) == ItemAt(root, i)
  {
    ItemAtSet(root, p, e, i);
  }

  /** A file is as good as before if its entry and its clusters are as before. */
  lemma FileStays(v: Vol, n: nat, csz: nat, f: FileRec, v': Vol)
    requires 32 * n <= |v.root| == |v'.root| && FileOk(v, n, csz, f)
    requires ItemAt(v'.root, f.slot) == ItemAt(v.root, f.slot) && Readable(v', csz, f.s.h, f.s.ch)
    ensures FileOk(v', n, csz, f)
  {
    hide Readable;
  }

  /** The entry of a closed file, or of one opened for reading, says where it is. */
  lemma StoredCluster(v: Vol, n: nat, csz: nat, f: FileRec)
    requires 32 * n <= |v.root| && FileOk(v, n, csz, f) && !f.isOpen
    ensures 32 * f.slot + 32 <= |v.root| && ItemCluster(ItemAt(v.root, f.slot)) % 0x1_0000 == f.s.h.sblk
    ensures Handle(ItemSize(ItemAt(v.root, f.slot)), 0, f.s.h.sblk, f.s.h.sblk) == f.s.h
  {
    hide Walk, IsPath, ItemAt, ItemSize, ItemCluster;
  }

  // ----- one operation -----

  /** The bytes file `j` should hold after `a`, given what it held before. */
  function Effect(a: Act, j: nat, was: seq<Byte>): seq<Byte> {
    match a
    case Create(_, _, _, _) => was
    case Open(k, _, mode, _) => if k == j && And(mode, O_TRUNC) != 0 then [] else was
    case Close(_) => was
    case Write(k, b, r) => if k == j && r <= |b| then was + b[..r] else was
    case Move(_) => was
  }

  lemma WriteKeepsFiles(n: nat, csz: nat, v: Vol, fs: seq<FileRec>, k: nat, b: seq<Byte>, r: nat, v': Vol,
                        fs': seq<FileRec>)
    requires FilesOk(v, n, csz, fs) && ActDone(n, csz, v, fs, Write(k, b, r), v', fs')
    ensures FilesOk(v', n, csz, fs') && |fs'| == |fs|
    ensures forall j :: 0 <= j < |fs| ==>
      BytesOf(v', n, csz, fs', j) == Effect(Write(k, b, r), j, BytesOf(v, n, csz, fs, j))
  {
    hide Bytes, Readable, VolOk, Written, ItemAt, AsStored;
    var f, f' := fs[k], fs'[k];
    WriteOwn(v, csz, f.s, b, r, v', f'.s);
    assert f'.slot == f.slot && f'.isOpen && f'.mode == f.mode;
    forall j | 0 <= j < |fs| && j != k
      ensures FileOk(v', n, csz, fs[j]) && Bytes(v', csz, fs[j].s) == Bytes(v, csz, fs[j].s)
      ensures Apart(fs[j].s, f'.s) && Apart(f'.s, fs[j].s)
    {
      WriteKeepsOther(v, csz, f.s, b, r, v', f'.s, fs[j].s);
      FileStays(v, n, csz, fs[j], v');
    }
  }

  lemma OpenKeepsFiles(n: nat, csz: nat, v: Vol, fs: seq<FileRec>, a: Act, v': Vol, fs': seq<FileRec>)
    requires FilesOk(v, n, csz, fs) && ActDone(n, csz, v, fs, a, v', fs') && a.Open?
    ensures FilesOk(v', n, csz, fs') && |fs'| == |fs|
    ensures forall j :: 0 <= j < |fs| ==> BytesOf(v', n, csz, fs', j) == Effect(a, j, BytesOf(v, n, csz, fs, j))
  {
    hide Bytes, Readable, VolOk, ItemAt, ItemSize, ItemCluster, And, Freed, SlotFor, FirstMatch, IsEnd, IsFreeItem;
    var f, f' := fs[a.k], fs'[a.k];
    StoredCluster(v, n, csz, f);
    if And(a.mode, O_TRUNC) != 0 {
      FreedVolOk(v, csz, f.s.h.sblk, v');
      EmptyAppends(v', csz);
      EmptyIsReadable(v', csz);
      forall j | 0 <= j < |fs| && j != a.k
        ensures FileOk(v', n, csz, fs[j]) && Bytes(v', csz, fs[j].s) == Bytes(v, csz, fs[j].s)
      {
        TruncateKeepsOther(v, csz, f.s, v', fs[j].s);
        FileStays(v, n, csz, fs[j], v');
      }
      TruncIsWrite(a.mode);
    } else {
      assert v' == v && f'.s == f.s;
    }
  }

  lemma EmptyIsReadable(v: Vol, csz: nat)
    requires VolOk(v, csz)
    ensures Readable(v, csz, EMPTY.h, EMPTY.ch) && Bytes(v, csz, EMPTY) == []
  {
    EmptyAppends(v, csz);
  }

  /** A mode with a flag set is not read-only. */
  lemma TruncIsWrite(mode: nat)
    ensures And(mode, O_TRUNC) != 0 || And(mode, O_CREAT) != 0 ==> mode != O_RDONLY
  {
  }

  lemma CreateKeepsFiles(n: nat, csz: nat, v: Vol, fs: seq<FileRec>, a: Act, v': Vol, fs': seq<FileRec>)
    requires FilesOk(v, n, csz, fs) && ActDone(n, csz, v, fs, a, v', fs') && a.Create?
    ensures FilesOk(v', n, csz, fs') && |fs'| == |fs| + 1 && BytesOf(v', n, csz, fs', |fs|) == []
    ensures forall j :: 0 <= j < |fs| ==> BytesOf(v', n, csz, fs', j) == BytesOf(v, n, csz, fs, j)
  {
    hide Bytes, Readable, ItemAt, And, Freed, FirstMatch, InitItem, ItemName, SetItem, ItemSize, ItemCluster, VolOk;
    OnlySlot(v.root, n, a.name, a.p);
    var e := InitItem(a.name, a.tenths);
    InitInUse(a.name, a.tenths);
    assert v' == v.(root := SetItem(v.root, a.p, e)) && fs'[|fs|].s == EMPTY;
    ItemAtSet(v.root, a.p, e, a.p);
    SlotIsMark(v.root, n, a.name, a.p);
    VolOkTables(v, v', csz);
    EmptyIsReadable(v', csz);
    TruncIsWrite(a.mode);
    forall j | 0 <= j < |fs|
      ensures FileOk(v', n, csz, fs[j]) && Bytes(v', csz, fs[j].s) == Bytes(v, csz, fs[j].s) && fs[j].slot != a.p
    {
      OtherItem(v.root, a.p, e, n, fs[j].slot);
      StreamFrame(v, v', csz, fs[j].s);
      FileStays(v, n, csz, fs[j], v');
    }
  }

  lemma VolOkTables(v: Vol, v': Vol, csz: nat)
    requires VolOk(v, csz) && v'.tbl == v.tbl && v'.data == v.data
    ensures VolOk(v', csz)
  {
  }

  /** A new entry goes where a mark was. */
  lemma SlotIsMark(root: seq<Byte>, n: nat, name: Sfn, p: nat)
    requires 32 * n <= |root| && p < n && SlotFor(root, n, name, p)
    ensures IsEnd(root, p) || IsFreeItem(root, p)
  {
  }

  lemma InitInUse(name: Sfn, tenths: Byte)
    ensures InitItem(name, tenths)[0] == name[0]
  {
    hide InitItem;
    InitItemFields(name, tenths);
    assert ItemName(InitItem(name, tenths))[0] == InitItem(name, tenths)[0];
  }

  lemma CloseKeepsFiles(n: nat, csz: nat, v: Vol, fs: seq<FileRec>, k: nat, v': Vol, fs': seq<FileRec>)
    requires FilesOk(v, n, csz, fs) && ActDone(n, csz, v, fs, Close(k), v', fs')
    ensures FilesOk(v', n, csz, fs') && |fs'| == |fs|
    ensures forall j :: 0 <= j < |fs| ==> BytesOf(v', n, csz, fs', j) == BytesOf(v, n, csz, fs, j)
  {
    hide Bytes, Readable, ItemAt, CloseItem, ItemName, SetItem, ItemSize, ItemCluster, VolOk;
    var f := fs[k];
    VolOkTables(v, v', csz);
    RewoundReads(v, v', csz, f.s);
    if f.mode != O_RDONLY {
      var e := CloseItem(ItemAt(v.root, f.slot), f.s.h.size, f.s.h.sblk);
      CloseItemFields(ItemAt(v.root, f.slot), f.s.h.size, f.s.h.sblk);
      ItemAtSet(v.root, f.slot, e, f.slot);
      SameFirst(e, ItemAt(v.root, f.slot));
    }
    forall j | 0 <= j < |fs| && j != k
      ensures FileOk(v', n, csz, fs[j]) && Bytes(v', csz, fs[j].s) == Bytes(v, csz, fs[j].s)
    {
      if f.mode != O_RDONLY {
        OtherItem(v.root, f.slot, CloseItem(ItemAt(v.root, f.slot), f.s.h.size, f.s.h.sblk), n, fs[j].slot);
      }
      StreamFrame(v, v', csz, fs[j].s);
      FileStays(v, n, csz, fs[j], v');
    }
  }

  lemma SameFirst(a: Item, b: Item)
    requires ItemName(a) == ItemName(b)
    ensures a[0] == b[0]
  {
    assert ItemName(a)[0] == a[0] && ItemName(b)[0] == b[0];
  }

  lemma RewoundReads(v: Vol, v': Vol, csz: nat, s: Stream)
    requires Readable(v, csz, s.h, s.ch) && v'.tbl == v.tbl && v'.data == v.data
    ensures Readable(v', csz, Rewound(s).h, s.ch) && Bytes(v', csz, Rewound(s)) == Bytes(v, csz, s)
    ensures s.h.sblk < 0x1_0000
  {
    hide IsPath;
    assert 0 / csz == 0;
  }

  lemma MoveKeepsFiles(n: nat, csz: nat, v: Vol, fs: seq<FileRec>, k: nat, v': Vol, fs': seq<FileRec>)
    requires FilesOk(v, n, csz, fs) && ActDone(n, csz, v, fs, Move(k), v', fs')
    ensures FilesOk(v', n, csz, fs') && |fs'| == |fs|
    ensures forall j :: 0 <= j < |fs| ==> BytesOf(v', n, csz, fs', j) == BytesOf(v, n, csz, fs, j)
  {
    hide Content, Readable, ItemAt, IsEnd, IsFreeItem, ItemSize, ItemCluster, VolOk;
  }

  /** One operation, whatever its outcome, keeps all files good, apart and findable, and changes
      the bytes of its own file only, as it answers. */
  lemma ActKeepsFiles(n: nat, csz: nat, v: Vol, fs: seq<FileRec>, a: Act, v': Vol, fs': seq<FileRec>)
    requires FilesOk(v, n, csz, fs) && ActDone(n, csz, v, fs, a, v', fs')
    ensures FilesOk(v', n, csz, fs') && |fs'| == |fs| + (if a.Create? then 1 else 0)
    ensures forall j :: 0 <= j < |fs| ==> BytesOf(v', n, csz, fs', j) == Effect(a, j, BytesOf(v, n, csz, fs, j))
    ensures a.Create? ==> BytesOf(v', n, csz, fs', |fs|) == []
    ensures forall j :: j >= |fs| ==> Effect(a, j, []) == []
  {
    hide FilesOk, Bytes, Opened, Written, Readable;
    match a
    case Create(_, _, _, _) => CreateKeepsFiles(n, csz, v, fs, a, v', fs');
    case Open(_, _, _, _) => OpenKeepsFiles(n, csz, v, fs, a, v', fs');
    case Close(k) => CloseKeepsFiles(n, csz, v, fs, k, v', fs');
    case Write(k, b, r) => WriteKeepsFiles(n, csz, v, fs, k, b, r, v', fs');
    case Move(k) => MoveKeepsFiles(n, csz, v, fs, k, v', fs');
  }

  // ----- runs -----

  datatype Moment = Moment(v: Vol, fs: seq<FileRec>)

  /** A run: each operation takes one moment to the next. */
  ghost predicate IsRun(n: nat, csz: nat, ms: seq<Moment>, acts: seq<Act>) {
    && |ms| == |acts| + 1
    && forall i :: 0 <= i < |acts| ==> ActDone(n, csz, ms[i].v, ms[i].fs, acts[i], ms[i + 1].v, ms[i + 1].fs)
  }

  /** The bytes a list of operations on file `j` amounts to: what was there, or nothing since
      its last truncation, followed by everything written since. */
  function Replay(acts: seq<Act>, j: nat, was: seq<Byte>): seq<Byte> {
    if acts == [] then was
    else Effect(acts[|acts| - 1], j, Replay(acts[..|acts| - 1], j, was))
  }

  ghost function BytesAtStart(m: Moment, n: nat, csz: nat, j: nat): seq<Byte>
    requires FilesOk(m.v, n, csz, m.fs)
  {
    if j < |m.fs| then BytesOf(m.v, n, csz, m.fs, j) else []
  }

  /** Over every run on any number of files, open and closed, every file stays readable, chains
      stay acyclic and disjoint, and each file holds exactly the bytes of its own history. */
  lemma {:induction false} RunKeepsFiles(n: nat, csz: nat, ms: seq<Moment>, acts: seq<Act>, i: nat)
    requires IsRun(n, csz, ms, acts) && FilesOk(ms[0].v, n, csz, ms[0].fs) && i <= |acts|
    ensures FilesOk(ms[i].v, n, csz, ms[i].fs)
    ensures forall j :: 0 <= j < |ms[i].fs| ==>
      BytesOf(ms[i].v, n, csz, ms[i].fs, j) == Replay(acts[..i], j, BytesAtStart(ms[0], n, csz, j))
    ensures forall j :: j >= |ms[i].fs| ==> Replay(acts[..i], j, BytesAtStart(ms[0], n, csz, j)) == []
  {
    hide ActDone, FilesOk, BytesOf, Effect;
    if i > 0 {
      RunKeepsFiles(n, csz, ms, acts, i - 1);
      ActKeepsFiles(n, csz, ms[i - 1].v, ms[i - 1].fs, acts[i - 1], ms[i].v, ms[i].fs);
      assert acts[..i][..i - 1] == acts[..i - 1];
    }
  }

  /** Acyclicity and freedom from free clusters, spelled out for any file of a good volume. */
  lemma FileChainsSound(v: Vol, n: nat, csz: nat, fs: seq<FileRec>, i: nat)
    requires FilesOk(v, n, csz, fs) && i < |fs|
    ensures forall a, b :: 0 <= a < b < |fs[i].s.ch| ==> fs[i].s.ch[a] != fs[i].s.ch[b]
    ensures forall c :: c in fs[i].s.ch ==> !IsFree(v.tbl, c) && c < |v.data|
  {
    hide Walk, IsEnd, IsFreeItem, AsStored;
    var ch := fs[i].s.ch;
    assert FileOk(v, n, csz, fs[i]);
    forall a, b | 0 <= a < b < |ch| ensures ch[a] != ch[b] { PathDistinct(v.tbl, ch, a, b); }
    ChainNotFree(v.tbl, ch);
    forall c | c in ch ensures c < |v.data| {
      var k :| 0 <= k < |ch| && ch[k] == c;
    }
  }

  // ----- space -----

  /** The chain has at most two clusters beyond those that the bytes fill. */
  ghost predicate Tight(csz: nat, s: Stream)
    requires csz > 0
  {
    |s.ch| <= s.h.size / csz + 2
  }

  /** Length of the chain a write leaves. */
  lemma WrittenLength(v: Vol, csz: nat, s: Stream, b: seq<Byte>, r: nat, v': Vol, s': Stream)
    requires 0 < csz < TWO32
    requires AtEnd(v, csz, s.h, s.ch) && Written(v, csz, s.h, s.ch, b, r, v', s'.h, s'.ch)
    ensures
      || (s'.ch == s.ch && s'.h.size == s.h.size)
      || s'.h.size == csz * |s'.ch|
      || (b != [] && |s'.ch| == WrittenLen(s.h.size, |b|, csz, |s.ch|) && s'.h.size == s.h.size + |b|
          && if s.ch == [] then s.h.size == 0 else s.h.size / csz < |s.ch|)
  {
    hide Content, Walk, IsPath, ExpandCount, FreeBelow, Grown, OnlyData, WriteNeeds, WrittenLen, Covers, ExpandedLen;
    AppendableIff(v, csz, s.h, s.ch);
    AtEndHead(v, csz, s.h, s.ch);
  }

  lemma WriteKeepsTight(v: Vol, csz: nat, k: nat, s: Stream, b: seq<Byte>, r: nat, v': Vol, s': Stream)
    requires k < 32 && 0 < csz == Pow2(k) <= 4096 && |b| < 0x8000_0000
    requires AtEnd(v, csz, s.h, s.ch) && Written(v, csz, s.h, s.ch, b, r, v', s'.h, s'.ch)
    requires Tight(csz, s)
    ensures Tight(csz, s')
  {
    hide Written, AtEnd, Pow2, WrittenLen;
    WrittenLength(v, csz, s, b, r, v', s');
    if s'.h.size == csz * |s'.ch| {
      DivAtLeast(s'.h.size, csz, |s'.ch|);
    } else if s'.ch != s.ch || s'.h.size != s.h.size {
      WrittenTight(s.h.size, |b|, csz, k, |s.ch|);
    }
  }

  /** Through every run a file's chain has at most two clusters beyond those that its bytes fill,
      if that is so at the start. */
  lemma {:induction false} RunKeepsTight(n: nat, csz: nat, k: nat, ms: seq<Moment>, acts: seq<Act>, i: nat)
    requires k < 32 && 0 < csz == Pow2(k) <= 4096
    requires IsRun(n, csz, ms, acts) && FilesOk(ms[0].v, n, csz, ms[0].fs) && i <= |acts|
    requires forall j :: 0 <= j < |ms[0].fs| ==> Tight(csz, ms[0].fs[j].s)
    ensures forall j :: 0 <= j < |ms[i].fs| ==> Tight(csz, ms[i].fs[j].s)
  {
    hide ActDone, FilesOk, Tight, Pow2;
    if i > 0 {
      RunKeepsTight(n, csz, k, ms, acts, i - 1);
      RunKeepsFiles(n, csz, ms, acts, i - 1);
      ActKeepsTight(n, csz, k, ms[i - 1].v, ms[i - 1].fs, acts[i - 1], ms[i].v, ms[i].fs);
    }
  }

  lemma ActKeepsTight(n: nat, csz: nat, k: nat, v: Vol, fs: seq<FileRec>, a: Act, v': Vol, fs': seq<FileRec>)
    requires k < 32 && 0 < csz == Pow2(k) <= 4096
    requires FilesOk(v, n, csz, fs) && ActDone(n, csz, v, fs, a, v', fs')
    requires forall j :: 0 <= j < |fs| ==> Tight(csz, fs[j].s)
    ensures forall j :: 0 <= j < |fs'| ==> Tight(csz, fs'[j].s)
  {
    hide Readable, Written, Pow2, ItemAt, SetItem, InitItem, CloseItem, Freed, And, SlotFor, FirstMatch, ItemSize,
         ItemCluster;
    QuotientNat(0, csz);
    match a
    case Create(_, _, _, _) =>
    case Open(j, _, mode, _) => StoredCluster(v, n, csz, fs[j]);
    case Close(_) =>
    case Write(j, b, r) => WriteKeepsTight(v, csz, k, fs[j].s, b, r, v', fs'[j].s);
    case Move(_) =>
  }

  // ----- names -----

  /** A file found under a name is found under it after every operation. */
  lemma ActKeepsNames(n: nat, csz: nat, v: Vol, fs: seq<FileRec>, a: Act, v': Vol, fs': seq<FileRec>, j: nat, name: Sfn)
    requires FilesOk(v, n, csz, fs) && ActDone(n, csz, v, fs, a, v', fs')
    requires j < |fs| && FirstMatch(v.root, n, name, fs[j].slot)
    ensures |v'.root| == |v.root| && j < |fs'| && fs'[j].slot == fs[j].slot && FirstMatch(v'.root, n, name, fs'[j].slot)
  {
    hide Readable, Freed, And, Matches, FirstMatch, Before, SlotFor, ItemAt, InitItem, CloseItem, SetItem, Content;
    match a
    case Create(added, _, tenths, p) =>
      OnlySlot(v.root, n, added, p);
      CreateKeepsNames(v.root, n, added, tenths, p, name, fs[j].slot);
    case Open(k, other, mode, _) =>
      assert v'.root == v.root;
    case Close(k) =>
      ReadableBounds(v, csz, fs[k].s);
      if fs[k].mode != O_RDONLY {
        CloseKeepsMatch(v.root, n, name, fs[j].slot, fs[k].slot, fs[k].s.h.size, fs[k].s.h.sblk);
      }
    case Write(k, b, r) =>
      WriteOwn(v, csz, fs[k].s, b, r, v', fs'[k].s);
    case Move(_) =>
  }

  lemma ReadableBounds(v: Vol, csz: nat, s: Stream)
    requires Readable(v, csz, s.h, s.ch)
    ensures s.h.sblk < 0x1_0000
  {
  }

  /** What a search sees of a directory with one entry set. */
  lemma SetSeen(root: seq<Byte>, n: nat, p: nat, e: Item, name: Sfn, k: nat)
    requires 32 * n <= |root| && p < n && k < n
    ensures IsEnd(SetItem(root, p, e), k) <==> if k == p then e[0] == NAME_END else IsEnd(root, k)
    ensures k != p ==> (Matches(SetItem(root, p, e), name, k) <==> Matches(root, name, k))
    ensures k == p && ItemName(e) != name ==> !Matches(SetItem(root, p, e), name, k)
  {
    hide SetItem, ItemAt, ItemName;
    ItemAtSet(root, p, e, k);
  }

  /** A new entry before the one that `name` finds has another name. */
  lemma AddedElsewhere(root: seq<Byte>, n: nat, added: Sfn, p: nat, name: Sfn, i: nat)
    requires 32 * n <= |root| && p < n && SlotFor(root, n, added, p) && FirstMatch(root, n, name, i)
    ensures p != i && (p < i ==> added != name)
  {
    hide ItemAt, ItemName;
    SlotIsMark(root, n, added, p);
  }

  lemma CreateKeepsNames(root: seq<Byte>, n: nat, added: Sfn, tenths: Byte, p: nat, name: Sfn, i: nat)
    requires 32 * n <= |root| && p < n && SlotFor(root, n, added, p)
    requires added[0] != NAME_END && added[0] != NAME_FREE && FirstMatch(root, n, name, i)
    ensures FirstMatch(SetItem(root, p, InitItem(added, tenths)), n, name, i)
  {
    hide SetItem, InitItem, ItemAt, ItemName, SlotFor, Matches, IsEnd;
    var e := InitItem(added, tenths);
    InitItemFields(added, tenths);
    InitInUse(added, tenths);
    AddedElsewhere(root, n, added, p, name, i);
    forall k | 0 <= k <= i
      ensures k < i ==> !IsEnd(SetItem(root, p, e), k) && !Matches(SetItem(root, p, e), name, k)
      ensures k == i ==> Matches(SetItem(root, p, e), name, k)
    {
      SetSeen(root, n, p, e, name, k);
    }
  }

  /** Through every run a file stays findable under every name that finds it. */
  lemma {:induction false} RunKeepsNames(n: nat, csz: nat, ms: seq<Moment>, acts: seq<Act>, j: nat, name: Sfn, i: nat)
    requires IsRun(n, csz, ms, acts) && FilesOk(ms[0].v, n, csz, ms[0].fs) && i <= |acts|
    requires j < |ms[0].fs| && FirstMatch(ms[0].v.root, n, name, ms[0].fs[j].slot)
    ensures |ms[i].v.root| == |ms[0].v.root| && j < |ms[i].fs| && ms[i].fs[j].slot == ms[0].fs[j].slot
    ensures FirstMatch(ms[i].v.root, n, name, ms[i].fs[j].slot)
  {
    hide ActDone, FilesOk, FirstMatch;
    FilesInRoot(ms[0].v, n, csz, ms[0].fs);
    if i > 0 {
      RunKeepsNames(n, csz, ms, acts, j, name, i - 1);
      RunKeepsFiles(n, csz, ms, acts, i - 1);
      ActKeepsNames(n, csz, ms[i - 1].v, ms[i - 1].fs, acts[i - 1], ms[i].v, ms[i].fs, j, name);
    }
  }

  lemma FilesInRoot(v: Vol, n: nat, csz: nat, fs: seq<FileRec>)
    requires FilesOk(v, n, csz, fs)
    ensures 32 * n <= |v.root|
  {
  }

  // ----- the code takes these steps -----

  /** `fatfs_open` of a file that is there. */
  method OpenFile(fat: Fat, name: Sfn, file: File, tenths: Byte, ghost fs: seq<FileRec>, ghost k: nat)
    returns (err: int, ghost fs': seq<FileRec>)
    requires fat.Valid() && 0 < fat.g.ClusterSize() < TWO32
    requires FilesOk(fat.Vol(), fat.g.rootEntCnt, fat.g.ClusterSize(), fs)
    requires k < |fs| && !fs[k].isOpen && FirstMatch(fat.Vol().root, fat.g.rootEntCnt, name, fs[k].slot)
    modifies fat`disk, fat`currSector, fat.buffer, file
    ensures fat.Valid() && fat.KeepsMirror() && err == 0 && file.mode == old(file.mode)
    ensures ActDone(fat.g.rootEntCnt, fat.g.ClusterSize(), old(fat.Vol()), fs, Open(k, name, file.mode, tenths),
                    fat.Vol(), fs')
    ensures file.H() == fs'[k].s.h && file.pIndex == fs'[k].slot
    ensures FilesOk(fat.Vol(), fat.g.rootEntCnt, fat.g.ClusterSize(), fs')
  {
    hide VolOf, Mirrored, Fat.CacheAgrees, Fits, FilesOk, FirstMatch, SlotFor, And, Freed, ItemAt, SetItem, InitItem;
    ghost var v, n := fat.Vol(), fat.g.rootEntCnt;
    FilesInRoot(v, n, fat.g.ClusterSize(), fs);
    OnlyMatch(v.root, n, name, fs[k].slot);
    err := FatfsOpen(fat, name, file, tenths);
    fs' := fs[k := FileRec(fs[k].slot, true, file.mode,
                           Stream(file.H(), if And(file.mode, O_TRUNC) != 0 then [] else fs[k].s.ch))];
    ActKeepsFiles(n, fat.g.ClusterSize(), v, fs, Open(k, name, file.mode, tenths), fat.Vol(), fs');
  }

  /** `fatfs_open` that creates a file; it fails exactly for lack of a slot. */
  method CreateFile(fat: Fat, name: Sfn, file: File, tenths: Byte, ghost fs: seq<FileRec>)
    returns (err: int, ghost fs': seq<FileRec>)
    requires fat.Valid() && 0 < fat.g.ClusterSize() < TWO32
    requires FilesOk(fat.Vol(), fat.g.rootEntCnt, fat.g.ClusterSize(), fs) && 32 * fat.g.rootEntCnt <= |fat.Vol().root|
    requires forall m: nat :: !FirstMatch(fat.Vol().root, fat.g.rootEntCnt, name, m)
    requires And(file.mode, O_CREAT) != 0 && name[0] != NAME_END && name[0] != NAME_FREE
    modifies fat`disk, fat`currSector, fat.buffer, file
    ensures fat.Valid() && fat.KeepsMirror() && file.mode == old(file.mode)
    ensures 32 * fat.g.rootEntCnt <= |old(fat.Vol().root)|
    ensures err == if SlotFor(old(fat.Vol().root), fat.g.rootEntCnt, name, -1) then -1 else 0
    ensures err == 0 ==>
      && file.pIndex >= 0
      && ActDone(fat.g.rootEntCnt, fat.g.ClusterSize(), old(fat.Vol()), fs,
                 Create(name, file.mode, tenths, file.pIndex), fat.Vol(), fs')
      && file.H() == fs'[|fs|].s.h
    ensures err == -1 ==> fat.Vol() == old(fat.Vol()) && fs' == fs
    ensures FilesOk(fat.Vol(), fat.g.rootEntCnt, fat.g.ClusterSize(), fs')
  {
    hide VolOf, Mirrored, Fat.CacheAgrees, Fits, FilesOk, FirstMatch, SlotFor, And, Freed, ItemAt, SetItem, InitItem;
    ghost var v, n := fat.Vol(), fat.g.rootEntCnt;
    err := FatfsOpen(fat, name, file, tenths);
    ghost var p: int :| SlotFor(v.root, n, name, p);
    OnlySlot(v.root, n, name, p);
    fs' := fs;
    if err == 0 {
      fs' := fs + [FileRec(file.pIndex, true, file.mode, Stream(file.H(), []))];
      ActKeepsFiles(n, fat.g.ClusterSize(), v, fs, Create(name, file.mode, tenths, file.pIndex), fat.Vol(), fs');
    }
  }

  /** `fatfs_close` */
  method CloseFile(fat: Fat, file: File, ghost fs: seq<FileRec>, ghost k: nat) returns (ghost fs': seq<FileRec>)
    requires fat.Valid() && 0 < fat.g.ClusterSize() < TWO32
    requires FilesOk(fat.Vol(), fat.g.rootEntCnt, fat.g.ClusterSize(), fs)
    requires k < |fs| && fs[k].isOpen && file.mode == fs[k].mode && file.H() == fs[k].s.h && file.pIndex == fs[k].slot
    modifies fat`disk, fat`currSector, fat.buffer
    ensures fat.Valid() && fat.KeepsMirror()
    ensures ActDone(fat.g.rootEntCnt, fat.g.ClusterSize(), old(fat.Vol()), fs, Close(k), fat.Vol(), fs')
    ensures FilesOk(fat.Vol(), fat.g.rootEntCnt, fat.g.ClusterSize(), fs')
  {
    hide VolOf, Mirrored, Fat.CacheAgrees, Fits, FilesOk, ItemAt, SetItem, CloseItem;
    ghost var v, n := fat.Vol(), fat.g.rootEntCnt;
    SlotInRoot(v, n, fat.g.ClusterSize(), fs, k);
    FatfsClose(fat, file);
    fs' := fs[k := fs[k].(isOpen := false, s := Rewound(fs[k].s))];
    ActKeepsFiles(n, fat.g.ClusterSize(), v, fs, Close(k), fat.Vol(), fs');
  }

  lemma SlotInRoot(v: Vol, n: nat, csz: nat, fs: seq<FileRec>, k: nat)
    requires FilesOk(v, n, csz, fs) && k < |fs|
    ensures 32 * n <= |v.root| && fs[k].slot < n && Readable(v, csz, fs[k].s.h, fs[k].s.ch)
  {
    hide Readable;
  }

  /** `fatfs_write` at the end of one of the files, whatever comes of it. */
  method WriteFile(fat: Fat, file: File, buf: seq<Byte>, ghost fs: seq<FileRec>, ghost k: nat)
    returns (r: nat, ghost fs': seq<FileRec>)
    requires fat.Valid() && 0 < fat.g.ClusterSize() < TWO32
    requires FilesOk(fat.Vol(), fat.g.rootEntCnt, fat.g.ClusterSize(), fs)
    requires k < |fs| && fs[k].isOpen && fs[k].mode != O_RDONLY && file.H() == fs[k].s.h
    requires file.pos == file.size && file.size + |buf| < 0x8000_0000
    requires Appendable(fat.Vol(), fat.g.ClusterSize(), file.H(), fs[k].s.ch) ==>
      || EnoughFor(fat.Vol(), file.size, |buf|, fat.g.ClusterSize(), |fs[k].s.ch|)
      || |FreeClusters(fat.Vol().tbl)| < ExpandCount(file.size, |buf|, fat.g.ClusterSize())
    modifies fat`disk, fat`currSector, fat.buffer, file
    ensures fat.Valid() && fat.KeepsMirror()
    ensures ActDone(fat.g.rootEntCnt, fat.g.ClusterSize(), old(fat.Vol()), fs, Write(k, buf, r), fat.Vol(), fs')
    ensures file.H() == fs'[k].s.h && file.mode == old(file.mode) && file.pIndex == old(file.pIndex)
    ensures FilesOk(fat.Vol(), fat.g.rootEntCnt, fat.g.ClusterSize(), fs')
  {
    hide VolOf, Mirrored, Fat.CacheAgrees, Fits, FilesOk, Written, Readable, FreeClusters, EnoughFor, ExpandCount;
    ghost var v, n := fat.Vol(), fat.g.rootEntCnt;
    SlotInRoot(v, n, fat.g.ClusterSize(), fs, k);
    ghost var ch';
    r, ch' := FatfsWrite(fat, file, buf, fs[k].s.ch);
    fs' := fs[k := fs[k].(s := Stream(file.H(), ch'))];
    ActKeepsFiles(n, fat.g.ClusterSize(), v, fs, Write(k, buf, r), fat.Vol(), fs');
  }

  /** `fatfs_read` of one of the files: the next bytes of its own history. */
  method ReadFile(fat: Fat, file: File, size: nat, ghost fs: seq<FileRec>, ghost k: nat)
    returns (r: seq<Byte>, ghost fs': seq<FileRec>)
    requires fat.Valid() && 0 < fat.g.ClusterSize() < TWO32
    requires FilesOk(fat.Vol(), fat.g.rootEntCnt, fat.g.ClusterSize(), fs)
    requires k < |fs| && fs[k].isOpen && file.H() == fs[k].s.h && size < 0x8000_0000 && file.size < 0x8000_0000
    modifies fat`disk, fat`currSector, fat.buffer, file
    ensures fat.Valid() && fat.disk == old(fat.disk)
    ensures ActDone(fat.g.rootEntCnt, fat.g.ClusterSize(), old(fat.Vol()), fs, Move(k), fat.Vol(), fs')
    ensures file.H() == fs'[k].s.h && file.mode == old(file.mode) && file.pIndex == old(file.pIndex)
    ensures FilesOk(fat.Vol(), fat.g.rootEntCnt, fat.g.ClusterSize(), fs')
    ensures old(file.pos) <= file.pos == old(file.pos) + |r| <= file.size && |r| <= size
    ensures |r| < size ==> file.pos == file.size
    ensures r == BytesOf(fat.Vol(), fat.g.rootEntCnt, fat.g.ClusterSize(), fs', k)[old(file.pos)..file.pos]
  {
    hide VolOf, Mirrored, Fat.CacheAgrees, Fits, FilesOk, Readable, Content;
    ghost var v, n := fat.Vol(), fat.g.rootEntCnt;
    SlotInRoot(v, n, fat.g.ClusterSize(), fs, k);
    r := FatfsRead(fat, file, size, fs[k].s.ch);
    fs' := fs[k := fs[k].(s := Stream(file.H(), fs[k].s.ch))];
    ActKeepsFiles(n, fat.g.ClusterSize(), v, fs, Move(k), fat.Vol(), fs');
  }

  /** `fatfs_seek` within one of the files, up to its end; it fails, without change, exactly for
      the end of a file that fills its chain. */
  method SeekFile(fat: Fat, file: File, offset: nat, ghost fs: seq<FileRec>, ghost k: nat)
    returns (err: int, ghost fs': seq<FileRec>)
    requires fat.Valid() && 0 < fat.g.ClusterSize() < TWO32
    requires FilesOk(fat.Vol(), fat.g.rootEntCnt, fat.g.ClusterSize(), fs)
    requires k < |fs| && fs[k].isOpen && file.H() == fs[k].s.h && offset <= file.size
    modifies fat`currSector, fat.buffer, file`pos, file`cblk
    ensures fat.Valid() && fat.Vol() == old(fat.Vol())
    ensures err == if 0 < offset == fat.g.ClusterSize() * |fs[k].s.ch| then -1 else 0
    ensures file.pos == if err == 0 then offset else old(file.pos)
    ensures ActDone(fat.g.rootEntCnt, fat.g.ClusterSize(), old(fat.Vol()), fs, Move(k), fat.Vol(), fs')
    ensures file.H() == fs'[k].s.h
    ensures FilesOk(fat.Vol(), fat.g.rootEntCnt, fat.g.ClusterSize(), fs')
  {
    hide VolOf, Mirrored, Fat.CacheAgrees, Fits, FilesOk, Readable, Walk;
    ghost var v, n, csz := fat.Vol(), fat.g.rootEntCnt, fat.g.ClusterSize();
    SlotInRoot(v, n, csz, fs, k);
    ReadableBounds(v, csz, fs[k].s);
    QuotientNat(offset, csz);
    SeekWithin(v, csz, file.H(), fs[k].s.ch, offset, offset / csz);
    err := FatfsSeek(fat, file, offset, 0);
    fs' := fs[k := fs[k].(s := Stream(file.H(), fs[k].s.ch))];
    ActKeepsFiles(n, csz, v, fs, Move(k), fat.Vol(), fs');
  }
}
