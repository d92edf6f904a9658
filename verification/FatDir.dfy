/** Directory entries of the root directory: open, create, truncate and close. */
module FatDir {
  import opened Bits
  import opened FatLayout
  import opened FatChain
  import opened FatDisk
  import opened FatAlloc
  import opened FatFile
  import opened FatPlace
  import opened FatOps

  const NAME_END: Byte := 0
  const NAME_FREE: Byte := 0xE5
  const SFN_LEN: nat := 11
  const O_RDONLY: nat := 0
  const O_CREAT: nat := 0x200
  const O_TRUNC: nat := 0x400

  /** One 32-byte entry. */
  type Item = s: seq<Byte> | |s| == DIRITEM_SIZE witness seq(DIRITEM_SIZE, _ => 0)

  /** A name as an entry stores it: eleven bytes, of which `to_sfn` produces some. */
  type Sfn = s: seq<Byte> | |s| == SFN_LEN witness seq(SFN_LEN, _ => 32)

  // ----- entry fields -----

  function ItemName(e: Item): Sfn { e[..SFN_LEN] }
  function ItemSize(e: Item): nat { Word32(e[28], e[29], e[30], e[31]) }
  function ItemCluster(e: Item): nat { Word16(e[20], e[21]) * 0x1_0000 + Word16(e[26], e[27]) }

  /** What `fatfs_close` stores into an entry. */
  function CloseItem(e: Item, size: nat, sblk: nat): Item {
    e[28 := Lo8(size)][29 := Hi8(size)][30 := Lo8(size / 0x1_0000)][31 := Hi8(size / 0x1_0000)]
     [20 := Lo8(sblk / 0x1_0000)][21 := Hi8(sblk / 0x1_0000)][26 := Lo8(sblk)][27 := Hi8(sblk)]
  }

  /** Size and first cluster written by close are the ones read by open; the name stays. */
  lemma CloseItemFields(e: Item, size: nat, sblk: nat)
    requires size < TWO32 && sblk < TWO32
    ensures ItemSize(CloseItem(e, size, sblk)) == size
    ensures ItemCluster(CloseItem(e, size, sblk)) == sblk
    ensures ItemName(CloseItem(e, size, sblk)) == ItemName(e)
  {
    var r := CloseItem(e, size, sblk);
    assert r[..SFN_LEN] == e[..SFN_LEN];
    Bytes32(size);
    Bytes32(sblk);
    assert r[20] == Lo8(sblk / 0x1_0000) && r[21] == Hi8(sblk / 0x1_0000);
    assert r[26] == Lo8(sblk) && r[27] == Hi8(sblk);
  }

  /** Nothing but these eight bytes changes. */
  lemma CloseItemOnly(e: Item, size: nat, sblk: nat, k: nat)
    requires k < 28 && k !in {20, 21, 26, 27}
    ensures CloseItem(e, size, sblk)[k] == e[k]
  {
  }

  lemma Bytes32(w: nat)
    requires w < TWO32
    ensures Word16(Lo8(w), Hi8(w)) == w % 0x1_0000
    ensures Word16(Lo8(w / 0x1_0000), Hi8(w / 0x1_0000)) == w / 0x1_0000
    ensures Word32(Lo8(w), Hi8(w), Lo8(w / 0x1_0000), Hi8(w / 0x1_0000)) == w
  {
  }

  /** `diritem_init`: the name, zero attributes and times, no cluster, size zero;
      the creation-time tenths stay whatever the stack held. */
  function InitItem(name: Sfn, tenths: Byte): Item {
    CloseItem(name + [0, 0, tenths] + seq(18, _ => 0), 0, CLUSTER_INVALID)
  }

  lemma InitItemFields(name: Sfn, tenths: Byte)
    ensures ItemName(InitItem(name, tenths)) == name
    ensures ItemSize(InitItem(name, tenths)) == 0
    ensures ItemCluster(InitItem(name, tenths)) == CLUSTER_INVALID
  {
    hide CloseItem;
    var e: Item := name + [0, 0, tenths] + seq(18, _ => 0);
    CloseItemFields(e, 0, CLUSTER_INVALID);
    assert e[..SFN_LEN] == name;
  }

  /** All other bytes of a new entry are zero, but for byte 13. */
  lemma InitItemRest(name: Sfn, tenths: Byte, k: nat)
    requires 11 <= k < 20 || 22 <= k < 26
    ensures InitItem(name, tenths)[k] == if k == 13 then tenths else 0
  {
    hide CloseItem;
    CloseItemOnly(name + [0, 0, tenths] + seq(18, _ => 0), 0, CLUSTER_INVALID, k);
  }

  // ----- the root directory as a sequence of entries -----

  function ItemAt(root: seq<Byte>, i: nat): Item
    requires 32 * i + 32 <= |root|
  {
    root[32 * i..32 * i + 32]
  }

  /** Byte `b` of entry `i` on the disk: entries have 32 bytes and follow one another from the
      sector behind the tables. */
  function EntryByte(d: seq<Sector>, g: Geometry, i: nat, b: nat): int {
    var s := g.tblStart + 2 * g.tblSectors + (32 * i + b) / 512;
    if s < |d| then d[s][(32 * i + b) % 512] else 0
  }

  /** Where name, size and first cluster of an entry are, all little-endian. */
  lemma ItemOnDisk(d: seq<Sector>, g: Geometry, i: nat)
    requires Fits(d, g) && i < g.rootEntCnt
    ensures 32 * i + 32 <= |VolOf(d, g).root|
    ensures var e := ItemAt(VolOf(d, g).root, i);
      && (forall b :: 0 <= b < 11 ==> ItemName(e)[b] == EntryByte(d, g, i, b))
      && ItemSize(e) == EntryByte(d, g, i, 28) + 0x100 * EntryByte(d, g, i, 29) + 0x1_0000 * EntryByte(d, g, i, 30)
           + 0x100_0000 * EntryByte(d, g, i, 31)
      && ItemCluster(e) % 0x1_0000 == EntryByte(d, g, i, 26) + 0x100 * EntryByte(d, g, i, 27)
      && ItemCluster(e) / 0x1_0000 == EntryByte(d, g, i, 20) + 0x100 * EntryByte(d, g, i, 21)
  {
    hide VolOf, EntryByte;
    RootOnDisk(d, g, 0);
    var e := ItemAt(VolOf(d, g).root, i);
    forall b: nat | b < 32 ensures e[b] == EntryByte(d, g, i, b) { ItemByte(d, g, i, b); }
  }

  lemma ItemByte(d: seq<Sector>, g: Geometry, i: nat, b: nat)
    requires Fits(d, g) && i < g.rootEntCnt && b < 32
    ensures 32 * i + 32 <= |VolOf(d, g).root| && ItemAt(VolOf(d, g).root, i)[b] == EntryByte(d, g, i, b)
  {
    hide VolOf;
    RootOnDisk(d, g, 32 * i + b);
  }

  function SetItem(root: seq<Byte>, i: nat, e: Item): (r: seq<Byte>)
    requires 32 * i + 32 <= |root|
    ensures |r| == |root|
  {
    root[..32 * i] + e + root[32 * i + 32..]
  }

  lemma ItemAtSet(root: seq<Byte>, i: nat, e: Item, j: nat)
    requires 32 * i + 32 <= |root| && 32 * j + 32 <= |root|
    ensures ItemAt(SetItem(root, i, e), j) == if j == i then e else ItemAt(root, j)
  {
    var r := SetItem(root, i, e);
    if j < i {
      assert r[32 * j..32 * j + 32] == root[32 * j..32 * j + 32];
    } else if j == i {
      assert r[32 * j..32 * j + 32] == e;
    } else {
      assert r[32 * j..32 * j + 32] == root[32 * j..32 * j + 32];
    }
  }

  // ----- entries through the cached sector -----

  /** The cache agrees with the disk, except that entry `index` may have been
      edited in the cached sector. */
  ghost predicate DirtyItem(fat: Fat, index: nat)
    reads fat, fat.buffer
  {
    && Fits(fat.disk, fat.g) && fat.buffer.Length == PAGE_SIZE && index < fat.g.rootEntCnt
    && fat.currSector == fat.g.RootStart() + index / 16
    && fat.currSector < |fat.disk|
    && var o := 32 * (index % 16);
       && fat.buffer[..o] == fat.disk[fat.currSector][..o]
       && fat.buffer[o + 32..SECTOR_SIZE] == fat.disk[fat.currSector][o + 32..]
  }

  /** A cached root sector holds the entry as the disk does. */
  lemma CleanItem(fat: Fat, index: nat)
    requires Fits(fat.disk, fat.g) && fat.buffer.Length == PAGE_SIZE && index < fat.g.rootEntCnt
    requires fat.currSector == fat.g.RootStart() + index / 16 < |fat.disk|
    requires fat.buffer[..SECTOR_SIZE] == fat.disk[fat.currSector]
    ensures DirtyItem(fat, index)
    ensures var p := 32 * (index % 16);
      p + 32 <= SECTOR_SIZE && fat.buffer[p..p + 32] == fat.disk[fat.currSector][p..p + 32]
  {
    var p := 32 * (index % 16);
    PrefixSlice(fat.buffer, SECTOR_SIZE, p, p + 32);
    PrefixSlice(fat.buffer, SECTOR_SIZE, 0, p);
    PrefixSlice(fat.buffer, SECTOR_SIZE, p + 32, SECTOR_SIZE);
  }

  /** `read_dir_entry`: position of the entry in the buffer, or -1. */
  method ReadDirEntry(fat: Fat, index: int) returns (p: int)
    requires fat.Valid()
    modifies fat`currSector, fat.buffer
    ensures fat.Valid()
    ensures if 0 <= index < fat.g.rootEntCnt
      then
        && p == 32 * (index % 16) && p + 32 <= fat.buffer.Length
        && 32 * index + 32 <= |fat.Vol().root|
        && fat.buffer[p..p + 32] == ItemAt(fat.Vol().root, index)
        && DirtyItem(fat, index)
      else p == -1
  {
    hide VolOf, Mirrored, ItemAt, Flat;
    if index < 0 || index >= fat.g.rootEntCnt {
      return -1;
    }
    var offset := index * DIRITEM_SIZE;
    ItemSector(index);
    var s := fat.g.RootStart() + offset / SECTOR_SIZE;
    var err := fat.BreadSector(s);
    p := offset % SECTOR_SIZE;
    RootItem(fat.disk, fat.g, index);
    CleanItem(fat, index);
  }

  lemma ItemSector(i: nat)
    ensures i * 32 / 512 == i / 16 && i * 32 % 512 == 32 * (i % 16)
  {
    ModUnique(i * 32, 512, i / 16, 32 * (i % 16));
  }

  lemma RootItem(d: seq<Sector>, g: Geometry, i: nat)
    requires Fits(d, g) && i < g.rootEntCnt
    ensures 32 * i + 32 <= |VolOf(d, g).root| && g.RootStart() + i / 16 < g.DataStart()
    ensures var o := 32 * (i % 16);
      ItemAt(VolOf(d, g).root, i) == d[g.RootStart() + i / 16][o..o + 32]
  {
    var o := 32 * (i % 16);
    var a, b := ItemAt(VolOf(d, g).root, i), d[g.RootStart() + i / 16][o..o + 32];
    forall k | 0 <= k < 32 ensures a[k] == b[k] {
      ModUnique(32 * i + k, 512, i / 16, o + k);
      assert a[k] == VolOf(d, g).root[32 * i + k];
    }
  }

  /** Splicing an entry into its sector splices it into the root directory. */
  lemma SectorSplice(root: seq<Byte>, i: nat, sec: Sector, e: Item)
    requires 512 * (i / 16) + 512 <= |root|
    requires var o := 32 * (i % 16); var was := root[512 * (i / 16)..512 * (i / 16) + 512];
      sec == was[..o] + e + was[o + 32..]
    ensures root[..512 * (i / 16)] + sec + root[512 * (i / 16) + 512..] == SetItem(root, i, e)
  {
    var b, o := 512 * (i / 16), 32 * (i % 16);
    assert b + o == 32 * i;
    assert root[..b] + root[b..b + 512][..o] == root[..32 * i];
    assert root[b..b + 512][o + 32..] + root[b + 512..] == root[32 * i + 32..];
    assert root[..b] + sec + root[b + 512..]
        == (root[..b] + root[b..b + 512][..o]) + e + (root[b..b + 512][o + 32..] + root[b + 512..]);
  }

  /** `write_dir_entry`. */
  method WriteDirEntry(fat: Fat, item: Item, index: int) returns (err: int)
    requires fat.Valid() || (index >= 0 && DirtyItem(fat, index))
    modifies fat`disk, fat`currSector, fat.buffer
    ensures fat.KeepsMirror()
    ensures if 0 <= index < fat.g.rootEntCnt
      then
        && err == 0 && fat.Valid()
        && 32 * index + 32 <= |old(fat.Vol().root)|
        && fat.Vol() == old(fat.Vol()).(root := SetItem(old(fat.Vol().root), index, item))
      else
        && err == -1 && fat.disk == old(fat.disk)
        && fat.buffer[..] == old(fat.buffer[..]) && fat.currSector == old(fat.currSector)
  {
    if index < 0 || index >= fat.g.rootEntCnt {
      return -1;
    }
    var offset := index * DIRITEM_SIZE;
    var o := offset % SECTOR_SIZE;
    var sector := fat.g.RootStart() + offset / SECTOR_SIZE;
    err := ReplaceItem(fat, item, index, sector, o);
    ItemWritten(old(fat.disk), fat.disk, fat.g, index, item);
  }

  ghost predicate ItemStored(d: seq<Sector>, d': seq<Sector>, g: Geometry, i: nat, e: Item)
    requires Fits(d, g) && i < g.rootEntCnt
  {
    var s, o := g.RootStart() + i / 16, 32 * (i % 16);
    && s < |d| && d' == d[s := d[s][..o] + e + d[s][o + 32..]]
  }

  lemma ItemWritten(d: seq<Sector>, d': seq<Sector>, g: Geometry, i: nat, e: Item)
    requires Fits(d, g) && i < g.rootEntCnt && ItemStored(d, d', g, i, e)
    ensures 32 * i + 32 <= |VolOf(d, g).root|
    ensures Fits(d', g) && VolOf(d', g) == VolOf(d, g).(root := SetItem(VolOf(d, g).root, i, e))
    ensures Mirrored(d, g) ==> Mirrored(d', g)
  {
    hide Flat, ItemAt, SetItem;
    RootItem(d, g, i);
    var s, o := g.RootStart() + i / 16, 32 * (i % 16);
    var sec: Sector := d[s][..o] + e + d[s][o + 32..];
    var root := VolOf(d, g).root;
    WriteRootVol(d, g, i / 16, sec);
    FlatSector(d, g.RootStart(), g.RootSectors(), i / 16);
    SectorSplice(root, i, sec, e);
  }

  lemma FlatSector(d: seq<Sector>, start: nat, n: nat, s: nat)
    requires start + n <= |d| && s < n
    ensures Flat(d, start, n)[512 * s..512 * s + 512] == d[start + s]
  {
    var r := Flat(d, start, n)[512 * s..512 * s + 512];
    forall k | 0 <= k < 512 ensures r[k] == d[start + s][k] { ModUnique(512 * s + k, 512, s, k); }
  }

  method ReplaceItem(fat: Fat, item: Item, index: nat, sector: nat, o: nat) returns (err: int)
    requires fat.Valid() || DirtyItem(fat, index)
    requires index < fat.g.rootEntCnt && sector == fat.g.RootStart() + index / 16 && o == 32 * (index % 16)
    modifies fat`disk, fat`currSector, fat.buffer
    ensures err == 0 && fat.Valid() && ItemStored(old(fat.disk), fat.disk, fat.g, index, item)
  {
    RootItem(fat.disk, fat.g, index);
    err := fat.BreadSector(sector);
    ghost var sec := fat.disk[sector];
    assert fat.buffer[..o] == sec[..o] && fat.buffer[o + 32..SECTOR_SIZE] == sec[o + 32..] by {
      if old(DirtyItem(fat, index)) {
        assert fat.buffer[..o] == fat.buffer[..][..o];
        assert fat.buffer[o + 32..SECTOR_SIZE] == fat.buffer[..][o + 32..SECTOR_SIZE];
      } else {
        assert fat.buffer[..o] == fat.buffer[..SECTOR_SIZE][..o];
        assert fat.buffer[o + 32..SECTOR_SIZE] == fat.buffer[..SECTOR_SIZE][o + 32..];
      }
    }
    forall k | 0 <= k < DIRITEM_SIZE { fat.buffer[o + k] := item[k]; }
    assert fat.buffer[..SECTOR_SIZE] == sec[..o] + item + sec[o + 32..];
    err := fat.BwriteSector(sector);
  }

  // ----- searching -----

  predicate IsEnd(root: seq<Byte>, i: nat)
    requires 32 * i + 32 <= |root|
  {
    ItemAt(root, i)[0] == NAME_END
  }

  predicate IsFreeItem(root: seq<Byte>, i: nat)
    requires 32 * i + 32 <= |root|
  {
    ItemAt(root, i)[0] == NAME_FREE
  }

  predicate Matches(root: seq<Byte>, name: Sfn, i: nat)
    requires 32 * i + 32 <= |root|
  {
    !IsEnd(root, i) && !IsFreeItem(root, i) && ItemName(ItemAt(root, i)) == name
  }

  /** Neither the end mark nor an entry called `name` lies before `i`. */
  ghost predicate Before(root: seq<Byte>, name: Sfn, i: nat)
    requires 32 * i <= |root|
  {
    forall k :: 0 <= k < i ==> !IsEnd(root, k) && !Matches(root, name, k)
  }

  /** Entry `i` is the one a search for `name` finds. */
  ghost predicate FirstMatch(root: seq<Byte>, n: nat, name: Sfn, i: nat)
    requires 32 * n <= |root|
  {
    i < n && Before(root, name, i) && Matches(root, name, i)
  }

  /** No entry is called `name`, and a new one goes to slot `p`: the end mark, or
      else the last deleted entry; -1 when there is neither. */
  ghost predicate SlotFor(root: seq<Byte>, n: nat, name: Sfn, p: int)
    requires 32 * n <= |root|
  {
    || (0 <= p < n && Before(root, name, p) && IsEnd(root, p))
    || (Before(root, name, n) && LastFree(root, n, p))
  }

  ghost predicate LastFree(root: seq<Byte>, n: nat, p: int)
    requires 32 * n <= |root|
  {
    && -1 <= p < n && (p >= 0 ==> IsFreeItem(root, p))
    && forall k :: p < k < n && k >= 0 ==> !IsFreeItem(root, k)
  }

  lemma MatchUnique(root: seq<Byte>, n: nat, name: Sfn, i: nat, j: nat)
    requires 32 * n <= |root| && FirstMatch(root, n, name, i) && FirstMatch(root, n, name, j)
    ensures i == j
  {
  }

  lemma MatchExcludesSlot(root: seq<Byte>, n: nat, name: Sfn, i: nat, p: int)
    requires 32 * n <= |root| && FirstMatch(root, n, name, i)
    ensures !SlotFor(root, n, name, p)
  {
  }

  /** The search loop of `fatfs_open`. */
  method FindItem(fat: Fat, name: Sfn) returns (found: bool, pIndex: int, item: Item)
    requires fat.Valid()
    modifies fat`currSector, fat.buffer
    ensures fat.Valid()
    ensures 32 * fat.g.rootEntCnt <= |fat.Vol().root|
    ensures found ==>
              && pIndex >= 0 && FirstMatch(fat.Vol().root, fat.g.rootEntCnt, name, pIndex)
              && item == ItemAt(fat.Vol().root, pIndex)
    ensures !found ==> SlotFor(fat.Vol().root, fat.g.rootEntCnt, name, pIndex)
  {
    hide VolOf, Mirrored, Fat.CacheAgrees, Fits, ItemAt, DirtyItem;
    RootHolds(fat.disk, fat.g);
    ghost var root := fat.Vol().root;
    var n := fat.g.rootEntCnt;
    pIndex := -1;
    item := seq(DIRITEM_SIZE, _ => 0);
    var i := 0;
    while i < n
      invariant 0 <= i <= n && fat.Valid()
      invariant Before(root, name, i) && LastFree(root, i, pIndex)
    {
      var p := ReadDirEntry(fat, i);
      assert 0 <= 32 * (i % 16) <= 480;
      var e: Item := fat.buffer[p..p + 32];
      if e[0] == NAME_END {
        return false, i, item;
      }
      if e[0] == NAME_FREE {
        pIndex := i;
      } else if e[..SFN_LEN] == name {
        return true, i, e;
      }
      i := i + 1;
    }
    return false, pIndex, item;
  }

  lemma RootHolds(d: seq<Sector>, g: Geometry)
    requires Fits(d, g)
    ensures 32 * g.rootEntCnt <= |VolOf(d, g).root|
  {
  }

  // ----- open and close -----

  /** What `fatfs_open` does to volume `v`, and the handle it fills in. */
  ghost predicate Opened(v: Vol, n: nat, name: Sfn, mode: nat, tenths: Byte, err: int, v': Vol, h': Handle, pIndex: int)
    requires 32 * n <= |v.root|
  {
    && (forall m: nat :: FirstMatch(v.root, n, name, m) ==>
         var e := ItemAt(v.root, m);
         && err == 0 && pIndex == m
         && if And(mode, O_TRUNC) != 0
            then h' == Handle(0, 0, CLUSTER_INVALID, CLUSTER_INVALID)
              && v' == v.(tbl := v'.tbl) && Freed(v.tbl, ItemCluster(e) % 0x1_0000, v'.tbl)
            else h' == Handle(ItemSize(e), 0, ItemCluster(e), ItemCluster(e)) && v' == v)
    && (forall p: int :: SlotFor(v.root, n, name, p) ==>
         if And(mode, O_CREAT) != 0 && p >= 0
         then && err == 0 && pIndex == p
              && h' == Handle(0, 0, CLUSTER_INVALID, CLUSTER_INVALID)
              && v' == v.(root := SetItem(v.root, p, InitItem(name, tenths)))
         else err == -1 && v' == v)
  }

  lemma SlotUnique(root: seq<Byte>, n: nat, name: Sfn, p: int, q: int)
    requires 32 * n <= |root| && SlotFor(root, n, name, p) && SlotFor(root, n, name, q)
    ensures p == q
  {
    if 0 <= p < n && Before(root, name, p) && IsEnd(root, p) {
      assert !Before(root, name, n);
    }
    if 0 <= q < n && Before(root, name, q) && IsEnd(root, q) {
      assert !Before(root, name, n);
    }
  }

  method FatfsOpen(fat: Fat, name: Sfn, file: File, tenths: Byte) returns (err: int)
    requires fat.Valid()
    modifies fat`disk, fat`currSector, fat.buffer, file
    ensures fat.Valid() && fat.KeepsMirror() && file.mode == old(file.mode)
    ensures 32 * fat.g.rootEntCnt <= |old(fat.Vol().root)|
    ensures Opened(old(fat.Vol()), fat.g.rootEntCnt, name, file.mode, tenths, err, fat.Vol(), file.H(), file.pIndex)
    ensures (exists m: nat :: FirstMatch(old(fat.Vol().root), fat.g.rootEntCnt, name, m))
         || (exists p: int :: SlotFor(old(fat.Vol().root), fat.g.rootEntCnt, name, p))
  {
    hide VolOf, Mirrored, Fat.CacheAgrees, Fits, ItemAt, DirtyItem, SlotFor, FirstMatch, ItemSize, ItemCluster,
         InitItem, And, Freed, SetItem;
    ghost var v := fat.Vol();
    var found, pIndex, item := FindItem(fat, name);
    if found {
      OnlyMatch(v.root, fat.g.rootEntCnt, name, pIndex);
      file.size := ItemSize(item);
      file.pos := 0;
      file.sblk := ItemCluster(item);
      file.cblk := file.sblk;
      file.pIndex := pIndex;
      if And(file.mode, O_TRUNC) != 0 {
        ClusterFreeChain(fat, file.sblk % 0x1_0000);
        file.cblk, file.sblk := CLUSTER_INVALID, CLUSTER_INVALID;
        file.size := 0;
      }
      return 0;
    } else if And(file.mode, O_CREAT) != 0 && pIndex >= 0 {
      OnlySlot(v.root, fat.g.rootEntCnt, name, pIndex);
      var e := InitItem(name, tenths);
      InitItemFields(name, tenths);
      err := WriteDirEntry(fat, e, pIndex);
      if err < 0 {
        return -1;
      }
      file.size := ItemSize(e);
      file.pos := 0;
      file.sblk := ItemCluster(e);
      file.cblk := file.sblk;
      file.pIndex := pIndex;
      return 0;
    } else {
      OnlySlot(v.root, fat.g.rootEntCnt, name, pIndex);
      return -1;
    }
  }

  lemma OnlyMatch(root: seq<Byte>, n: nat, name: Sfn, i: nat)
    requires 32 * n <= |root| && FirstMatch(root, n, name, i)
    ensures forall m: nat :: FirstMatch(root, n, name, m) ==> m == i
    ensures forall p: int :: !SlotFor(root, n, name, p)
  {
    forall m: nat | FirstMatch(root, n, name, m) ensures m == i { MatchUnique(root, n, name, i, m); }
    forall p: int ensures !SlotFor(root, n, name, p) { MatchExcludesSlot(root, n, name, i, p); }
  }

  lemma OnlySlot(root: seq<Byte>, n: nat, name: Sfn, p: int)
    requires 32 * n <= |root| && SlotFor(root, n, name, p)
    ensures -1 <= p < n
    ensures forall m: nat :: !FirstMatch(root, n, name, m)
    ensures forall q: int :: SlotFor(root, n, name, q) ==> q == p
  {
    forall m: nat ensures !FirstMatch(root, n, name, m) {
      if FirstMatch(root, n, name, m) { MatchExcludesSlot(root, n, name, m, p); }
    }
    forall q: int | SlotFor(root, n, name, q) ensures q == p { SlotUnique(root, n, name, p, q); }
  }

  method FatfsClose(fat: Fat, file: File)
    requires fat.Valid()
    modifies fat`disk, fat`currSector, fat.buffer
    ensures fat.Valid() && fat.KeepsMirror()
    ensures if file.mode != O_RDONLY && 0 <= file.pIndex < fat.g.rootEntCnt
      then
        && 32 * file.pIndex + 32 <= |old(fat.Vol().root)|
        && fat.Vol() == old(fat.Vol()).(root := SetItem(old(fat.Vol().root), file.pIndex,
             CloseItem(ItemAt(old(fat.Vol().root), file.pIndex), file.size, file.sblk)))
      else fat.disk == old(fat.disk)
  {
    if file.mode == O_RDONLY {
      return;
    }
    var p := ReadDirEntry(fat, file.pIndex);
    if p == -1 {
      return;
    }
    EditItem(fat, file, file.pIndex, p);
    var err := WriteDirEntry(fat, fat.buffer[p..p + 32], file.pIndex);
  }

  /** The stores of `fatfs_close` into the cached entry. */
  method EditItem(fat: Fat, file: File, index: nat, p: nat)
    requires DirtyItem(fat, index) && p == 32 * (index % 16)
    modifies fat.buffer
    ensures DirtyItem(fat, index)
    ensures fat.buffer[p..p + 32] == CloseItem(old(fat.buffer[p..p + 32]), file.size, file.sblk)
  {
    hide Lo8, Hi8, VolOf, Fits;
    var b := fat.buffer;
    b[p + 28], b[p + 29], b[p + 30], b[p + 31] :=
      Lo8(file.size), Hi8(file.size), Lo8(file.size / 0x1_0000), Hi8(file.size / 0x1_0000);
    b[p + 20], b[p + 21] := Lo8(file.sblk / 0x1_0000), Hi8(file.sblk / 0x1_0000);
    b[p + 26], b[p + 27] := Lo8(file.sblk), Hi8(file.sblk);
    assert b[..p] == old(b[..p]);
    assert b[p + 32..SECTOR_SIZE] == old(b[p + 32..SECTOR_SIZE]);
  }

  // ----- round trips -----

  /** Closing keeps the entry findable under its name. */
  lemma CloseKeepsNames(root: seq<Byte>, n: nat, name: Sfn, i: nat, m: nat, size: nat, sblk: nat)
    requires 32 * n <= |root| && m < n && size < TWO32 && sblk < TWO32 && i < n
    ensures var root' := SetItem(root, m, CloseItem(ItemAt(root, m), size, sblk));
      && (Matches(root', name, i) <==> Matches(root, name, i))
      && (IsEnd(root', i) <==> IsEnd(root, i))
      && (IsFreeItem(root', i) <==> IsFreeItem(root, i))
  {
    hide CloseItem, SetItem;
    var e := ItemAt(root, m);
    CloseItemFields(e, size, sblk);
    ItemAtSet(root, m, CloseItem(e, size, sblk), i);
    assert ItemName(CloseItem(e, size, sblk))[0] == CloseItem(e, size, sblk)[0];
    assert ItemName(e)[0] == e[0];
  }

  lemma CloseKeepsMatch(root: seq<Byte>, n: nat, name: Sfn, i: nat, m: nat, size: nat, sblk: nat)
    requires 32 * n <= |root| && m < n && size < TWO32 && sblk < TWO32 && FirstMatch(root, n, name, i)
    ensures FirstMatch(SetItem(root, m, CloseItem(ItemAt(root, m), size, sblk)), n, name, i)
  {
    hide Matches, IsEnd, SetItem, CloseItem, ItemAt;
    forall k | 0 <= k < n
      ensures var root' := SetItem(root, m, CloseItem(ItemAt(root, m), size, sblk));
        (Matches(root', name, k) <==> Matches(root, name, k)) && (IsEnd(root', k) <==> IsEnd(root, k))
    {
      CloseKeepsNames(root, n, name, k, m, size, sblk);
    }
  }

  lemma MatchInRoot(root: seq<Byte>, n: nat, name: Sfn, m: nat)
    requires 32 * n <= |root| && FirstMatch(root, n, name, m)
    ensures m < n
  {
  }

  /** A truncating open frees what the entry names. For a file created and not closed since,
      that is nothing, and the clusters written through the other handle stay taken. */
  lemma TruncatesByEntry(v: Vol, n: nat, name: Sfn, m: nat, mode: nat, tenths: Byte, err: int, v': Vol, h': Handle,
                         pIndex: int)
    requires 32 * n <= |v.root| && FirstMatch(v.root, n, name, m) && And(mode, O_TRUNC) != 0
    requires Opened(v, n, name, mode, tenths, err, v', h', pIndex)
    ensures m < n && err == 0 && v' == v.(tbl := v'.tbl)
    ensures Freed(v.tbl, ItemCluster(ItemAt(v.root, m)) % 0x1_0000, v'.tbl)
    ensures !ClusterIsValid(ItemCluster(ItemAt(v.root, m)) % 0x1_0000) ==> v' == v
  {
    hide And, ItemAt, ItemCluster, FirstMatch, SetItem;
    MatchInRoot(v.root, n, name, m);
    var s := ItemCluster(ItemAt(v.root, m)) % 0x1_0000;
    if !ClusterIsValid(s) {
      forall c | 0 <= c < |v.tbl| ensures v'.tbl[c] == v.tbl[c] { ReachesNothing(v.tbl, s, c); }
    }
  }

  lemma ReachesNothing(t: seq<nat>, s: int, c: int)
    requires !ClusterIsValid(s)
    ensures !Reaches(t, s, c)
  {
    if Reaches(t, s, c) {
      var k: nat :| Walk(t, s, k) == c;
      if k > 0 {
        assert !ClusterIsValid(Walk(t, s, 1));
        WalkStaysInvalid(t, s, 1, k);
      }
      assert false;
    }
  }

  /** After a close the entry names the chain, and a truncating open frees it. */
  lemma TruncateAfterClose(v: Vol, n: nat, name: Sfn, m: nat, h: Handle, v1: Vol, mode: nat, tenths: Byte, err: int,
                           v2: Vol, h2: Handle, pIndex: int)
    requires 32 * n <= |v.root| && FirstMatch(v.root, n, name, m) && h.size < TWO32 && h.sblk < 0x1_0000
    requires m < n && v1 == v.(root := SetItem(v.root, m, CloseItem(ItemAt(v.root, m), h.size, h.sblk)))
    requires And(mode, O_TRUNC) != 0 && Opened(v1, n, name, mode, tenths, err, v2, h2, pIndex)
    ensures err == 0 && h2 == Handle(0, 0, CLUSTER_INVALID, CLUSTER_INVALID)
    ensures Freed(v.tbl, h.sblk, v2.tbl) && v2 == v1.(tbl := v2.tbl)
  {
    hide And, ItemAt, ItemCluster, FirstMatch, SlotFor, SetItem, CloseItem, Freed, Opened, InitItem;
    EntryAfterClose(v.root, n, m, h);
    CloseKeepsMatch(v.root, n, name, m, m, h.size, h.sblk);
    TruncatesByEntry(v1, n, name, m, mode, tenths, err, v2, h2, pIndex);
    TruncatedHandle(v1, n, name, m, mode, tenths, err, v2, h2, pIndex);
  }

  lemma EntryAfterClose(root: seq<Byte>, n: nat, m: nat, h: Handle)
    requires 32 * n <= |root| && m < n && h.size < TWO32 && h.sblk < 0x1_0000
    ensures var root' := SetItem(root, m, CloseItem(ItemAt(root, m), h.size, h.sblk));
      ItemSize(ItemAt(root', m)) == h.size && ItemCluster(ItemAt(root', m)) % 0x1_0000 == h.sblk
  {
    hide ItemAt, ItemCluster, ItemSize, SetItem, CloseItem;
    var e := ItemAt(root, m);
    CloseItemFields(e, h.size, h.sblk);
    ItemAtSet(root, m, CloseItem(e, h.size, h.sblk), m);
  }

  lemma TruncatedHandle(v: Vol, n: nat, name: Sfn, m: nat, mode: nat, tenths: Byte, err: int, v': Vol, h': Handle,
                        pIndex: int)
    requires 32 * n <= |v.root| && FirstMatch(v.root, n, name, m) && And(mode, O_TRUNC) != 0
    requires Opened(v, n, name, mode, tenths, err, v', h', pIndex)
    ensures h' == Handle(0, 0, CLUSTER_INVALID, CLUSTER_INVALID)
  {
    hide And, ItemAt, ItemCluster, ItemSize, FirstMatch, SlotFor, SetItem, Freed;
    MatchInRoot(v.root, n, name, m);
  }

  /** Close, then open without O_TRUNC: the file comes back with the size and the
      first cluster it was closed with, so its content is readable from the start. */
  lemma ReopenAfterClose(v: Vol, n: nat, csz: nat, name: Sfn, m: nat, h: Handle, ch: seq<nat>, v1: Vol,
                         mode: nat, tenths: Byte, err: int, v2: Vol, h2: Handle, pIndex: int)
    requires 32 * n <= |v.root| && FirstMatch(v.root, n, name, m)
    requires Readable(v, csz, h, ch) && h.size < TWO32
    requires v1 == v.(root := SetItem(v.root, m, CloseItem(ItemAt(v.root, m), h.size, h.sblk)))
    requires And(mode, O_TRUNC) == 0
    requires Opened(v1, n, name, mode, tenths, err, v2, h2, pIndex)
    ensures err == 0 && v2 == v1 && pIndex == m && h2 == Handle(h.size, 0, h.sblk, h.sblk)
    ensures Readable(v2, csz, h2, ch)
    ensures Covers(v, csz, ch, h.size) && Covers(v2, csz, ch, h.size)
    ensures Content(v2, csz, ch, h2.size) == Content(v, csz, ch, h.size)
  {
    hide CloseItem, SetItem, ItemAt, IsPath, And, Freed, FirstMatch;
    MatchInRoot(v.root, n, name, m);
    var e := ItemAt(v.root, m);
    CloseItemFields(e, h.size, h.sblk);
    ItemAtSet(v.root, m, CloseItem(e, h.size, h.sblk), m);
    CloseKeepsMatch(v.root, n, name, m, m, h.size, h.sblk);
    ReadableCovers(v, csz, h, ch);
    ReadableCovers(v2, csz, h, ch);
    ContentPrefix(v, v2, csz, ch, ch, |ch|, h.size);
  }

  /** A created file is found again under its name, unless the name itself reads as a mark. */
  lemma CreatedIsFound(v: Vol, n: nat, name: Sfn, p: nat, tenths: Byte)
    requires 32 * n <= |v.root| && SlotFor(v.root, n, name, p)
    ensures p < n
    ensures FirstMatch(SetItem(v.root, p, InitItem(name, tenths)), n, name, p)
        <==> name[0] != NAME_END && name[0] != NAME_FREE
  {
    hide InitItem, SetItem, ItemAt;
    var e := InitItem(name, tenths);
    var root' := SetItem(v.root, p, e);
    InitItemFields(name, tenths);
    assert ItemName(e)[0] == e[0];
    ItemAtSet(v.root, p, e, p);
    forall i | 0 <= i < p
      ensures !IsEnd(root', i) && !Matches(root', name, i)
    {
      ItemAtSet(v.root, p, e, i);
      assert !IsEnd(v.root, i) && !Matches(v.root, name, i);
    }
  }
}
