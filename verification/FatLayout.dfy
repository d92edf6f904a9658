/** On-disk layout of a FAT16 volume: geometry, the sectors of the table, the
    root directory and the clusters, and the volume they denote. */
module FatLayout {
  import opened Bits

  const SECTOR_SIZE: nat := 512
  const PAGE_SIZE: nat := 4096
  const CLUSTER_INVALID: nat := 0xFFF8
  const CLUSTER_FREE: nat := 0
  const DIRITEM_SIZE: nat := 32

  type Sector = s: seq<Byte> | |s| == SECTOR_SIZE witness seq(SECTOR_SIZE, _ => 0)

  /** The fields `fatfs_mount` reads from the boot record, and the number of clusters in the
      data area, which the driver never looks at. */
  datatype Geometry = Geometry(tblStart: nat, tblSectors: nat, rootEntCnt: nat, secPerCluster: nat, clusters: nat)
  {
    function RootStart(): nat { tblStart + 2 * tblSectors }
    function RootSectors(): nat { rootEntCnt * 32 / 512 }
    function DataStart(): nat { RootStart() + RootSectors() }
    function ClusterSize(): nat { secPerCluster * 512 }
    /** Number of entries in one table. */
    function Total(): nat { tblSectors * 256 }
    /** Clusters are numbered from 2 up to here; the table may have entries beyond. */
    function Limit(): nat { clusters + 2 }
    function ClusterSector(c: nat): nat
      requires c >= 2
    {
      DataStart() + (c - 2) * secPerCluster
    }

    /** What the driver assumes of a volume: whole root sectors, a cluster that
        fits the one-page buffer, and a table `cluster_t` can index. */
    predicate Ok() {
      && 1 <= tblStart && 1 <= tblSectors <= 255
      && rootEntCnt % 16 == 0
      && secPerCluster in {1, 2, 4, 8}
      && Limit() <= Total()
    }
  }

  /** `cluster_is_valid` (fatfs.c:62). */
  predicate ClusterIsValid(c: int) {
    2 <= c < CLUSTER_INVALID
  }

  // ----- bytes -----

  /** The bytes of `n` consecutive sectors. */
  ghost function Flat(d: seq<Sector>, start: nat, n: nat): (r: seq<Byte>)
    requires start + n <= |d|
    ensures |r| == 512 * n
  {
    seq(512 * n, k requires 0 <= k < 512 * n => d[start + k / 512][k % 512])
  }

  /** Little-endian 16-bit word. */
  function Word16(lo: Byte, hi: Byte): (w: nat)
    ensures w < 0x1_0000
  {
    lo + 256 * hi
  }

  function Lo8(w: nat): Byte { w % 256 }
  function Hi8(w: nat): Byte { (w / 256) % 256 }

  // ----- the volume a disk denotes -----

  /** Abstract volume: table entries, cluster contents (indexed by cluster number, nothing at
      0 and 1, and fewer than the table has entries) and the bytes of the root directory. */
  datatype Vol = Vol(tbl: seq<nat>, data: seq<seq<Byte>>, root: seq<Byte>)

  ghost predicate Fits(d: seq<Sector>, g: Geometry) {
    g.Ok() && g.DataStart() + g.clusters * g.secPerCluster <= |d|
  }

  ghost function Entry(d: seq<Sector>, g: Geometry, c: nat): (e: nat)
    requires Fits(d, g) && c < g.Total()
    ensures e < 0x1_0000
  {
    var s := d[g.tblStart + c / 256];
    Word16(s[2 * (c % 256)], s[2 * (c % 256) + 1])
  }

  ghost function ClusterData(d: seq<Sector>, g: Geometry, c: nat): (r: seq<Byte>)
    requires Fits(d, g) && c < g.Limit()
  {
    if c < 2 then [] else
      ClusterInDisk(g, c);
      Flat(d, g.ClusterSector(c), g.secPerCluster)
  }

  lemma ClusterInDisk(g: Geometry, c: nat)
    requires g.Ok() && 2 <= c < g.Limit()
    ensures g.DataStart() <= g.ClusterSector(c)
    ensures g.ClusterSector(c) + g.secPerCluster <= g.DataStart() + g.clusters * g.secPerCluster
  {
    MulMono(0, c - 2, g.secPerCluster);
    MulMono(c - 1, g.clusters, g.secPerCluster);
    assert (c - 1) * g.secPerCluster == (c - 2) * g.secPerCluster + g.secPerCluster;
  }

  /** Different clusters occupy different sectors. */
  lemma ClustersDisjoint(g: Geometry, c: nat, c': nat)
    requires g.Ok() && 2 <= c < c'
    ensures g.ClusterSector(c) + g.secPerCluster <= g.ClusterSector(c')
  {
    MulMono(c - 1, c' - 2, g.secPerCluster);
    assert (c - 1) * g.secPerCluster == (c - 2) * g.secPerCluster + g.secPerCluster;
  }

  ghost function VolOf(d: seq<Sector>, g: Geometry): (v: Vol)
    requires Fits(d, g)
    ensures |v.tbl| == g.Total() <= 65280 && |v.data| == g.Limit() <= |v.tbl|
    ensures |v.root| == 512 * g.RootSectors()
  {
    Vol(seq(g.Total(), c requires 0 <= c < g.Total() => Entry(d, g, c)),
        seq(g.Limit(), c requires 0 <= c < g.Limit() => ClusterData(d, g, c)),
        Flat(d, g.RootStart(), g.RootSectors()))
  }

  /** Both table copies hold the same sectors. */
  ghost predicate Mirrored(d: seq<Sector>, g: Geometry)
    requires Fits(d, g)
  {
    forall s :: g.tblStart <= s < g.tblStart + g.tblSectors ==> d[s] == d[s + g.tblSectors]
  }

  // ----- how the three kinds of disk write act on the volume -----

  ghost function PutSectors(d: seq<Sector>, start: nat, n: nat, b: seq<Byte>): (r: seq<Sector>)
    requires start + n <= |d| && |b| >= 512 * n
    ensures |r| == |d|
  {
    seq(|d|, s requires 0 <= s < |d| =>
      if start <= s < start + n then b[512 * (s - start)..512 * (s - start) + 512] else d[s])
  }

  lemma FlatOfPut(d: seq<Sector>, start: nat, n: nat, b: seq<Byte>)
    requires start + n <= |d| && |b| >= 512 * n
    ensures Flat(PutSectors(d, start, n, b), start, n) == b[..512 * n]
  {
    var d' := PutSectors(d, start, n, b);
    forall k | 0 <= k < 512 * n
      ensures Flat(d', start, n)[k] == b[k]
    {
      assert d'[start + k / 512] == b[512 * (k / 512)..512 * (k / 512) + 512];
    }
  }

  lemma FlatElsewhere(d: seq<Sector>, d': seq<Sector>, start: nat, n: nat)
    requires start + n <= |d| == |d'|
    requires forall s :: start <= s < start + n ==> d'[s] == d[s]
    ensures Flat(d', start, n) == Flat(d, start, n)
  {
  }

  /** Writing cluster `c` changes that cluster's bytes and nothing else. */
  lemma WriteClusterVol(d: seq<Sector>, g: Geometry, c: nat, b: seq<Byte>)
    requires Fits(d, g) && 2 <= c < g.Limit() && |b| >= g.ClusterSize()
    requires g.ClusterSector(c) + g.secPerCluster <= |d|
    ensures var d' := PutSectors(d, g.ClusterSector(c), g.secPerCluster, b);
      VolOf(d', g) == VolOf(d, g).(data := VolOf(d, g).data[c := b[..g.ClusterSize()]])
  {
    var d' := PutSectors(d, g.ClusterSector(c), g.secPerCluster, b);
    var v, v' := VolOf(d, g), VolOf(d', g);
    ClusterInDisk(g, c);
    forall x | 0 <= x < g.Limit()
      ensures v'.data[x] == v.data[c := b[..g.ClusterSize()]][x]
    {
      if x == c {
        FlatOfPut(d, g.ClusterSector(c), g.secPerCluster, b);
      } else if x >= 2 {
        ClusterInDisk(g, x);
        if x < c { ClustersDisjoint(g, x, c); } else { ClustersDisjoint(g, c, x); }
        FlatElsewhere(d, d', g.ClusterSector(x), g.secPerCluster);
      }
    }
    FlatElsewhere(d, d', g.RootStart(), g.RootSectors());
    assert v'.tbl == v.tbl;
    assert v'.data == v.data[c := b[..g.ClusterSize()]];
  }

  lemma WriteClusterMirror(d: seq<Sector>, g: Geometry, c: nat, b: seq<Byte>)
    requires Fits(d, g) && 2 <= c < g.Limit() && |b| >= g.ClusterSize()
    requires g.ClusterSector(c) + g.secPerCluster <= |d|
    ensures var d' := PutSectors(d, g.ClusterSector(c), g.secPerCluster, b);
      && (Mirrored(d, g) ==> Mirrored(d', g))
      && forall s :: 0 <= s < g.DataStart() ==> d'[s] == d[s]
  {
    ClusterInDisk(g, c);
  }

  /** `d'` is `d` with entry `c` of both table copies set to `next`. */
  ghost predicate EntryWritten(d: seq<Sector>, d': seq<Sector>, g: Geometry, c: nat, next: nat)
    requires Fits(d, g) && c < g.Total()
  {
    EntrySector(g, c);
    var s := g.tblStart + c / 256;
    && |d'| == |d|
    && d'[s] == d[s][2 * (c % 256) := Lo8(next)][2 * (c % 256) + 1 := Hi8(next)]
    && d'[s + g.tblSectors] == d'[s]
    && forall x :: 0 <= x < |d| && x != s && x != s + g.tblSectors ==> d'[x] == d[x]
  }

  lemma WriteEntryTable(d: seq<Sector>, d': seq<Sector>, g: Geometry, c: nat, next: nat, x: nat)
    requires Fits(d, g) && c < g.Total() && next < 0x1_0000 && x < g.Total()
    requires EntryWritten(d, d', g, c, next)
    ensures Entry(d', g, x) == if x == c then next else Entry(d, g, x)
  {
    hide Word16, Lo8, Hi8, EntryWritten;
    EntrySector(g, c);
    EntrySector(g, x);
    TableSector(d, d', g, c, next, x / 256);
    if x / 256 == c / 256 {
      assert x != c ==> x % 256 != c % 256;
      SectorEntry(d[g.tblStart + c / 256], c % 256, next, x % 256);
    }
  }

  /** What writing an entry does to sector `i` of the first table. */
  lemma TableSector(d: seq<Sector>, d': seq<Sector>, g: Geometry, c: nat, next: nat, i: nat)
    requires Fits(d, g) && c < g.Total() && i < g.tblSectors && EntryWritten(d, d', g, c, next)
    ensures |d'| == |d| && c / 256 < g.tblSectors
    ensures d'[g.tblStart + i] == if i != c / 256 then d[g.tblStart + i]
                                  else d[g.tblStart + i][2 * (c % 256) := Lo8(next)][2 * (c % 256) + 1 := Hi8(next)]
  {
    hide Lo8, Hi8;
    EntrySector(g, c);
  }

  lemma SectorEntry(s: Sector, k: nat, next: nat, j: nat)
    requires k < 256 && j < 256 && next < 0x1_0000
    ensures var s' := s[2 * k := Lo8(next)][2 * k + 1 := Hi8(next)];
      Word16(s'[2 * j], s'[2 * j + 1]) == if j == k then next else Word16(s[2 * j], s[2 * j + 1])
  {
    LoHi(next);
  }

  lemma EntrySector(g: Geometry, c: nat)
    requires c < g.Total()
    ensures c / 256 < g.tblSectors && c == 256 * (c / 256) + c % 256
  {
  }

  lemma LoHi(w: nat)
    requires w < 0x1_0000
    ensures Word16(Lo8(w), Hi8(w)) == w
  {
  }

  /** Outside the table area nothing a volume denotes depends on the table sectors. */
  lemma TableSectorsOnly(d: seq<Sector>, d': seq<Sector>, g: Geometry)
    requires Fits(d, g) && |d'| == |d|
    requires forall x :: g.RootStart() <= x < |d| ==> d'[x] == d[x]
    ensures VolOf(d', g).data == VolOf(d, g).data
    ensures VolOf(d', g).root == VolOf(d, g).root
  {
    forall x | 0 <= x < g.Limit()
      ensures ClusterData(d', g, x) == ClusterData(d, g, x)
    {
      if x >= 2 {
        ClusterInDisk(g, x);
        FlatElsewhere(d, d', g.ClusterSector(x), g.secPerCluster);
      }
    }
    FlatElsewhere(d, d', g.RootStart(), g.RootSectors());
    assert VolOf(d', g).data == VolOf(d, g).data;
  }

  /** Writing one entry into both copies changes that entry only. */
  lemma WriteEntryVol(d: seq<Sector>, d': seq<Sector>, g: Geometry, c: nat, next: nat)
    requires Fits(d, g) && c < g.Total() && next < 0x1_0000
    requires EntryWritten(d, d', g, c, next)
    ensures VolOf(d', g) == VolOf(d, g).(tbl := VolOf(d, g).tbl[c := next])
  {
    TableSectorsOnly(d, d', g);
    hide Mirrored, Fits, EntryWritten;
    forall x | 0 <= x < g.Total()
      ensures Entry(d', g, x) == VolOf(d, g).tbl[c := next][x]
    {
      WriteEntryTable(d, d', g, c, next, x);
    }
    assert VolOf(d', g).tbl == VolOf(d, g).tbl[c := next];
  }

  lemma WriteEntryMirror(d: seq<Sector>, d': seq<Sector>, g: Geometry, c: nat, next: nat)
    requires Fits(d, g) && c < g.Total()
    requires EntryWritten(d, d', g, c, next)
    ensures Mirrored(d, g) ==> Mirrored(d', g)
  {
    if Mirrored(d, g) {
      var s := g.tblStart + c / 256;
      forall x | g.tblStart <= x < g.tblStart + g.tblSectors ensures d'[x] == d'[x + g.tblSectors] {
        assert x != s ==> d'[x] == d[x] && d'[x + g.tblSectors] == d[x + g.tblSectors];
      }
    }
  }

  /** Neither the table nor the clusters depend on the root-directory sectors. */
  lemma RootSectorsOnly(d: seq<Sector>, d': seq<Sector>, g: Geometry)
    requires Fits(d, g) && |d'| == |d|
    requires forall x :: 0 <= x < |d| && !(g.RootStart() <= x < g.DataStart()) ==> d'[x] == d[x]
    ensures VolOf(d', g).tbl == VolOf(d, g).tbl && VolOf(d', g).data == VolOf(d, g).data
  {
    forall x | 0 <= x < g.Limit()
      ensures ClusterData(d', g, x) == ClusterData(d, g, x)
    {
      if x >= 2 {
        ClusterInDisk(g, x);
        FlatElsewhere(d, d', g.ClusterSector(x), g.secPerCluster);
      }
    }
    assert VolOf(d', g).tbl == VolOf(d, g).tbl;
    assert VolOf(d', g).data == VolOf(d, g).data;
  }

  /** Writing a root-directory sector changes those 512 root bytes only. */
  lemma WriteRootVol(d: seq<Sector>, g: Geometry, s: nat, sec: Sector)
    requires Fits(d, g) && s < g.RootSectors()
    ensures var v := VolOf(d, g);
      VolOf(d[g.RootStart() + s := sec], g)
      == v.(root := v.root[..512 * s] + sec + v.root[512 * s + 512..])
  {
    hide Entry, ClusterData, Flat;
    var d' := d[g.RootStart() + s := sec];
    var v, v' := VolOf(d, g), VolOf(d', g);
    RootSectorsOnly(d, d', g);
    FlatWithSector(d, g.RootStart(), g.RootSectors(), s, sec);
  }

  /** Replacing sector `s` of a run of sectors splices its bytes. */
  lemma FlatWithSector(d: seq<Sector>, start: nat, n: nat, s: nat, sec: Sector)
    requires start + n <= |d| && s < n
    ensures Flat(d[start + s := sec], start, n)
         == Flat(d, start, n)[..512 * s] + sec + Flat(d, start, n)[512 * s + 512..]
  {
    var a := Flat(d[start + s := sec], start, n);
    var b := Flat(d, start, n)[..512 * s] + sec + Flat(d, start, n)[512 * s + 512..];
    forall k | 0 <= k < 512 * n ensures a[k] == b[k] {
      if 512 * s <= k < 512 * s + 512 { ModUnique(k, 512, s, k - 512 * s); }
    }
  }
}
