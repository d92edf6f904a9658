/** Where everything is on the disk, from the boot record's fields alone. */
module FatPlace {
  import opened Bits
  import opened FatLayout
  import opened FatChain
  import opened FatFile

  // ----- the regions tile the volume -----

  datatype Region = FirstTable | SecondTable | RootDir | Cluster(c: nat)

  /** Sector `s` holds a part of region `r`: two tables of `tblSectors` sectors, a directory of
      `rootEntCnt` entries of 32 bytes each, clusters of `secPerCluster` sectors. */
  ghost predicate LiesIn(g: Geometry, s: nat, r: Region) {
    match r
    case FirstTable => g.tblStart <= s < g.tblStart + g.tblSectors
    case SecondTable => g.tblStart + g.tblSectors <= s < g.tblStart + 2 * g.tblSectors
    case RootDir => g.tblStart + 2 * g.tblSectors <= s && 512 * (s - g.tblStart - 2 * g.tblSectors) < 32 * g.rootEntCnt
    case Cluster(c) => 2 <= c < g.clusters + 2 && g.ClusterSector(c) <= s < g.ClusterSector(c) + g.secPerCluster
  }

  /** Cluster 2 begins right behind the sector of the last directory entry, and each cluster
      right behind the one before. */
  lemma ClusterFollows(g: Geometry, c: nat)
    requires g.Ok() && c >= 2
    ensures g.rootEntCnt > 0 ==>
      g.ClusterSector(2) == g.tblStart + 2 * g.tblSectors + 32 * (g.rootEntCnt - 1) / 512 + 1
    ensures g.rootEntCnt == 0 ==> g.ClusterSector(2) == g.tblStart + 2 * g.tblSectors
    ensures g.ClusterSector(c + 1) == g.ClusterSector(c) + g.secPerCluster
    ensures g.ClusterSector(c) == g.tblStart + 2 * g.tblSectors + g.rootEntCnt / 16 + (c - 2) * g.secPerCluster
    ensures 32 * g.rootEntCnt == 512 * (g.rootEntCnt / 16)
  {
    assert (c - 1) * g.secPerCluster == (c - 2) * g.secPerCluster + g.secPerCluster;
  }

  /** Every sector from the first table to the end of the last cluster lies in exactly one
      region, and no sector behind lies in any. */
  lemma RegionsTile(g: Geometry, s: nat)
    requires g.Ok() && s >= g.tblStart
    ensures (exists r :: LiesIn(g, s, r)) <==> s < g.ClusterSector(g.clusters + 2)
    ensures forall r, r' :: LiesIn(g, s, r) && LiesIn(g, s, r') ==> r == r'
  {
    ClusterFollows(g, 2);
    forall r, r' | LiesIn(g, s, r) && LiesIn(g, s, r') ensures r == r' && s < g.ClusterSector(g.clusters + 2) {
      RegionBounds(g, s, r);
      RegionBounds(g, s, r');
      if r.Cluster? && r'.Cluster? {
        if r.c < r'.c { ClustersDisjoint(g, r.c, r'.c); } else if r'.c < r.c { ClustersDisjoint(g, r'.c, r.c); }
      }
    }
    if s < g.ClusterSector(g.clusters + 2) {
      var r := RegionOf(g, s);
    }
  }

  lemma RegionBounds(g: Geometry, s: nat, r: Region)
    requires g.Ok() && LiesIn(g, s, r)
    ensures s < g.ClusterSector(g.clusters + 2)
    ensures s < g.ClusterSector(2) <==> !r.Cluster?
  {
    ClusterFollows(g, 2);
    MulMono(0, g.clusters, g.secPerCluster);
    if r.Cluster? { ClusterInDisk(g, r.c); }
  }

  lemma RegionOf(g: Geometry, s: nat) returns (r: Region)
    requires g.Ok() && g.tblStart <= s < g.ClusterSector(g.clusters + 2)
    ensures LiesIn(g, s, r)
  {
    ClusterFollows(g, 2);
    if s < g.tblStart + g.tblSectors {
      r := FirstTable;
    } else if s < g.tblStart + 2 * g.tblSectors {
      r := SecondTable;
    } else if s < g.ClusterSector(2) {
      r := RootDir;
    } else {
      var c := 2;
      while s >= g.ClusterSector(c + 1)
        invariant 2 <= c < g.clusters + 2 && g.ClusterSector(c) <= s
        decreases g.clusters + 2 - c
      {
        ClusterFollows(g, c);
        if c + 1 < g.clusters + 2 {
          c := c + 1;
        } else {
          assert false;
        }
      }
      ClusterFollows(g, c);
      r := Cluster(c);
    }
  }

  // ----- where the parts of a volume are -----

  /** Table entry `c`: a little-endian word in the first table. */
  lemma EntryOnDisk(d: seq<Sector>, g: Geometry, c: nat)
    requires Fits(d, g) && c < 256 * g.tblSectors
    ensures g.tblStart + c / 256 < |d| && |VolOf(d, g).tbl| == 256 * g.tblSectors
    ensures var s := d[g.tblStart + c / 256];
      VolOf(d, g).tbl[c] == (s[2 * (c % 256)] as int) + 256 * (s[2 * (c % 256) + 1] as int)
  {
    EntrySector(g, c);
    assert VolOf(d, g).tbl[c] == Entry(d, g, c);
  }

  /** Byte `k` of the root directory. */
  lemma RootOnDisk(d: seq<Sector>, g: Geometry, k: nat)
    requires Fits(d, g) && k < 32 * g.rootEntCnt
    ensures g.tblStart + 2 * g.tblSectors + k / 512 < |d| && |VolOf(d, g).root| == 32 * g.rootEntCnt
    ensures VolOf(d, g).root[k] == d[g.tblStart + 2 * g.tblSectors + k / 512][k % 512]
  {
  }

  /** Sector of byte `k` of cluster `c`. */
  function SectorOf(g: Geometry, c: nat, k: nat): int {
    g.tblStart + 2 * g.tblSectors + g.rootEntCnt / 16 + (c - 2) * g.secPerCluster + k / 512
  }

  /** Byte `k` of cluster `c`. */
  lemma ClusterOnDisk(d: seq<Sector>, g: Geometry, c: nat, k: nat)
    requires Fits(d, g) && 2 <= c < g.clusters + 2 && k < 512 * g.secPerCluster
    ensures |VolOf(d, g).data| == g.clusters + 2 && |VolOf(d, g).data[c]| == 512 * g.secPerCluster
    ensures 0 <= SectorOf(g, c, k) < |d| && VolOf(d, g).data[c][k] == d[SectorOf(g, c, k)][k % 512]
  {
    ClusterFollows(g, c);
    ClusterInDisk(g, c);
  }

  lemma OffsetInSector(n: nat, p: nat)
    requires n > 0
    ensures p % (512 * n) % 512 == p % 512
  {
    var q, r := p / (512 * n), p % (512 * n);
    assert p == 512 * n * q + r && r == 512 * (r / 512) + r % 512;
    assert 512 * n * q == 512 * (n * q);
    ModUnique(p, 512, n * q + r / 512, r % 512);
  }

  /** Byte `p` of a file is `x`: it is on the disk in the cluster at position `p / csz` of the
      file's chain. */
  ghost predicate OnDiskAt(d: seq<Sector>, g: Geometry, ch: seq<nat>, p: nat, x: Byte) {
    var csz := 512 * g.secPerCluster;
    && csz > 0 && p / csz < |ch| && 0 <= SectorOf(g, ch[p / csz], p % csz) < |d|
    && d[SectorOf(g, ch[p / csz], p % csz)][p % 512] == x
  }

  lemma ContentOnDisk(d: seq<Sector>, g: Geometry, ch: seq<nat>, size: nat, p: nat)
    requires Fits(d, g) && p < size && Covers(VolOf(d, g), g.ClusterSize(), ch, size)
    requires forall k :: 0 <= k < |ch| ==> 2 <= ch[k]
    ensures OnDiskAt(d, g, ch, p, Content(VolOf(d, g), g.ClusterSize(), ch, size)[p])
  {
    hide VolOf, SectorOf, Fits, Geometry.ClusterSector, Content, Covers;
    var csz := g.ClusterSize();
    ContentAt(VolOf(d, g), csz, ch, size, p);
    OffsetInSector(g.secPerCluster, p);
    ClusterOnDisk(d, g, ch[p / csz], p % csz);
  }

  lemma ContentAt(v: Vol, csz: nat, ch: seq<nat>, size: nat, p: nat)
    requires Covers(v, csz, ch, size) && p < size
    ensures csz > 0 && p / csz < |ch| && ch[p / csz] < |v.data| && p % csz < |v.data[ch[p / csz]]| == csz
    ensures Content(v, csz, ch, size)[p] == v.data[ch[p / csz]][p % csz]
  {
    CoversIndex(size, csz, |ch|, p);
  }

  /** So with any part of it. */
  lemma PartOnDisk(d: seq<Sector>, g: Geometry, s: int, ch: seq<nat>, size: nat, from: nat, to: nat)
    requires Fits(d, g) && from <= to <= size && Covers(VolOf(d, g), g.ClusterSize(), ch, size)
    requires ChainFrom(VolOf(d, g).tbl, s, ch)
    ensures var part := Content(VolOf(d, g), g.ClusterSize(), ch, size)[from..to];
      forall i :: 0 <= i < |part| ==> OnDiskAt(d, g, ch, from + i, part[i])
  {
    hide VolOf, Fits, OnDiskAt, Content, Covers;
    var part := Content(VolOf(d, g), g.ClusterSize(), ch, size)[from..to];
    forall i | 0 <= i < |part| ensures OnDiskAt(d, g, ch, from + i, part[i]) {
      ContentOnDisk(d, g, ch, size, from + i);
    }
  }
}
