/** The mounted FAT16 volume: a disk read and written through the driver's
    one-page buffer, whose first sector caches `currSector`. */
module FatDisk {
  import opened Bits
  import opened FatLayout
  import opened FatChain

  class Fat {
    const g: Geometry
    const buffer: array<Byte>
    var disk: seq<Sector>
    var currSector: int

    /** The cache agrees with the disk whenever it names a sector of the tables
        or of the root directory. A data sector may be stale. */
    ghost predicate CacheAgrees()
      reads this, buffer
    {
      && buffer.Length == PAGE_SIZE
      && (g.tblStart <= currSector < g.DataStart() && currSector < |disk|
          ==> buffer[..SECTOR_SIZE] == disk[currSector])
    }

    ghost predicate Valid()
      reads this, buffer
    {
      Fits(disk, g) && CacheAgrees()
    }

    ghost function Vol(): (v: FatLayout.Vol)
      requires Fits(disk, g)
      reads this
    {
      VolOf(disk, g)
    }

    /** Equal table copies stay equal. */
    twostate predicate KeepsMirror()
      reads this
    {
      Fits(old(disk), g) && Fits(disk, g) && (Mirrored(old(disk), g) ==> Mirrored(disk, g))
    }

    constructor (g: Geometry, disk: seq<Sector>)
      requires Fits(disk, g)
      ensures Valid() && this.g == g && this.disk == disk && fresh(buffer)
      ensures currSector == -1
    {
      this.g := g;
      this.disk := disk;
      buffer := new Byte[PAGE_SIZE](_ => 0);
      currSector := -1;
    }

    // ----- block device (never fails) -----

    /** `dev_read` of `n` sectors into the driver's buffer. */
    method DevRead(start: nat, n: nat)
      requires start + n <= |disk| && 512 * n <= buffer.Length
      modifies buffer
      ensures buffer[..512 * n] == Flat(disk, start, n)
      ensures buffer[512 * n..] == old(buffer[512 * n..])
    {
      for i := 0 to n
        invariant forall k :: 0 <= k < 512 * i ==> buffer[k] == disk[start + k / 512][k % 512]
        invariant buffer[512 * n..] == old(buffer[512 * n..])
      {
        forall k | 0 <= k < 512 { buffer[512 * i + k] := disk[start + i][k]; }
      }
    }

    /** `dev_write` of `n` sectors from memory holding `b`. */
    method DevWrite(start: nat, n: nat, b: seq<Byte>)
      requires start + n <= |disk| && |b| >= 512 * n
      modifies this`disk
      ensures disk == PutSectors(old(disk), start, n, b)
    {
      for i := 0 to n
        invariant |disk| == |old(disk)|
        invariant forall s :: 0 <= s < |disk| ==>
          disk[s] == if start <= s < start + i then b[512 * (s - start)..512 * (s - start) + 512] else old(disk)[s]
      {
        disk := disk[start + i := b[512 * i..512 * i + 512]];
      }
    }

    // ----- cached sector access -----

    method BreadSector(sector: nat) returns (err: int)
      requires Fits(disk, g) && buffer.Length == PAGE_SIZE && g.tblStart <= sector < g.DataStart()
      modifies this`currSector, buffer
      ensures currSector == sector && err == 0
      ensures old(currSector) == sector ==> buffer[..] == old(buffer[..])
      ensures old(currSector) != sector || old(CacheAgrees()) ==> buffer[..SECTOR_SIZE] == disk[sector]
    {
      if sector == currSector {
        return 0;
      }
      DevRead(sector, 1);
      currSector := sector;
      assert buffer[..512] == disk[sector];
      return 0;
    }

    method BwriteSector(sector: nat) returns (err: int)
      requires buffer.Length == PAGE_SIZE && sector < |disk|
      modifies this`disk
      ensures disk == old(disk)[sector := buffer[..SECTOR_SIZE]] && err == 0
    {
      DevWrite(sector, 1, buffer[..]);
      assert disk == old(disk)[sector := buffer[..SECTOR_SIZE]];
      return 0;
    }

    // ----- allocation table -----

    method ClusterGetNext(curr: nat) returns (next: nat)
      requires Valid()
      modifies this`currSector, buffer
      ensures Valid()
      ensures next == Next(Vol().tbl, curr) && next < 0x1_0000
    {
      if !ClusterIsValid(curr) {
        return CLUSTER_INVALID;
      }
      var offset := curr * 2;
      var sector := offset / SECTOR_SIZE;
      var offSector := offset % SECTOR_SIZE;
      if sector >= g.tblSectors {
        return CLUSTER_INVALID;
      }
      var err := BreadSector(g.tblStart + sector);
      assert sector == curr / 256 && offSector == 2 * (curr % 256);
      next := Word16(buffer[..SECTOR_SIZE][offSector], buffer[..SECTOR_SIZE][offSector + 1]);
      assert next == Entry(disk, g, curr);
    }

    /** Write the cached table sector to every copy of the table. */
    method WriteBack(tblSector: nat) returns (err: int)
      requires Fits(disk, g) && buffer.Length == PAGE_SIZE && tblSector < g.tblSectors
      modifies this`disk
      ensures err == 0 && |disk| == |old(disk)|
      ensures disk[g.tblStart + tblSector] == buffer[..SECTOR_SIZE]
      ensures disk[g.tblStart + tblSector + g.tblSectors] == buffer[..SECTOR_SIZE]
      ensures forall x :: 0 <= x < |disk| && x != g.tblStart + tblSector && x != g.tblStart + tblSector + g.tblSectors
                ==> disk[x] == old(disk)[x]
    {
      var sector := tblSector;
      err := 0;
      for i := 0 to 2
        invariant sector == tblSector + i * g.tblSectors && err == 0 && |disk| == |old(disk)|
        invariant i > 0 ==> disk[g.tblStart + tblSector] == buffer[..SECTOR_SIZE]
        invariant i > 1 ==> disk[g.tblStart + tblSector + g.tblSectors] == buffer[..SECTOR_SIZE]
        invariant forall x :: 0 <= x < |disk| && x !in {g.tblStart + tblSector, g.tblStart + tblSector + g.tblSectors}
                    ==> disk[x] == old(disk)[x]
      {
        err := BwriteSector(g.tblStart + sector);
        sector := sector + g.tblSectors;
      }
    }

    /** Read-modify-write of the table sector that holds entry `curr`. */
    method UpdateEntry(curr: nat, sector: nat, offSector: nat, next: nat) returns (err: int)
      requires Valid() && next < 0x1_0000 && curr < g.Total()
      requires sector == curr / 256 && offSector == 2 * (curr % 256)
      modifies this`disk, this`currSector, buffer
      ensures Fits(disk, g) && CacheAgrees() && err == 0
      ensures EntryWritten(old(disk), disk, g, curr, next)
    {
      err := BreadSector(g.tblStart + sector);
      buffer[offSector] := Lo8(next);
      buffer[offSector + 1] := Hi8(next);
      assert buffer[..SECTOR_SIZE] == disk[g.tblStart + sector][offSector := Lo8(next)][offSector + 1 := Hi8(next)];
      err := WriteBack(sector);
    }

    method ClusterSetNext(curr: nat, next: nat) returns (err: int)
      requires Valid() && next < 0x1_0000
      modifies this`disk, this`currSector, buffer
      ensures Valid() && KeepsMirror()
      ensures err == if InTable(old(Vol().tbl), curr) then 0 else -1
      ensures err == 0 ==> curr < |old(Vol().tbl)| && Vol() == old(Vol()).(tbl := old(Vol().tbl)[curr := next])
      ensures err != 0 ==> disk == old(disk)
    {
      if !ClusterIsValid(curr) {
        return -1;
      }
      var offset := curr * 2;
      var sector := offset / SECTOR_SIZE;
      var offSector := offset % SECTOR_SIZE;
      if sector >= g.tblSectors {
        return -1;
      }
      assert sector == curr / 256 && offSector == 2 * (curr % 256);
      err := UpdateEntry(curr, sector, offSector, next);
      WriteEntryVol(old(disk), disk, g, curr, next);
      WriteEntryMirror(old(disk), disk, g, curr, next);
    }
  }

  /** A slice of a prefix of an array is a slice of the array. */
  lemma PrefixSlice(a: array<Byte>, n: nat, i: nat, j: nat)
    requires i <= j <= n <= a.Length
    ensures a[..n][i..j] == a[i..j]
  {
  }
}
