/** The volume layout that a mount leaves in the file system object (FATFS in ff.h). */
module Layout {
  import opened Bytes
  import opened Units

  datatype FatType = Fat12 | Fat16 | Fat32

  /** Result codes of the modelled functions (FRESULT). */
  datatype FResult =
    | FrOk | FrDiskErr | FrIntErr | FrNoFile | FrInvalidName | FrDenied
    | FrInvalidObject | FrNoFilesystem | FrMkfsAborted | FrNotEnoughCore | FrInvalidParameter

  /** get_fat and create_chain report a disk error in band. */
  const DISK_ERROR: dword := 0xFFFF_FFFF
  /** The end-of-chain mark as create_chain and f_truncate store it. */
  const LAST_LINK: dword := 0x0FFF_FFFF
  const SZ_DIRE: nat := 32
  /** First byte of a deleted directory entry. */
  const DDEM: byte := 0xE5
  /** A free cluster count or a last cluster taken that is not known. */
  const UNKNOWN: dword := 0xFFFF_FFFF

  datatype Geometry = Geometry(
    fsType: FatType,
    ss: nat,        // bytes per sector
    csize: nat,     // sectors per cluster
    nFats: nat,     // copies of the FAT
    nRootdir: nat,  // root directory entries (FAT12/16)
    nFatent: dword, // FAT entries, number of clusters + 2
    fsize: dword,   // sectors per FAT
    volbase: dword,
    fatbase: dword,
    dirbase: dword, // root directory: sector, or cluster on FAT32
    database: dword)
  {
    /** Bytes the table needs for nFatent entries, the last FAT12 entry rounded up. */
    function FatBytes(): nat {
      match fsType
      case Fat12 => nFatent * 3 / 2 + nFatent % 2
      case Fat16 => nFatent * 2
      case Fat32 => nFatent * 4
    }

    /** First sector after the FAT area. */
    function FatEnd(): nat {
      if nFats == 2 then fatbase + fsize + fsize else fatbase + fsize
    }

    function RootSectors(): nat
      requires SectorSize(ss)
    {
      EDiv(nRootdir, ss)
    }

    /** First sector after the data area. */
    function DataEnd(): int
      requires ClusterSize(csize)
    {
      database + CMul(nFatent - 2, csize)
    }

    predicate TypeMatchesCount() {
      match fsType
      case Fat12 => nFatent - 2 < 4086
      case Fat16 => 4086 <= nFatent - 2 < 65526
      case Fat32 => 65526 <= nFatent - 2 && nFatent <= LAST_LINK
    }

    /** What a mount checks, with no 32-bit sum having wrapped. */
    predicate WellFormed() {
      && SectorSize(ss) && ClusterSize(csize)
      && (nFats == 1 || nFats == 2)
      && nRootdir < 0x1_0000 && EMod(nRootdir, ss) == 0
      && 3 <= nFatent && TypeMatchesCount()
      && FatBytes() <= SMul(fsize, ss)
      && volbase < fatbase
      && FatEnd() + RootSectors() == database
      && (if fsType == Fat32 then nRootdir == 0 else nRootdir > 0 && dirbase == FatEnd())
      && DataEnd() <= 0xFFFF_FFFF
    }

    predicate IsCluster(c: int) {
      2 <= c < nFatent
    }

    predicate InFat(s: int) {
      fatbase <= s < fatbase + fsize
    }

    /** The second FAT copy: written alongside the first, never read. */
    predicate InMirror(s: int) {
      fatbase + fsize <= s < FatEnd()
    }

    predicate InData(s: int)
      requires ClusterSize(csize)
    {
      database <= s < DataEnd()
    }

    /** First sector of a cluster, 0 for an invalid cluster number (clust2sect). */
    function ClustToSect(clst: dword): (r: dword)
      requires WellFormed()
      ensures r != 0 <==> IsCluster(clst)
      ensures IsCluster(clst) ==> InData(r) && InData(r + csize - 1) && r == SectorOf(clst, 0)
    {
      var k := Sub32(clst, 2);
      if k >= nFatent - 2 then 0 else CMul(k, csize) + database
    }

    /** Sector o of cluster c. */
    function SectorOf(c: int, o: int): int
      requires ClusterSize(csize)
    {
      CMul(c - 2, csize) + database + o
    }

    /** The cluster that holds a data sector. */
    function ClusterOf(s: int): int
      requires ClusterSize(csize)
    {
      CDiv(s - database, csize) + 2
    }

    /** The areas of a well-formed volume in plain numbers: reserved sectors, FAT copies, root directory, clusters. */
    lemma AreasArePlain(s: int, c: int)
      requires WellFormed()
      ensures database == fatbase + nFats * fsize + nRootdir / (ss / 32) && volbase < fatbase
      ensures InFat(s) <==> fatbase <= s < fatbase + fsize
      ensures InMirror(s) <==> nFats == 2 && fatbase + fsize <= s < fatbase + 2 * fsize
      ensures InData(s) <==> database <= s < database + (nFatent - 2) * csize
      ensures fsType != Fat32 ==> dirbase == fatbase + nFats * fsize && nRootdir > 0
      ensures fsType == Fat32 ==> nRootdir == 0
      ensures 0 <= c <= 0xFFFF_FFFF ==>
        ClustToSect(c) == if 2 <= c < nFatent then database + (c - 2) * csize else 0
    {
      ByUnitIsPlain(nRootdir, ss, csize);
      ByUnitIsPlain(nFatent - 2, ss, csize);
      ByUnitIsPlain(c - 2, ss, csize);
      hide SectorSize, ClusterSize, CMul, EDiv, EMod, SMul, FatBytes, TypeMatchesCount;
    }

    /** The type goes by the number of clusters, and the FAT has room for every entry. */
    lemma TypeIsPlain()
      requires WellFormed()
      ensures fsType == if nFatent - 2 < 4086 then Fat12 else if nFatent - 2 < 65526 then Fat16 else Fat32
      ensures 3 <= nFatent <= 0x0FFF_FFFF && (nFats == 1 || nFats == 2)
      ensures fsize * ss >= match fsType
                            case Fat12 => nFatent * 3 / 2 + nFatent % 2
                            case Fat16 => nFatent * 2
                            case Fat32 => nFatent * 4
    {
      ByUnitIsPlain(fsize, ss, csize);
      hide CMul, EDiv, EMod;
    }

    /** Data sectors and pairs (cluster, offset) correspond one to one. */
    lemma SectorInCluster(c: int, o: int)
      requires WellFormed() && IsCluster(c) && 0 <= o < csize
      ensures InData(SectorOf(c, o)) && ClusterOf(SectorOf(c, o)) == c
      ensures CMod(SectorOf(c, o) - database, csize) == o
    {
      hide CDiv, CMod;
      ClusterSplitUnique(SectorOf(c, o) - database, csize, c - 2, o);
      var next := CMul(c - 1, csize);
      assert next == CMul(c - 2, csize) + csize;
    }

    lemma ClusterInSector(s: int)
      requires WellFormed() && InData(s)
      ensures IsCluster(ClusterOf(s))
      ensures s == SectorOf(ClusterOf(s), CMod(s - database, csize))
    {
      ClusterSplit(s - database, csize);
    }
  }
}
