/** f_getfree: the number of free clusters, from the cache or from a scan of the table. */
module FreeSpace {
  import opened Bytes
  import opened Units
  import opened Layout
  import opened Disk
  import opened PackedTable
  import opened FatTable
  import opened LogicalDisk
  import opened Volume
  import opened FatAccess
  import opened Allocation
  import opened ClusterOps

  /** The sector of a two or four byte entry, and its offset there. */
  function ItemSector(g: Geometry, c: nat): int
    requires SectorSize(g.ss)
  {
    g.fatbase + if g.fsType == Fat16 then HDiv(c, g.ss) else QDiv(c, g.ss)
  }

  function ItemOfs(g: Geometry, c: nat): int
    requires SectorSize(g.ss)
  {
    if g.fsType == Fat16 then SMod(c * 2, g.ss) else SMod(c * 4, g.ss)
  }

  lemma NextItem(g: Geometry, c: nat)
    requires SectorSize(g.ss)
    ensures var w := if g.fsType == Fat16 then 2 else 4;
            && 0 <= ItemOfs(g, c) && ItemOfs(g, c) + w <= g.ss
            && if ItemOfs(g, c) + w < g.ss
               then ItemOfs(g, c + 1) == ItemOfs(g, c) + w && ItemSector(g, c + 1) == ItemSector(g, c)
               else ItemOfs(g, c + 1) == 0 && ItemSector(g, c + 1) == ItemSector(g, c) + 1
    ensures ItemOfs(g, 0) == 0 && ItemSector(g, 0) == g.fatbase
  {
    hide SDiv, SMod, HDiv, QDiv;
    FirstItem(g);
    ItemInSector(c, g.ss);
    ItemInSector(c + 1, g.ss);
    if g.fsType == Fat16 { ItemStep(c, 2, g.ss); } else { ItemStep(c, 4, g.ss); }
  }

  lemma FirstItem(g: Geometry)
    requires SectorSize(g.ss)
    ensures ItemOfs(g, 0) == 0 && ItemSector(g, 0) == g.fatbase
  {
  }

  /** Items of w bytes tile the sectors: m is the place of item c among the items of its sector. */
  lemma ItemIndex(c: nat, w: nat, ss: nat) returns (m: nat)
    requires SectorSize(ss) && (w == 2 || w == 4)
    ensures SMod(w * c, ss) == w * m && w * m + w <= ss
  {
    if w == 2 { m := HalfIndex(c, ss); } else { m := QuarterIndex(c, ss); }
  }

  lemma HalfIndex(c: nat, ss: nat) returns (m: nat)
    requires SectorSize(ss)
    ensures SMod(2 * c, ss) == 2 * m && 2 * m + 2 <= ss
  {
    m := c - SMul(HDiv(c, ss), ss) / 2;
    SectorSplitUnique(2 * c, ss, HDiv(c, ss), 2 * m);
  }

  lemma QuarterIndex(c: nat, ss: nat) returns (m: nat)
    requires SectorSize(ss)
    ensures SMod(4 * c, ss) == 4 * m && 4 * m + 4 <= ss
  {
    m := c - SMul(QDiv(c, ss), ss) / 4;
    SectorSplitUnique(4 * c, ss, QDiv(c, ss), 4 * m);
  }

  lemma ItemStep(c: nat, w: nat, ss: nat)
    requires SectorSize(ss) && (w == 2 || w == 4)
    ensures 0 <= SMod(w * c, ss) && SMod(w * c, ss) + w <= ss
    ensures SMod(w * c, ss) + w < ss ==>
      SMod(w * (c + 1), ss) == SMod(w * c, ss) + w && SDiv(w * (c + 1), ss) == SDiv(w * c, ss)
    ensures SMod(w * c, ss) + w >= ss ==>
      SMod(w * (c + 1), ss) == 0 && SDiv(w * (c + 1), ss) == SDiv(w * c, ss) + 1
  {
    hide SDiv, SMod;
    var q, r := SDiv(w * c, ss), SMod(w * c, ss);
    SectorSplit(w * c, ss);
    var m := ItemIndex(c, w, ss);
    if r + w < ss {
      SectorSplitUnique(w * c + w, ss, q, r + w);
    } else {
      SectorSplitUnique(w * c + w, ss, q + 1, 0);
    }
  }

  lemma ItemValue(d: Medium, g: Geometry, c: nat)
    requires MediumOk(d, g) && c < g.nFatent && g.fsType != Fat12
    ensures var at, p := ItemSector(g, c), ItemOfs(g, c);
            && 0 <= at < |d| && !g.InMirror(at) && 0 <= p && p + 1 < g.ss
            && (g.fsType == Fat32 ==> p + 3 < g.ss)
            && (TableOf(d, g)[c] == 0 <==>
                if g.fsType == Fat16 then LdWord(d[at], p) == 0 else LdDword(d[at], p) % 0x1000_0000 == 0)
  {
    hide Geometry.WellFormed, TableOf, FatBytes, SMod, HDiv, QDiv;
    if g.fsType == Fat16 { Place16(d, g, c); } else { Place32(d, g, c); }
  }

  /** The FAT12 scan: entry by entry through get_fat, stopped by a 1. */
  method CountByEntry(fs: Fatfs) returns (res: FResult, n: nat)
    requires fs.Valid() && 3 <= fs.g.nFatent
    modifies fs`winsect, fs`wflag, fs.drive, fs.win
    ensures SameDisk(fs)
    ensures n <= fs.g.nFatent
    ensures res == FrOk ==> n == FreeCount(fs.Table()) && forall c :: 2 <= c < fs.g.nFatent ==> fs.Table()[c] != 1
    ensures res == FrIntErr ==> exists c :: 2 <= c < fs.g.nFatent && fs.Table()[c] == 1
                                            && (forall k :: 2 <= k < c ==> fs.Table()[k] != 1)
                                            && n == |FreeBelow(fs.Table(), c)|
    ensures res != FrOk && res != FrIntErr ==> res == FrDiskErr && !fs.drive.reliable
  {
    hide Geometry.WellFormed, FatBytes, TableOf, Overlay, Mirrored, Wrote, MediumOk, FreeCount, FreeBelow,
      Fatfs.Valid, Fatfs.Logical, Fatfs.CopiesAgree;
    res, n := FrOk, 0;
    var clst: dword := 2;
    WroteNothing(fs.drive.history, fs.g, {fs.Fat()});
    FreeBelowEnds(fs.Table());
    while clst < fs.g.nFatent
      invariant SameDisk(fs) && 2 <= clst <= fs.g.nFatent && n <= clst && res == FrOk
      invariant n == |FreeBelow(fs.Table(), clst)|
      invariant forall c :: 2 <= c < clst ==> fs.Table()[c] != 1
    {
      ghost var h := fs.drive.history;
      var stat := GetFat(fs, clst);
      WroteThenWrote(old(fs.drive.history), h, fs.drive.history, fs.g, {fs.Fat()});
      if stat == DISK_ERROR { res := FrDiskErr; return; }
      if stat == 1 { res := FrIntErr; return; }
      FreeBelowStep(fs.Table(), clst);
      if stat == 0 { n := n + 1; }
      clst := clst + 1;
    }
    assert FreeCount(fs.Table()) == |FreeBelow(fs.Table(), fs.g.nFatent)| by { CountIsSet(fs.Table()); }
  }

  lemma CountIsSet(t: Table)
    ensures FreeCount(t) == |FreeBelow(t, |t|)|
    ensures |t| >= 2 ==> FreeCount(t) <= |t| - 2
  {
    FreeBelowEnds(t);
    if |t| >= 2 { FreeCountBound(t); }
  }

  /** The FAT16/32 scan: the raw items of the FAT sectors, entries 0 and 1 included. */
  method CountRaw(fs: Fatfs) returns (res: FResult, n: nat)
    requires fs.Valid() && 3 <= fs.g.nFatent && fs.g.fsType != Fat12
    modifies fs`winsect, fs`wflag, fs.drive, fs.win
    ensures SameDisk(fs)
    ensures n <= fs.g.nFatent
    ensures res == FrOk ==> n == ZerosBelow(fs.Table(), fs.g.nFatent)
    ensures res != FrOk ==> res == FrDiskErr && !fs.drive.reliable
  {
    hide Geometry.WellFormed, FatBytes, TableOf, Overlay, Mirrored, Wrote, MediumOk, ItemSector, ItemOfs,
      Fatfs.CopiesAgree;
    var g := fs.g;
    res, n := FrOk, 0;
    var clst: dword := g.nFatent;
    var sect := g.fatbase;
    var i, p := 0, 0;
    WroteNothing(fs.drive.history, g, {fs.Fat()});
    SectorSizeKnown(fs);
    NextItem(g, 0);
    while clst > 0
      invariant SameDisk(fs) && SectorSize(g.ss) && clst <= g.nFatent && res == FrOk
      invariant n == ZerosBelow(fs.Table(), g.nFatent - clst) && n <= g.nFatent - clst
      invariant i == 0 ==> ItemOfs(g, g.nFatent - clst) == 0 && sect == ItemSector(g, g.nFatent - clst)
      invariant i != 0 ==> p == ItemOfs(g, g.nFatent - clst) && i == g.ss - p
                           && sect == ItemSector(g, g.nFatent - clst) + 1 && sect == fs.winsect + 1
                           && fs.winsect < |fs.Logical()| && fs.win[..] == fs.Logical()[fs.winsect]
    {
      ghost var c := g.nFatent - clst;
      ItemValue(fs.Logical(), g, c);
      NextItem(g, c);
      if i == 0 {
        ghost var h := fs.drive.history;
        res := fs.MoveWindow(sect);
        WroteThenWrote(old(fs.drive.history), h, fs.drive.history, g, {fs.Fat()});
        sect := sect + 1;
        if res != FrOk { return; }
        p := 0;
        i := g.ss;
      }
      if g.fsType == Fat16 {
        if LdWord(fs.win[..], p) == 0 { n := n + 1; }
        p, i := p + 2, i - 2;
      } else {
        if LdDword(fs.win[..], p) % 0x1000_0000 == 0 { n := n + 1; }
        p, i := p + 4, i - 4;
      }
      clst := clst - 1;
    }
  }

  lemma SectorSizeKnown(fs: Fatfs)
    requires fs.Valid()
    ensures SectorSize(fs.g.ss)
  {
  }

  /** The full scan of f_getfree. */
  method ScanFree(fs: Fatfs) returns (res: FResult, n: nat)
    requires fs.Valid()
    modifies fs`winsect, fs`wflag, fs.drive, fs.win
    ensures SameDisk(fs)
    ensures n <= fs.g.nFatent
    ensures res == FrOk ==>
      n == FreeCount(fs.Table()) + (if fs.g.fsType == Fat12 then 0 else ZerosBelow(fs.Table(), 2))
    ensures res == FrOk && fs.g.fsType == Fat12 ==> forall c :: 2 <= c < fs.g.nFatent ==> fs.Table()[c] != 1
    ensures res == FrIntErr ==> fs.g.fsType == Fat12
                                && exists c :: FirstOne(fs.Table(), c) && n == |FreeBelow(fs.Table(), c)|
    ensures res != FrOk && res != FrIntErr ==> res == FrDiskErr && !fs.drive.reliable
  {
    hide Geometry.WellFormed, FatBytes, TableOf, Overlay, Mirrored, Wrote, MediumOk, FreeCount, FreeBelow, FreeSet,
      Fatfs.Valid, Fatfs.Logical, Fatfs.CopiesAgree, ZerosBelow;
    if fs.g.fsType == Fat12 {
      res, n := CountByEntry(fs);
    } else {
      res, n := CountRaw(fs);
      CountIsSet(fs.Table());
      ZerosAreFree(fs.Table(), fs.g.nFatent);
    }
  }

  /** c is the first cluster whose entry is 1. */
  predicate FirstOne(t: Table, c: int) {
    2 <= c < |t| && t[c] == 1 && forall k :: 2 <= k < c ==> t[k] != 1
  }

  /** No cluster behind the first entry 1 is free. */
  ghost predicate NoneFreeBehindOne(t: Table) {
    forall c, k :: FirstOne(t, c) && c < k < |t| ==> t[k] != 0
  }

  /** A scan that stopped at the first entry 1 has counted all free clusters exactly if none lies behind it. */
  lemma PartialCount(t: Table, c: int)
    requires FirstOne(t, c)
    ensures |FreeBelow(t, c)| == FreeCount(t) <==> NoneFreeBehindOne(t)
    ensures |FreeBelow(t, c)| <= |t| - 2
  {
    FreeCountBound(t);
    Subset(FreeBelow(t, c), FreeSet(t));
    if k :| c < k < |t| && t[k] == 0 {
      assert FirstOne(t, c) && k in FreeSet(t) && k !in FreeBelow(t, c);
      Subset(FreeBelow(t, c), FreeSet(t) - {k});
    } else {
      assert FreeBelow(t, c) == FreeSet(t);
    }
  }

  /** The raw scan can count too many: on a full FAT16 volume of the smallest size, a zero entry 0 is counted. */
  lemma RawCountsTooMany() returns (g: Geometry, t: Table)
    ensures g.WellFormed() && g.fsType == Fat16 && |t| == g.nFatent
    ensures ZerosBelow(t, |t|) == 1 && FreeCount(t) == 0
  {
    g := Geometry(Fat16, 512, 1, 1, 512, 4088, 16, 0, 1, 17, 49);
    t := seq(4088, c => if c == 0 then 0 else 0xFFFF);
    assert g.WellFormed();
    assert FreeSet(t) == {};
    ZerosAreFree(t, |t|);
    assert ZerosBelow(t, 0) == 0 && ZerosBelow(t, 1) == 1;
    assert t[1] == 0xFFFF && ZerosBelow(t, 2) == ZerosBelow(t, 1);
  }

  /** The scan by entry can count too few: on a FAT12 volume of two clusters, a free one behind an entry 1 is
      missed. */
  lemma EntryCountsTooFew() returns (g: Geometry, t: Table)
    ensures g.WellFormed() && g.fsType == Fat12 && |t| == g.nFatent
    ensures FirstOne(t, 2) && |FreeBelow(t, 2)| == 0 && FreeCount(t) == 1
  {
    g := Geometry(Fat12, 512, 1, 1, 16, 4, 1, 0, 1, 2, 3);
    t := [0xFF8, 0xFFF, 1, 0];
    assert g.WellFormed();
    assert FreeBelow(t, 2) == {} && FreeSet(t) == {3};
  }

  lemma ZerosOfTwo(t: Table)
    requires |t| >= 2
    ensures ZerosBelow(t, 2) == 0 <==> t[0] != 0 && t[1] != 0
  {
    assert ZerosBelow(t, 1) == if t[0] == 0 then 1 else 0;
  }

  /** The count is taken from the cache when it is plausible, else from a scan, and then cached.
      The cache is right after a scan unless a FAT12 entry 1 cut the scan short, or a reserved entry of a
      FAT16/32 table is zero and was counted. */
  method GetFree(fs: Fatfs) returns (res: FResult, nclst: dword)
    requires fs.Valid()
    modifies fs, fs.drive, fs.win
    ensures SameDisk(fs) && nclst == fs.freeClust
    ensures res == FrDiskErr ==> !fs.drive.reliable
    ensures old(fs.freeClust) <= fs.g.nFatent - 2 ==> res == FrOk && nclst == old(fs.freeClust)
    ensures old(fs.freeClust) > fs.g.nFatent - 2 && res == FrOk ==>
      && nclst == FreeCount(fs.Table()) + (if fs.g.fsType == Fat12 then 0 else ZerosBelow(fs.Table(), 2))
      && (CountOk(fs) <==> fs.g.fsType == Fat12 || (fs.Table()[0] != 0 && fs.Table()[1] != 0))
    ensures old(fs.freeClust) > fs.g.nFatent - 2 && res != FrDiskErr ==>
      (res == FrIntErr <==> fs.g.fsType == Fat12 && exists c :: 2 <= c < fs.g.nFatent && fs.Table()[c] == 1)
    ensures res == FrIntErr ==> exists c :: FirstOne(fs.Table(), c) && nclst == |FreeBelow(fs.Table(), c)|
    ensures res == FrIntErr ==> (CountOk(fs) <==> NoneFreeBehindOne(fs.Table()))
    ensures CountMarked(fs) && fs.lastClust == old(fs.lastClust)
  {
    hide Geometry.WellFormed, FatBytes, TableOf, Overlay, Mirrored, Wrote, MediumOk, FreeCount, FreeBelow, FreeSet,
      Fatfs.Valid, Fatfs.Logical, Fatfs.CopiesAgree, ZerosBelow;
    res := FrOk;
    if fs.freeClust <= fs.g.nFatent - 2 {
      nclst := fs.freeClust;
      WroteNothing(fs.drive.history, fs.g, {fs.Fat()});
    } else {
      var n;
      res, n := ScanFree(fs);
      if res == FrIntErr {
        ghost var c :| FirstOne(fs.Table(), c) && n == |FreeBelow(fs.Table(), c)|;
        PartialCount(fs.Table(), c);
      }
      ZerosOfTwo(fs.Table());
      CountIsSet(fs.Table());
      ghost var t := fs.Table();
      fs.freeClust := n;
      fs.fsiFlag := SetBit0(fs.fsiFlag);
      nclst := n;
      assert fs.Table() == t;
      assert res == FrOk ==> (CountOk(fs) <==> nclst == FreeCount(t));
    }
  }
}
