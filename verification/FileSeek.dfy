/** f_lseek, without and with a link map table. */
module FileSeek {
  import opened Bytes
  import opened Units
  import opened Layout
  import opened Disk
  import opened PackedTable
  import opened FatTable
  import opened LogicalDisk
  import opened Volume
  import opened FatAccess
  import opened Chains
  import opened Allocation
  import opened ClusterOps
  import opened DataAccess
  import opened LinkMap
  import opened FileData
  import opened FileCursor
  import opened FileBytes
  import opened Files
  import opened FileFrame
  import opened FileRead
  import opened FileWrite

  const CREATE_LINKMAP: dword := 0xFFFF_FFFF

  // ---------- clusters in bytes ----------

  /** First byte of the i-th cluster of a file: i * csize * ss. */
  function ClusterStart(g: Geometry, i: int): int
    requires SectorSize(g.ss) && ClusterSize(g.csize)
  {
    SMul(CMul(i, g.csize), g.ss)
  }

  lemma StartsGrow(g: Geometry, i: int)
    requires SectorSize(g.ss) && ClusterSize(g.csize)
    ensures ClusterStart(g, 0) == 0 && ClusterStart(g, i + 1) == ClusterStart(g, i) + ClusterStart(g, 1)
    ensures g.ss <= ClusterStart(g, 1) <= 0x8_0000
  {
    var a := CMul(i, g.csize);
    assert CMul(i + 1, g.csize) == a + g.csize;
    assert 1 <= g.csize <= 128;
    hide CMul;
    assert CMul(1, g.csize) == g.csize && CMul(0, g.csize) == 0 by { CMulUnit(g.csize); }
  }

  lemma CMulUnit(cs: int)
    requires ClusterSize(cs)
    ensures CMul(1, cs) == cs && CMul(0, cs) == 0
  {
  }

  lemma StartOrder(g: Geometry, i: int, j: int)
    requires SectorSize(g.ss) && ClusterSize(g.csize)
    ensures ClusterStart(g, i) < ClusterStart(g, j) <==> i < j
  {
    MulOrder(CMul(i, g.csize), CMul(j, g.csize), g.ss);
    hide SMul;
    CMulOrder(i, j, g.csize);
  }

  /** Byte r of cluster i. */
  lemma ByteOfCluster(g: Geometry, i: int, r: int)
    requires SectorSize(g.ss) && ClusterSize(g.csize) && 0 <= i && 0 <= r < ClusterStart(g, 1)
    ensures var n := ClusterStart(g, i) + r;
            && ClusterIdx(g, n) == i && SMod(n, g.ss) == SMod(r, g.ss)
            && CMod(SDiv(n, g.ss), g.csize) == SDiv(r, g.ss) && 0 <= SDiv(r, g.ss) < g.csize
            && SDiv(n, g.ss) == CMul(i, g.csize) + SDiv(r, g.ss)
  {
    hide SMul, SDiv, SMod, CMul, CDiv, CMod;
    CMulUnit(g.csize);
    RunByte(r, g.csize, g.ss);
    var a := CMul(i, g.csize);
    SMulAdds(a, SDiv(r, g.ss), g.ss);
    SectorSplitUnique(ClusterStart(g, i) + r, g.ss, a + SDiv(r, g.ss), SMod(r, g.ss));
    ClusterSplitUnique(a + SDiv(r, g.ss), g.csize, i, SDiv(r, g.ss));
  }

  lemma SMulAdds(a: int, b: int, ss: int)
    requires SectorSize(ss)
    ensures SMul(a + b, ss) == SMul(a, ss) + SMul(b, ss)
  {
  }

  /** The cluster of a byte, and the byte's place in it. */
  lemma ClusterOfByte(g: Geometry, n: int)
    requires SectorSize(g.ss) && ClusterSize(g.csize) && 0 <= n
    ensures var i := ClusterIdx(g, n);
            0 <= i && ClusterStart(g, i) <= n < ClusterStart(g, i) + ClusterStart(g, 1)
  {
    SectorSplit(n, g.ss);
    var k := SDiv(n, g.ss);
    ClusterSplit(k, g.csize);
    var i := CDiv(k, g.csize);
    CMulUnit(g.csize);
    MulStep(k, CMul(i, g.csize) + g.csize, g.ss);
    MulOrder(k, CMul(i, g.csize), g.ss);
    assert SMul(CMul(i, g.csize) + g.csize, g.ss) == ClusterStart(g, i) + SMul(g.csize, g.ss);
  }

  /** The shift and mask forms of the source are plain division. */
  lemma ClusterIdxIsPlain(g: Geometry, n: nat)
    requires SectorSize(g.ss) && ClusterSize(g.csize)
    ensures ClusterStart(g, 1) == g.ss * g.csize
    ensures ClusterIdx(g, n) == n / (g.ss * g.csize)
  {
    var k := SDiv(n, g.ss);
    if g.csize <= 8 { SmallClusters(g.ss, g.csize, n); } else { LargeClusters(g.ss, g.csize, n); }
  }

  lemma SmallClusters(ss: int, cs: int, n: nat)
    requires SectorSize(ss) && ClusterSize(cs) && cs <= 8
    ensures SMul(CMul(1, cs), ss) == ss * cs && CDiv(SDiv(n, ss), cs) == n / (ss * cs)
  {
    if cs == 1 { } else if cs == 2 { } else if cs == 4 { } else { }
  }

  lemma LargeClusters(ss: int, cs: int, n: nat)
    requires SectorSize(ss) && ClusterSize(cs) && cs > 8
    ensures SMul(CMul(1, cs), ss) == ss * cs && CDiv(SDiv(n, ss), cs) == n / (ss * cs)
  {
    if cs == 16 { } else if cs == 32 { } else if cs == 64 { } else { }
  }

  // ---------- f_lseek without a table ----------

  /** clst is element i of the chain, and the pointer stands at its first byte. */
  ghost predicate AtCluster(g: Geometry, chain: Chain, i: int, clst: int, fptr: int)
    requires SectorSize(g.ss) && ClusterSize(g.csize)
    ensures AtCluster(g, chain, i, clst, fptr) ==> fptr == ClusterStart(g, i) && 0 <= i < |chain|
  {
    && 0 <= i < |chain| && chain[i] == clst && g.IsCluster(clst)
    && fptr == ClusterStart(g, i) && fptr < Capacity(g, chain)
  }

  lemma AtClusterIs(g: Geometry, t: Table, others: set<Chain>, chain: Chain, sclust: int, i: int)
    requires SectorSize(g.ss) && ClusterSize(g.csize) && Linked(g, t, others, chain, sclust) && 0 <= i < |chain|
    ensures AtCluster(g, chain, i, chain[i], ClusterStart(g, i))
  {
    LinkedNext(g, t, others, chain, sclust, i);
    StartOrder(g, i, |chain|);
  }

  /** The cluster the pointer is in, if it is not past the target. */
  lemma CurrentCluster(g: Geometry, t: Table, others: set<Chain>, chain: Chain, sclust: int,
                       fptr: int, clust: int, dsect: int)
    requires SectorSize(g.ss) && ClusterSize(g.csize) && Linked(g, t, others, chain, sclust)
    requires CursorOk(g, chain, fptr, clust, dsect) && 0 < fptr
    ensures AtCluster(g, chain, ClusterIdx(g, fptr - 1), clust, ClusterStart(g, ClusterIdx(g, fptr - 1)))
    ensures 0 <= ClusterStart(g, ClusterIdx(g, fptr - 1)) < fptr
  {
    AtClusterIs(g, t, others, chain, sclust, ClusterIdx(g, fptr - 1));
    ClusterOfByte(g, fptr - 1);
    StartsGrow(g, 0);
    StartOrder(g, ClusterIdx(g, fptr - 1), 0);
  }

  /** The first cluster of the file, taken if there is none; 0 when the disk is full. */
  method FirstCluster(fp: Fil) returns (clst: dword)
    requires fp.Base()
    modifies fp`chain, fp`sclust, fp.fs, fp.fs.drive, fp.fs.win
    ensures clst == DISK_ERROR ==> !fp.fs.drive.reliable
    ensures clst != DISK_ERROR ==>
      && fp.Base() && old(fp.chain) <= fp.chain
      && GrownBy(fp.fs.g, fp.fs.drive.reliable, old(SnapshotOf(fp)), old(fp.Sectors()), SnapshotOf(fp), fp.Sectors())
    ensures clst == 0 ==> fp.chain == old(fp.chain) == [] && Full(fp.fs.Table())
    ensures clst != 0 && clst != DISK_ERROR ==>
      AtCluster(fp.fs.g, fp.chain, 0, clst, 0) && (fp.chain == old(fp.chain) || |fp.chain| == 1)
  {
    hide Fil.Sectors, Untouched, Geometry.WellFormed, FatBytes, TableOf, FreeCount, Overlay, Mirrored, Wrote,
      MediumOk, Fatfs.Valid, Fatfs.Logical, Fatfs.CopiesAgree, View, Linked, SectorNo, Span, CMul, Own,
      Geometry.InData, SMul, Capacity, ClusterIdx, ClusterStart, CountOk, WriteOrderOk, Full, AtCluster;
    StartsGrow(fp.fs.g, 0);
    LinkedHead(fp.fs.g, fp.fs.Table(), fp.others, fp.chain, fp.sclust);
    clst := fp.sclust;
    if clst == 0 {
      clst := NextCluster(fp, 0, 0);
      if clst == DISK_ERROR { return; }
    } else {
      NothingMoved(fp.fs);
      NothingTouched(fp);
    }
    if clst != 0 { AtClusterIs(fp.fs.g, fp.fs.Table(), fp.others, fp.chain, fp.sclust, 0); }
    GrownIs(fp);
  }

  /** Where a seek begins: at the current cluster, or at the first one, taken if there is none. */
  method SeekStart(fp: Fil, ofs: dword) returns (res: FResult, clst: dword, ghost i: int)
    requires fp.Base() && fp.Cursor() && 0 < ofs
    modifies fp`fptr, fp`clust, fp`chain, fp`sclust, fp.fs, fp.fs.drive, fp.fs.win
    ensures res != FrOk ==> !fp.fs.drive.reliable
    ensures res == FrOk ==>
      && fp.Base() && old(fp.chain) <= fp.chain
      && GrownBy(fp.fs.g, fp.fs.drive.reliable, old(SnapshotOf(fp)), old(fp.Sectors()), SnapshotOf(fp), fp.Sectors())
    ensures res == FrOk && clst == 0 ==> fp.chain == old(fp.chain) == [] && fp.fptr == 0 && Full(fp.fs.Table())
    ensures res == FrOk && clst != 0 ==>
      && AtCluster(fp.fs.g, fp.chain, i, clst, fp.fptr) && fp.fptr < ofs && fp.clust == clst
      && (fp.chain == old(fp.chain) || |fp.chain| == i + 1)
  {
    hide GrownBy, SnapshotOf, Fil.Base, Fil.Sectors, Untouched, Geometry.WellFormed, FatBytes,
      TableOf, FreeCount, Overlay, Mirrored, Wrote, MediumOk, Fatfs.Valid, Fatfs.Logical, Fatfs.CopiesAgree, View,
      Linked, SectorNo, Span, CMod, CDiv, CMul, Own, Geometry.InData, Maps, SMul, SDiv, SMod, Capacity, ClusterIdx,
      ClusterStart, CountOk, WriteOrderOk, Full, CursorOk, AtCluster;
    ghost var g := fp.fs.g;
    res := FrOk;
    var ifptr := fp.fptr;
    fp.fptr := 0;
    if ifptr > 0 && ClusterIdx(fp.fs.g, ofs - 1) >= ClusterIdx(fp.fs.g, ifptr - 1) {
      CurrentCluster(g, fp.fs.Table(), fp.others, fp.chain, fp.sclust, ifptr, fp.clust, fp.dsect);
      StartNotPast(g, ofs, ifptr);
      i := ClusterIdx(g, ifptr - 1);
      fp.fptr := ClusterStart(fp.fs.g, ClusterIdx(fp.fs.g, ifptr - 1));
      clst := fp.clust;
      NothingGrown(fp);
      GrownIs(fp);
    } else {
      i := 0;
      clst := FirstCluster(fp);
      if clst == DISK_ERROR { res := FrDiskErr; return; }
      fp.clust := clst;
    }
  }

  lemma StartNotPast(g: Geometry, ofs: int, fptr: int)
    requires SectorSize(g.ss) && ClusterSize(g.csize) && 0 < ofs && 0 < fptr
    requires ClusterIdx(g, ofs - 1) >= ClusterIdx(g, fptr - 1)
    ensures ClusterStart(g, ClusterIdx(g, fptr - 1)) < ofs
  {
    ClusterOfByte(g, ofs - 1);
    StartOrder(g, ClusterIdx(g, ofs - 1), ClusterIdx(g, fptr - 1));
  }

  /** The cluster after element i, taken if needed in write mode; 0 when the disk is full. */
  method ClusterAfter(fp: Fil, clst: dword, ghost i: int) returns (next: dword)
    requires fp.Base() && 0 <= i < |fp.chain| && fp.chain[i] == clst && (fp.canWrite || i + 1 < |fp.chain|)
    modifies fp`chain, fp`sclust, fp.fs, fp.fs.drive, fp.fs.win
    ensures next == DISK_ERROR ==> !fp.fs.drive.reliable
    ensures next != DISK_ERROR ==>
      && fp.Base() && old(fp.chain) <= fp.chain && (fp.canWrite || fp.chain == old(fp.chain))
      && GrownBy(fp.fs.g, fp.fs.drive.reliable, old(SnapshotOf(fp)), old(fp.Sectors()), SnapshotOf(fp), fp.Sectors())
    ensures next == 0 ==>
      fp.chain == old(fp.chain) && i + 1 == |fp.chain| && fp.canWrite && Full(fp.fs.Table())
    ensures next != DISK_ERROR && next != 0 ==>
      && i + 1 < |fp.chain| && fp.chain[i + 1] == next && fp.fs.g.IsCluster(next)
      && (fp.chain == old(fp.chain) || |fp.chain| == i + 2)
  {
    hide Untouched, Geometry.WellFormed, FatBytes, TableOf, FreeCount, Overlay, Mirrored, Wrote, MediumOk,
      Fatfs.Valid, Fatfs.Logical, Fatfs.CopiesAgree, View, Linked, SectorNo, Span, CMul, Own, Geometry.InData, SMul,
      CountOk, WriteOrderOk, Full;
    if fp.canWrite {
      next := NextCluster(fp, clst, i + 1);
    } else {
      LinkedNext(fp.fs.g, fp.fs.Table(), fp.others, fp.chain, fp.sclust, i);
      LinkedNext(fp.fs.g, fp.fs.Table(), fp.others, fp.chain, fp.sclust, i + 1);
      next := GetFat(fp.fs, clst);
      if next == DISK_ERROR { return; }
      FatNotOwn(fp.fs.g, fp.others, fp.fs.winsect);
      SameDiskPromises(fp.fs);
      NothingTouched(fp);
      assert fp.Sectors()[..|fp.Sectors()|] == fp.Sectors();
    }
    if next != DISK_ERROR { GrownIs(fp); }
  }

  /** One round of the loop: to the cluster after element i, stretched if needed in write mode; 0 when the disk
      is full. */
  method SeekHop(fp: Fil, clst: dword, bcs: dword, ghost i: int) returns (next: dword)
    requires fp.Base() && AtCluster(fp.fs.g, fp.chain, i, clst, fp.fptr)
    requires fp.canWrite || ClusterStart(fp.fs.g, i + 1) < Capacity(fp.fs.g, fp.chain)
    requires bcs == ClusterStart(fp.fs.g, 1) && fp.fptr + bcs <= 0xFFFF_FFFF
    modifies fp`fptr, fp`clust, fp`chain, fp`sclust, fp.fs, fp.fs.drive, fp.fs.win
    ensures next == DISK_ERROR ==> !fp.fs.drive.reliable
    ensures next != DISK_ERROR ==>
      && fp.Base() && old(fp.chain) <= fp.chain && (fp.canWrite || fp.chain == old(fp.chain))
      && GrownBy(fp.fs.g, fp.fs.drive.reliable, old(SnapshotOf(fp)), old(fp.Sectors()), SnapshotOf(fp), fp.Sectors())
    ensures next == 0 ==>
      && fp.chain == old(fp.chain) && i + 1 == |fp.chain| && fp.canWrite && Full(fp.fs.Table())
      && fp.clust == old(fp.clust) && fp.fptr == old(fp.fptr)
    ensures next != DISK_ERROR && next != 0 ==>
      && AtCluster(fp.fs.g, fp.chain, i + 1, next, fp.fptr)
      && fp.clust == next && fp.fptr == old(fp.fptr) + bcs
      && (fp.chain == old(fp.chain) || |fp.chain| == i + 2)
  {
    hide GrownBy, SnapshotOf, Fil.Base, Fil.Sectors, Untouched, Geometry.WellFormed, FatBytes, TableOf, FreeCount,
      Overlay, Mirrored, Wrote, MediumOk, Fatfs.Valid, Fatfs.Logical, Fatfs.CopiesAgree, View, Linked, SectorNo, Span,
      CMul, Own, Geometry.InData, SMul, Capacity, ClusterStart, CountOk, WriteOrderOk, Full;
    ghost var g := fp.fs.g;
    if !fp.canWrite { MoreClusters(g, fp.chain, i); }
    next := ClusterAfter(fp, clst, i);
    if next != DISK_ERROR && next != 0 {
      AtClusterIs(g, fp.fs.Table(), fp.others, fp.chain, fp.sclust, i + 1);
      StartsGrow(g, i);
      fp.clust := next;
      fp.fptr := fp.fptr + bcs;
    }
  }

  lemma MoreClusters(g: Geometry, chain: Chain, i: int)
    requires SectorSize(g.ss) && ClusterSize(g.csize) && ClusterStart(g, i + 1) < Capacity(g, chain)
    ensures i + 1 < |chain|
  {
    StartOrder(g, i + 1, |chain|);
  }

  /** Follow the chain from element i until the target lies in or right after the current cluster. */
  method SeekLoop(fp: Fil, start: dword, target: dword, ghost i0: int) returns (res: FResult, rest: dword, ghost i: int)
    requires fp.Base() && AtCluster(fp.fs.g, fp.chain, i0, start, fp.fptr) && fp.clust == start && fp.fptr < target
    requires fp.canWrite || target <= Capacity(fp.fs.g, fp.chain)
    modifies fp`fptr, fp`clust, fp`chain, fp`sclust, fp.fs, fp.fs.drive, fp.fs.win
    ensures res != FrOk ==> !fp.fs.drive.reliable
    ensures res == FrOk ==>
      && fp.Base() && old(fp.chain) <= fp.chain
      && GrownBy(fp.fs.g, fp.fs.drive.reliable, old(SnapshotOf(fp)), old(fp.Sectors()), SnapshotOf(fp), fp.Sectors())
    ensures res == FrOk ==>
      && AtCluster(fp.fs.g, fp.chain, i, fp.clust, fp.fptr)
      && 0 < rest <= ClusterStart(fp.fs.g, 1) && fp.fptr + rest <= target && i0 <= i
      && (fp.chain == old(fp.chain) || |fp.chain| == i + 1)
    ensures res == FrOk && fp.fptr + rest < target ==>
      && rest == ClusterStart(fp.fs.g, 1) && i + 1 == |fp.chain| && fp.canWrite && Full(fp.fs.Table())
  {
    hide GrownBy, SnapshotOf, Fil.Base, Fil.Sectors, Untouched, Geometry.WellFormed, FatBytes, TableOf, FreeCount,
      Overlay, Mirrored, Wrote, MediumOk, Fatfs.Valid, Fatfs.Logical, Fatfs.CopiesAgree, View, Linked, SectorNo, Span,
      CMod, CDiv, CMul, Own, Geometry.InData, Maps, SMul, SDiv, SMod, Capacity, ClusterIdx, ClusterStart, CountOk,
      WriteOrderOk, Full, CursorOk, AtCluster;
    ghost var g := fp.fs.g;
    StartsGrow(g, 0);
    var bcs: dword := ClusterStart(fp.fs.g, 1);
    var clst := start;
    res, i, rest := FrOk, i0, target - fp.fptr;
    ghost var a, v := SnapshotOf(fp), fp.Sectors();
    NothingGrown(fp);
    GrownIs(fp);
    while rest > bcs
      invariant fp.Base() && old(fp.chain) <= fp.chain && res == FrOk && fp.clust == clst
      invariant GrownBy(g, fp.fs.drive.reliable, a, v, SnapshotOf(fp), fp.Sectors())
      invariant AtCluster(g, fp.chain, i, clst, fp.fptr) && fp.fptr + rest == target && 0 < rest && i0 <= i
      invariant fp.chain == old(fp.chain) || |fp.chain| == i + 1
      invariant fp.canWrite || (fp.chain == old(fp.chain) && target <= Capacity(g, fp.chain))
      decreases rest
    {
      ghost var b, w := SnapshotOf(fp), fp.Sectors();
      StartsGrow(g, i);
      clst := SeekHop(fp, clst, bcs, i);
      if clst == DISK_ERROR { res := FrDiskErr; return; }
      GrownAgain(g, fp.fs.drive.reliable, a, v, b, w, SnapshotOf(fp), fp.Sectors());
      if clst == 0 {
        rest := bcs;
        return;
      }
      rest := rest - bcs;
      i := i + 1;
    }
  }

  lemma StartAligned(g: Geometry, i: int)
    requires SectorSize(g.ss) && ClusterSize(g.csize)
    ensures SMod(ClusterStart(g, i), g.ss) == 0
  {
    SectorSplitUnique(ClusterStart(g, i), g.ss, CMul(i, g.csize), 0);
  }

  lemma StartIsCapacity(g: Geometry, chain: Chain)
    requires SectorSize(g.ss) && ClusterSize(g.csize)
    ensures Capacity(g, chain) == ClusterStart(g, |chain|)
  {
  }

  /** The place of the pointer rest bytes into cluster i. */
  lemma LandArithmetic(g: Geometry, chain: Chain, i: int, rest: int)
    requires SectorSize(g.ss) && ClusterSize(g.csize) && 0 <= i < |chain| && 0 < rest <= ClusterStart(g, 1)
    ensures var n := ClusterStart(g, i) + rest;
            && 0 < n <= Capacity(g, chain) && ClusterIdx(g, n - 1) == i && SMod(n, g.ss) == SMod(rest, g.ss)
            && (SMod(rest, g.ss) != 0 ==>
                  n < Capacity(g, chain) && ClusterIdx(g, n) == i && CMod(SDiv(n, g.ss), g.csize) == SDiv(rest, g.ss))
            && (rest == ClusterStart(g, 1) && i + 1 == |chain| ==> n == Capacity(g, chain))
  {
    hide ClusterStart, Capacity, SMod, SDiv, CMod, ClusterIdx, SMul, CMul, CDiv;
    StartsGrow(g, 0);
    StartsGrow(g, i);
    StartOrder(g, 0, i);
    StartOrder(g, |chain|, i + 1);
    StartIsCapacity(g, chain);
    ByteOfCluster(g, i, rest - 1);
    StartAligned(g, 1);
    StartAligned(g, i + 1);
    if rest < ClusterStart(g, 1) { ByteOfCluster(g, i, rest); }
  }

  /** The pointer set rest bytes into the cluster it stands at. */
  lemma Land(g: Geometry, t: Table, others: set<Chain>, chain: Chain, sclust: int, i: int, clust: dword, fptr: int,
             rest: int)
    requires g.WellFormed() && SectorSize(g.ss) && ClusterSize(g.csize) && Linked(g, t, others, chain, sclust)
    requires AtCluster(g, chain, i, clust, fptr) && 0 < rest <= ClusterStart(g, 1)
    ensures ClusterIdx(g, fptr + rest - 1) == i && SMod(fptr + rest, g.ss) == SMod(rest, g.ss)
    ensures SMod(rest, g.ss) != 0 ==>
      && 0 < g.ClustToSect(clust) && 0 <= SDiv(rest, g.ss) && g.ClustToSect(clust) + SDiv(rest, g.ss) <= 0xFFFF_FFFF
      && CursorOk(g, chain, fptr + rest, clust, g.ClustToSect(clust) + SDiv(rest, g.ss))
    ensures SMod(rest, g.ss) == 0 ==> CursorOk(g, chain, fptr + rest, clust, 0)
    ensures rest == ClusterStart(g, 1) && i + 1 == |chain| ==> fptr + rest == Capacity(g, chain)
  {
    hide ClusterStart, Capacity, SMod, SDiv, SMul, CMod, CDiv, CMul, ClusterIdx, Geometry.WellFormed, Linked,
      SectorNo, Own, Geometry.InData, Span, IsChain, Geometry.ClustToSect, CursorOk;
    LandArithmetic(g, chain, i, rest);
    ByteInChain(g, chain, fptr + rest - 1);
    if SMod(rest, g.ss) != 0 {
      ByteInChain(g, chain, fptr + rest);
      SectorFromCluster(g, t, others, chain, sclust, fptr + rest, clust);
      SectorSplit(rest, g.ss);
      SDivPositive(rest, g.ss);
      CursorIs(g, chain, fptr + rest, clust, g.ClustToSect(clust) + SDiv(rest, g.ss));
    } else {
      CursorIs(g, chain, fptr + rest, clust, 0);
    }
  }

  lemma CursorIs(g: Geometry, chain: Chain, n: int, clust: int, s: int)
    requires SectorSize(g.ss) && ClusterSize(g.csize) && 0 <= n <= Capacity(g, chain)
    requires n > 0 ==> 0 <= ClusterIdx(g, n - 1) < |chain| && clust == chain[ClusterIdx(g, n - 1)]
    requires SMod(n, g.ss) != 0 ==> 0 <= SDiv(n, g.ss) < Span(g, chain) && s == SectorNo(g, chain, SDiv(n, g.ss))
    ensures CursorOk(g, chain, n, clust, s)
  {
  }

  lemma SDivPositive(n: int, ss: int)
    requires SectorSize(ss) && 0 <= n
    ensures 0 <= SDiv(n, ss)
  {
  }

  /** Move the pointer towards ofs; nsect is the sector it lands in, if inside one. */
  method SeekWalk(fp: Fil, ofs: dword) returns (res: FResult, nsect: dword)
    requires fp.Base() && fp.Cursor() && 0 < ofs && (fp.canWrite || ofs <= Capacity(fp.fs.g, fp.chain))
    modifies fp`fptr, fp`clust, fp`chain, fp`sclust, fp.fs, fp.fs.drive, fp.fs.win
    ensures res != FrOk ==> !fp.fs.drive.reliable
    ensures res == FrOk ==>
      && fp.Base() && old(fp.chain) <= fp.chain
      && GrownBy(fp.fs.g, fp.fs.drive.reliable, old(SnapshotOf(fp)), old(fp.Sectors()), SnapshotOf(fp), fp.Sectors())
    ensures res == FrOk ==>
      && CursorOk(fp.fs.g, fp.chain, fp.fptr, fp.clust, nsect) && fp.fptr <= ofs
      && EndsAt(fp.fs.g, |old(fp.chain)|, fp.chain, fp.fptr - 1)
    ensures res == FrOk && fp.fptr < ofs ==>
      fp.canWrite && fp.fptr == Capacity(fp.fs.g, fp.chain) && Full(fp.fs.Table())
  {
    hide GrownBy, SnapshotOf, Fil.Base, Fil.Sectors, Untouched, Geometry.WellFormed, FatBytes, TableOf, FreeCount,
      Overlay, Mirrored, Wrote, MediumOk, Fatfs.Valid, Fatfs.Logical, Fatfs.CopiesAgree, View, Linked, SectorNo, Span,
      CMod, CDiv, CMul, Own, Geometry.InData, Maps, SMul, SDiv, SMod, ClusterIdx, ClusterStart, CountOk, WriteOrderOk,
      Full, CursorOk, AtCluster;
    ghost var g, a, v := fp.fs.g, SnapshotOf(fp), fp.Sectors();
    nsect := 0;
    ghost var i;
    var clst;
    res, clst, i := SeekStart(fp, ofs);
    if res != FrOk { return; }
    if clst == 0 {
      EmptyCursor(g, fp.chain, fp.clust, 0);
      return;
    }
    ghost var b, w := SnapshotOf(fp), fp.Sectors();
    if !fp.canWrite { FsizeFits(g, ofs, old(fp.chain), fp.chain); }
    var rest;
    res, rest, i := SeekLoop(fp, clst, ofs, i);
    if res != FrOk { return; }
    GrownAgain(g, fp.fs.drive.reliable, a, v, b, w, SnapshotOf(fp), fp.Sectors());
    Land(g, fp.fs.Table(), fp.others, fp.chain, fp.sclust, i, fp.clust, fp.fptr, rest);
    if SMod(rest, fp.fs.g.ss) != 0 {
      nsect := fp.fs.g.ClustToSect(fp.clust);
      nsect := nsect + SDiv(rest, fp.fs.g.ss);
    }
    fp.fptr := fp.fptr + rest;
  }

  lemma PlaceExists(g: Geometry, chain: Chain, to: int)
    requires SectorSize(g.ss) && ClusterSize(g.csize) && 0 <= to <= Capacity(g, chain)
    ensures to > 0 ==> 0 <= ClusterIdx(g, to - 1) < |chain|
    ensures SMod(to, g.ss) != 0 ==> 0 <= SDiv(to, g.ss) < Span(g, chain)
  {
    if to > 0 { ByteInChain(g, chain, to - 1); }
    if to < Capacity(g, chain) {
      ByteInChain(g, chain, to);
    } else {
      SectorSplitUnique(to, g.ss, Span(g, chain), 0);
    }
  }

  /** Pointer, cluster and sector after a seek to a byte of the file: the sector only changes when the pointer is
      inside one, the cluster only when the pointer is not at the top of the file. */
  ghost function SeekResult(g: Geometry, chain: Chain, clust: int, dsect: int, to: int): (r: (int, int, int))
    requires SectorSize(g.ss) && ClusterSize(g.csize) && 0 <= to <= Capacity(g, chain)
    ensures r.0 == to
  {
    PlaceExists(g, chain, to);
    (to,
     if to > 0 then chain[ClusterIdx(g, to - 1)] else clust,
     if SMod(to, g.ss) != 0 then SectorNo(g, chain, SDiv(to, g.ss)) else dsect)
  }

  lemma CursorIsResult(g: Geometry, chain: Chain, clust0: int, dsect0: int, to: int, clust: int, dsect: int)
    requires SectorSize(g.ss) && ClusterSize(g.csize) && CursorOk(g, chain, to, clust, dsect)
    requires to == 0 ==> clust == clust0
    requires SMod(to, g.ss) == 0 ==> dsect == dsect0
    ensures (to, clust, dsect) == SeekResult(g, chain, clust0, dsect0, to)
  {
  }

  /** Bring the sector at the pointer into the buffer, if the pointer is inside one that is not there. */
  method FillAfterSeek(fp: Fil, nsect: dword) returns (ok: bool)
    requires fp.Base() && CursorOk(fp.fs.g, fp.chain, fp.fptr, fp.clust, nsect)
    modifies fp`dirty, fp`dsect, fp.buf, fp.fs.drive
    ensures fp.fs.drive.reliable ==> ok
    ensures ok ==>
      && fp.Base() && fp.Sectors() == old(fp.Sectors()) && OthersKept(fp)
      && Promises(fp.fs) && fp.fs.Table() == old(fp.fs.Table())
      && fp.Cursor() && (SMod(fp.fptr, fp.fs.g.ss) == 0 ==> fp.dsect == old(fp.dsect))
  {
    hide Untouched, Geometry.WellFormed, FatBytes, TableOf, Overlay, Mirrored, MediumOk, Fatfs.Valid, Fatfs.Logical,
      Fatfs.CopiesAgree, View, Linked, SectorNo, Span, CMod, CDiv, CMul, Own, Geometry.InData, Maps, SMul, SDiv, SMod,
      ClusterIdx, CountOk, WriteOrderOk;
    ok := true;
    if SMod(fp.fptr, fp.fs.g.ss) != 0 && nsect != fp.dsect {
      ok := LoadSector(fp, nsect, SDiv(fp.fptr, fp.fs.g.ss));
    } else {
      NothingMoved(fp.fs);
      NothingTouched(fp);
    }
  }

  /** The bytes there were are the first bytes of the file. */
  twostate predicate FrontKept(fp: Fil)
    requires old(fp.Valid()) && fp.Valid()
    reads fp, fp.buf, fp.cltbl, fp.fs`winsect, fp.fs`wflag, fp.fs.drive, fp.fs.win
  {
    old(fp.fsize) <= fp.fsize && fp.Bytes()[..old(fp.fsize)] == old(fp.Bytes())
  }

  /** A seek to ofs.  In write mode the file is stretched, with unspecified bytes, and the pointer stops short only
      at the end of the last cluster of a full disk; in read-only mode it stops at the end of the file. */
  twostate predicate SoughtNormally(fp: Fil, ofs: dword)
    reads fp, fp.buf, fp.cltbl, fp.fs`winsect, fp.fs`wflag, fp.fs`freeClust, fp.fs.drive, fp.fs.win
  {
    var to := if fp.canWrite || ofs <= old(fp.fsize) then ofs else old(fp.fsize);
    && old(fp.Valid()) && fp.Valid() && Extended(fp)
    && fp.fptr <= to
    && (fp.fptr < to ==> fp.canWrite && fp.fptr == Capacity(fp.fs.g, fp.chain) && Full(fp.fs.Table()))
    && fp.fsize == (if fp.fptr > old(fp.fsize) then fp.fptr else old(fp.fsize))
    && fp.written == (old(fp.written) || fp.fptr > old(fp.fsize))
    && FrontKept(fp) && EndsAt(fp.fs.g, |old(fp.chain)|, fp.chain, fp.fptr - 1)
    && (to <= old(fp.fsize) ==>
          fp.chain == old(fp.chain) && fp.Bytes() == old(fp.Bytes()) && AtResult(fp, to))
  }

  /** Pointer, cluster and sector are where a seek to a byte of the file puts them. */
  twostate predicate AtResult(fp: Fil, to: int)
    reads fp`fptr, fp`clust, fp`dsect
  {
    && SectorSize(fp.fs.g.ss) && ClusterSize(fp.fs.g.csize) && 0 <= to <= Capacity(fp.fs.g, old(fp.chain))
    && (fp.fptr, fp.clust, fp.dsect) == SeekResult(fp.fs.g, old(fp.chain), old(fp.clust), old(fp.dsect), to)
  }

  lemma PrefixContent(v: seq<Sector>, w: seq<Sector>, ss: int, size: nat, size': nat)
    requires SectorSize(ss) && Sized(v, ss) && Sized(w, ss) && |v| <= |w| && w[..|v|] == v
    requires size <= SMul(|v|, ss) && size <= size' <= SMul(|w|, ss)
    ensures Content(w, ss, size')[..size] == Content(v, ss, size)
  {
    hide At, SMul;
    LengthOrder(v, w, ss);
    forall i | 0 <= i < size ensures At(w, ss, i) == At(v, ss, i) {
      ByteIn(v, ss, i);
      ByteIn(w, ss, i);
      assert w[..|v|][SDiv(i, ss)] == w[SDiv(i, ss)];
    }
  }

  /** A seek inside the old capacity takes no cluster. */
  lemma NoStretch(g: Geometry, chain: Chain, chain': Chain, fptr: int, to: int)
    requires SectorSize(g.ss) && ClusterSize(g.csize) && chain <= chain' && 0 <= fptr <= to <= Capacity(g, chain)
    requires fptr < to ==> fptr == Capacity(g, chain')
    requires EndsAt(g, |chain|, chain', fptr - 1) && 0 < to
    ensures fptr == to && chain' == chain
  {
    SpanGrows(g, chain, chain');
    MulOrder(Span(g, chain'), Span(g, chain), g.ss);
    assert fptr == to;
    ByteInChain(g, chain, to - 1);
  }

  /** Move the pointer to a byte, or as far as the disk allows, and fill the buffer. */
  method SeekTo(fp: Fil, to: dword) returns (res: FResult)
    requires fp.Base() && fp.Cursor() && (fp.canWrite || to <= Capacity(fp.fs.g, fp.chain))
    modifies fp`fptr, fp`clust, fp`dirty, fp`dsect, fp`chain, fp`sclust, fp.buf, fp.fs, fp.fs.drive, fp.fs.win
    ensures res != FrOk ==> !fp.fs.drive.reliable
    ensures res == FrOk ==>
      && Grown(fp) && fp.Base() && old(fp.chain) <= fp.chain && fp.Cursor() && fp.fptr <= to
      && (fp.fptr < to ==> fp.canWrite && fp.fptr == Capacity(fp.fs.g, fp.chain) && Full(fp.fs.Table()))
      && EndsAt(fp.fs.g, |old(fp.chain)|, fp.chain, fp.fptr - 1)
    ensures res == FrOk && to <= Capacity(fp.fs.g, old(fp.chain)) ==>
      fp.chain == old(fp.chain) && AtResult(fp, to)
  {
    hide Untouched, Geometry.WellFormed, FatBytes, TableOf, FreeCount, Overlay, Mirrored, Wrote, MediumOk,
      Fatfs.Valid, Fatfs.Logical, Fatfs.CopiesAgree, View, Linked, SectorNo, Span, CMod, CDiv, CMul, Own,
      Geometry.InData, Maps, SMul, SDiv, SMod, ClusterIdx, CountOk, WriteOrderOk, Full, CursorOk, EndsAt, SeekResult,
      Capacity;
    res := FrOk;
    ghost var g := fp.fs.g;
    var nsect: dword := 0;
    if to > 0 {
      res, nsect := SeekWalk(fp, to);
      if res != FrOk { return; }
    } else {
      fp.fptr := 0;
      EmptyCursor(g, fp.chain, fp.clust, 0);
      NotGrown(g, fp.chain, -1);
      NothingMoved(fp.fs);
      NothingTouched(fp);
    }
    ghost var d := fp.fs.Logical();
    var ok := FillAfterSeek(fp, nsect);
    if !ok { res := FrDiskErr; return; }
    UntouchedAgain(g, fp.others, old(fp.chain), fp.chain, fp.chain, old(fp.fs.Logical()), d, fp.fs.Logical());
    CapacityReached(g, fp.chain, fp.fptr, fp.clust, fp.dsect);
    if to <= Capacity(g, old(fp.chain)) {
      if to > 0 { NoStretch(g, old(fp.chain), fp.chain, fp.fptr, to); }
      CursorIsResult(g, fp.chain, old(fp.clust), old(fp.dsect), to, fp.clust, fp.dsect);
    }
  }

  /** f_lseek without a link map table. */
  method NormalSeek(fp: Fil, ofs: dword) returns (res: FResult)
    requires fp.Valid() && fp.cltbl == null && fp.err == FrOk
    modifies fp`fptr, fp`fsize, fp`written, fp`err, fp`clust, fp`dirty, fp`dsect, fp`chain, fp`sclust, fp.buf,
             fp.fs, fp.fs.drive, fp.fs.win
    ensures fp.fs.drive.reliable ==> res == FrOk
    ensures res == FrOk ==> SoughtNormally(fp, ofs)
    ensures fp.err == res
  {
    hide Extended, Fil.Base, Fil.Shell, Untouched, Geometry.WellFormed, FatBytes, TableOf, FreeCount, Overlay,
      Mirrored, Wrote, MediumOk, Fatfs.Valid, Fatfs.Logical, Fatfs.CopiesAgree, View, Linked, SectorNo, Span, CMod,
      CDiv, CMul, Own, Geometry.InData, Maps, SMul, SDiv, SMod, ClusterIdx, CountOk, WriteOrderOk, Full, CursorOk,
      EndsAt, SeekResult, Content, Capacity;
    ghost var g, v, size := fp.fs.g, fp.Sectors(), fp.fsize;
    var to: dword := ofs;
    if to > fp.fsize && !fp.canWrite { to := fp.fsize; }
    res := SeekTo(fp, to);
    if res != FrOk { fp.err := res; return; }
    if fp.fptr > fp.fsize {
      fp.fsize := fp.fptr;
      fp.written := true;
    }
    FsizeFits(g, size, old(fp.chain), fp.chain);
    CapacityReached(g, fp.chain, fp.fptr, fp.clust, fp.dsect);
    CapacityBytes(g, fp.chain);
    CapacityBytes(g, old(fp.chain));
    PrefixContent(v, fp.Sectors(), g.ss, size, fp.fsize);
    assert fp.Bytes()[..fp.fsize] == fp.Bytes();
  }

  // ---------- f_lseek with a link map table ----------

  /** A seek by the link map: the offset is clipped at the file size, and pointer, cluster and sector end up where
      a seek along the chain puts them. */
  twostate predicate SoughtFast(fp: Fil, ofs: dword)
    reads fp, fp.buf, fp.cltbl, fp.fs`winsect, fp.fs`wflag, fp.fs`freeClust, fp.fs.drive, fp.fs.win
  {
    && old(fp.Placed()) && fp.Placed() && (old(fp.Valid()) ==> fp.Valid()) && fp.Bytes() == old(fp.Bytes())
    && fp.chain == old(fp.chain) && fp.fs.Table() == old(fp.fs.Table()) && OthersKept(fp) && Promises(fp.fs)
    && AtResult(fp, if ofs <= fp.fsize then ofs else fp.fsize)
  }

  /** The sector of the byte before the pointer. */
  lemma SectorBefore(g: Geometry, t: Table, others: set<Chain>, chain: Chain, sclust: int, to: int, clust: dword)
    requires g.WellFormed() && SectorSize(g.ss) && ClusterSize(g.csize) && Linked(g, t, others, chain, sclust)
    requires 0 < to <= Capacity(g, chain) && 0 <= ClusterIdx(g, to - 1) < |chain|
    requires clust == chain[ClusterIdx(g, to - 1)]
    ensures var dsc := g.ClustToSect(clust) + CMod(SDiv(to - 1, g.ss), g.csize);
            && g.ClustToSect(clust) != 0 && 0 <= CMod(SDiv(to - 1, g.ss), g.csize)
            && 0 < dsc <= 0xFFFF_FFFF && CursorOk(g, chain, to, clust, dsc)
  {
    SectorFromCluster(g, t, others, chain, sclust, to - 1, clust);
    PlaceExists(g, chain, to);
    if SMod(to, g.ss) != 0 { InsideSameSector(to, g.ss); }
  }

  lemma InsideSameSector(to: int, ss: int)
    requires SectorSize(ss) && 0 < to && SMod(to, ss) != 0
    ensures SDiv(to - 1, ss) == SDiv(to, ss)
  {
  }

  /** The cluster and the sector of the byte before the pointer, as the table has them.  A file that has been cut to
      nothing and written since is not the one that the table maps: unless the same first cluster was taken again,
      the sector is none of the file's. */
  method LookUp(fp: Fil) returns (dsc: dword)
    requires fp.Base() && fp.MapReads() && fp.cltbl != null && 0 < fp.fptr <= Capacity(fp.fs.g, fp.chain)
    modifies fp`clust
    ensures dsc == 0 <==> MapMisses(fp)
    ensures fp.MapSeeks() && dsc != 0 ==> CursorOk(fp.fs.g, fp.chain, fp.fptr, fp.clust, dsc)
    ensures !fp.MapSeeks() ==> |fp.chain| == 1 && fp.clust !in fp.chain && Outside(fp.fs.g, fp.chain, dsc)
  {
    hide Untouched, Geometry.WellFormed, FatBytes, TableOf, Overlay, Mirrored, MediumOk, Fatfs.Valid, Fatfs.Logical,
      Fatfs.CopiesAgree, View, Linked, SectorNo, Span, CMod, CDiv, CMul, Own, Geometry.InData, Maps, SMul, SDiv, SMod,
      ClusterIdx, CursorOk, Capacity, Geometry.ClustToSect;
    ghost var g := fp.fs.g;
    PlaceExists(g, fp.chain, fp.fptr);
    ghost var s := MappedChain(fp);
    fp.clust := ClmtClust(fp.cltbl, ClusterIdx(fp.fs.g, fp.fptr - 1), s);
    if s == [] {
      NoSectorZero(g);
    } else if fp.MapSeeks() {
      SectorBefore(g, fp.fs.Table(), fp.others, fp.chain, fp.sclust, fp.fptr, fp.clust);
    } else {
      OffsetInCluster(g, fp.fptr - 1);
      SectorElsewhere(g, fp.chain, fp.clust, CMod(SDiv(fp.fptr - 1, g.ss), g.csize));
    }
    dsc := fp.fs.g.ClustToSect(fp.clust);
    if dsc == 0 { return; }
    dsc := dsc + CMod(SDiv(fp.fptr - 1, fp.fs.g.ss), fp.fs.g.csize);
  }

  /** Find the cluster of the byte before the pointer in the table, and fill the buffer. */
  method FastFill(fp: Fil) returns (res: FResult)
    requires fp.Base() && fp.MapSeeks() && fp.cltbl != null && 0 < fp.fptr <= Capacity(fp.fs.g, fp.chain)
    modifies fp`clust, fp`dirty, fp`dsect, fp.buf, fp.fs.drive
    ensures res == FrIntErr <==> MapMisses(fp)
    ensures res == FrOk || res == FrIntErr || (res == FrDiskErr && !fp.fs.drive.reliable)
    ensures res == FrOk ==>
      && fp.Base() && fp.Sectors() == old(fp.Sectors()) && OthersKept(fp)
      && Promises(fp.fs) && fp.fs.Table() == old(fp.fs.Table())
      && fp.Cursor() && (SMod(fp.fptr, fp.fs.g.ss) == 0 ==> fp.dsect == old(fp.dsect))
  {
    hide Fil.Sectors, Untouched, Geometry.WellFormed, FatBytes, TableOf, Overlay, Mirrored, MediumOk, Fatfs.Valid,
      Fatfs.Logical, Fatfs.CopiesAgree, View, Linked, SectorNo, Span, CMod, CDiv, CMul, Own, Geometry.InData, Maps,
      SMul, SDiv, SMod, ClusterIdx, CountOk, WriteOrderOk, CursorOk, Capacity, Geometry.ClustToSect;
    res := FrOk;
    var dsc := LookUp(fp);
    if dsc == 0 { res := FrIntErr; return; }
    var ok := FillAfterSeek(fp, dsc);
    if !ok { res := FrDiskErr; }
  }

  lemma OffsetInCluster(g: Geometry, i: nat)
    requires SectorSize(g.ss) && ClusterSize(g.csize)
    ensures 0 <= CMod(SDiv(i, g.ss), g.csize) < g.csize
  {
  }

  lemma NoSectorZero(g: Geometry)
    requires g.WellFormed()
    ensures g.ClustToSect(0) == 0
  {
  }

  /** Without the first cluster in its map, a file cannot be sought in at all. */
  method FastSeek(fp: Fil, ofs: dword) returns (res: FResult)
    requires fp.Placed() && fp.MapSeeks() && fp.cltbl != null && fp.err == FrOk
    modifies fp`fptr, fp`err, fp`clust, fp`dirty, fp`dsect, fp.buf, fp.fs.drive
    ensures res == FrIntErr <==> MapMisses(fp) && ofs > 0 && fp.fsize > 0
    ensures res == FrOk || res == FrIntErr || (res == FrDiskErr && !fp.fs.drive.reliable)
    ensures res == FrOk ==> SoughtFast(fp, ofs)
    ensures fp.err == res
  {
    hide Fil.Sectors, Untouched, Geometry.WellFormed, FatBytes, TableOf, Overlay, Mirrored, MediumOk, Fatfs.Valid,
      Fatfs.Logical, Fatfs.CopiesAgree, View, Linked, SectorNo, Span, CMod, CDiv, CMul, Own, Geometry.InData, Maps,
      SMul, SDiv, SMod, ClusterIdx, CountOk, WriteOrderOk, CursorOk, SeekResult, Content, Capacity;
    res := FrOk;
    ghost var g := fp.fs.g;
    var to: dword := ofs;
    if to > fp.fsize { to := fp.fsize; }
    fp.fptr := to;
    if to > 0 {
      res := FastFill(fp);
      if res != FrOk { fp.err := res; return; }
    } else {
      EmptyCursor(g, fp.chain, fp.clust, fp.dsect);
      NothingMoved(fp.fs);
      NothingTouched(fp);
      ZeroInside(g);
    }
    CursorIsResult(g, fp.chain, old(fp.clust), old(fp.dsect), to, fp.clust, fp.dsect);
  }

  lemma ZeroInside(g: Geometry)
    requires SectorSize(g.ss)
    ensures SMod(0, g.ss) == 0
  {
  }

  /** A table of at least one item whose first item gives its size. */
  predicate TableGiven(fp: Fil)
    reads fp`cltbl, fp.cltbl
  {
    fp.cltbl != null && 1 <= fp.cltbl.Length && fp.cltbl[0] as nat <= fp.cltbl.Length
    && (fp.cltbl as object) != fp.fs.win && (fp.cltbl as object) != fp.buf
  }

  /** The table reports the n items that are needed; the request succeeds exactly if it has them. */
  twostate predicate MapSized(fp: Fil, res: FResult, n: nat)
    reads fp`cltbl, fp.cltbl
  {
    && old(TableGiven(fp)) && fp.cltbl == old(fp.cltbl) && fp.cltbl[0] as int == n
    && (res == FrOk <==> n <= old(fp.cltbl[0] as int))
  }

  /** The outcome of a request for a link map: it fails exactly if the end of the chain looks like a link, or if the
      table is too small; the file is as before. */
  twostate predicate MapMade(fp: Fil, res: FResult)
    reads fp, fp.buf, fp.cltbl, fp.fs`winsect, fp.fs`wflag, fp.fs`freeClust, fp.fs.drive, fp.fs.win
  {
    && (res == FrOk || res == FrNotEnoughCore || res == FrIntErr || (res == FrDiskErr && !fp.fs.drive.reliable))
    && (res != FrDiskErr ==>
          && SameDisk(fp.fs) && Promises(fp.fs) && fp.chain == old(fp.chain)
          && (res == FrIntErr <==> EndLooksLinked(fp.fs.Table(), fp.chain)))
    && (res == FrOk || res == FrNotEnoughCore ==> MapSized(fp, res, |Fragments(fp.chain)| + 2))
  }

  twostate predicate SameBytes(fp: Fil)
    reads fp, fp.buf, fp.fs`winsect, fp.fs`wflag, fp.fs.drive, fp.fs.win
  {
    old(fp.Placed()) && fp.Placed() && fp.Bytes() == old(fp.Bytes())
  }

  /** Create the link map table of the file. */
  method MakeLinkMap(fp: Fil) returns (res: FResult)
    requires fp.Placed() && fp.cltbl != null && fp.err == FrOk && TableGiven(fp)
    modifies fp`err, fp.cltbl, fp.fs`winsect, fp.fs`wflag, fp.fs.drive, fp.fs.win
    ensures forall i :: 1 <= i < fp.cltbl.Length && i >= old(fp.cltbl[0]) ==> fp.cltbl[i] == old(fp.cltbl[i])
    ensures MapMade(fp, res) && (res != FrNotEnoughCore ==> fp.err == res)
      && (res == FrNotEnoughCore ==> fp.err == FrOk)
    ensures res != FrDiskErr ==> SameBytes(fp) && (res == FrOk ==> fp.Valid())
  {
    hide Untouched, Geometry.WellFormed, FatBytes, TableOf, FreeCount, Overlay, Mirrored, Wrote, MediumOk,
      Fatfs.Valid, Fatfs.Logical, Fatfs.CopiesAgree, View, SectorNo, Span, CMod, CDiv, CMul, Own, Geometry.InData,
      Maps, SMul, SDiv, SMod, ClusterIdx, CountOk, WriteOrderOk, CursorOk, Content, Capacity, Fragments,
      EndLooksLinked, Forest, IsChain;
    LinkedHead(fp.fs.g, fp.fs.Table(), fp.others, fp.chain, fp.sclust);
    res := BuildLinkMap(fp.fs, fp.sclust, fp.cltbl, fp.chain);
    if res == FrDiskErr || res == FrIntErr { fp.err := res; }
    if res == FrDiskErr { return; }
    SameDiskPromises(fp.fs);
    if fp.fs.winsect != old(fp.fs.winsect) { FatNotOwn(fp.fs.g, fp.others, fp.fs.winsect); }
  }

  /** Move the file pointer, or create the link map table. */
  method FLseek(fp: Fil, ofs: dword) returns (res: FResult)
    requires fp.Placed() && (fp.cltbl != null ==> if ofs == 0xFFFF_FFFF then TableGiven(fp) else fp.MapSeeks())
    modifies fp`fptr, fp`fsize, fp`written, fp`err, fp`clust, fp`dirty, fp`dsect, fp`chain, fp`sclust, fp.buf,
             fp.cltbl, fp.fs, fp.fs.drive, fp.fs.win
    ensures old(fp.err) != FrOk ==> res == old(fp.err) && unchanged(fp, fp.buf, fp.fs, fp.fs.drive, fp.fs.win)
    ensures old(fp.err) == FrOk && fp.fs.drive.reliable && fp.cltbl == null ==> res == FrOk
    ensures old(fp.err) == FrOk && fp.fs.drive.reliable && fp.cltbl != null && ofs != 0xFFFF_FFFF ==>
      res == if old(MapMisses(fp)) && ofs > 0 && old(fp.fsize) > 0 then FrIntErr else FrOk
    ensures old(fp.err) == FrOk && res == FrOk ==>
      fp.Placed() && (fp.cltbl == null || ofs == 0xFFFF_FFFF || old(fp.MapOk()) ==> fp.Valid())
    ensures old(fp.err) == FrOk && res != FrNotEnoughCore ==> fp.err == res
    ensures old(fp.err) == FrOk && res == FrOk && fp.cltbl == null ==> SoughtNormally(fp, ofs)
    ensures old(fp.err) == FrOk && res == FrOk && fp.cltbl != null && ofs != 0xFFFF_FFFF ==> SoughtFast(fp, ofs)
    ensures old(fp.err) == FrOk && fp.cltbl != null && ofs == 0xFFFF_FFFF ==> MapMade(fp, res)
    ensures old(fp.err) == FrOk && res == FrOk && fp.cltbl != null && ofs == 0xFFFF_FFFF ==>
      SameBytes(fp) && fp.fptr == old(fp.fptr)
    ensures fp.cltbl != null && ofs != 0xFFFF_FFFF ==> fp.cltbl[..] == old(fp.cltbl[..])
  {
    hide Fil.Base, Fil.Shell, Fil.Cursor, Maps, Fil.Bytes, Fil.Sectors, Fatfs.Valid, Extended, OthersKept, Promises,
      SameDisk, AtResult, EndsAt, Capacity, TableGiven, Full, MapMade;
    if fp.err != FrOk { res := fp.err; return; }
    if fp.cltbl != null {
      if ofs == CREATE_LINKMAP {
        res := MakeLinkMap(fp);
      } else {
        res := FastSeek(fp, ofs);
      }
    } else {
      res := NormalSeek(fp, ofs);
    }
  }
}
