/** f_write. */
module FileWrite {
  import opened Bytes
  import opened Units
  import opened Layout
  import opened Disk
  import opened PackedTable
  import opened FatTable
  import opened LogicalDisk
  import opened Volume
  import opened FatAccess
  import opened Chains
  import opened Allocation
  import opened ClusterOps
  import opened DataAccess
  import opened LinkMap
  import opened FileData
  import opened FileCursor
  import opened FileBytes
  import opened Files
  import opened FileFrame
  import opened FileRead

  /** The file may have grown by clusters at the end; all its sectors so far are as they were, and the other
      chains of the volume are untouched. */
  twostate predicate Grown(fp: Fil)
    reads fp`dirty, fp`sclust, fp`dsect, fp`chain, fp`others, fp.buf,
          fp.fs`winsect, fp.fs`wflag, fp.fs`freeClust, fp.fs.drive, fp.fs.win
  {
    && Extended(fp)
    && |old(fp.Sectors())| <= |fp.Sectors()| && fp.Sectors()[..|old(fp.Sectors())|] == old(fp.Sectors())
  }

  /** The same on values, so that steps can be chained. */
  ghost predicate GrownBy(g: Geometry, reliable: bool, a: Snapshot, v: seq<Sector>, b: Snapshot, w: seq<Sector>) {
    Extends(g, reliable, a, b) && |v| <= |w| && w[..|v|] == v
  }

  lemma GrownAgain(g: Geometry, reliable: bool, a: Snapshot, v: seq<Sector>, b: Snapshot, w: seq<Sector>,
                   c: Snapshot, x: seq<Sector>)
    requires GrownBy(g, reliable, a, v, b, w) && GrownBy(g, reliable, b, w, c, x)
    ensures GrownBy(g, reliable, a, v, c, x)
  {
    hide Extends;
    ExtendsAgain(g, reliable, a, b, c);
    assert x[..|v|] == x[..|w|][..|v|];
  }

  twostate lemma GrownIs(fp: Fil)
    requires old(fp.Base()) && fp.Base()
    ensures Grown(fp) <==>
            GrownBy(fp.fs.g, fp.fs.drive.reliable, old(SnapshotOf(fp)), old(fp.Sectors()), SnapshotOf(fp), fp.Sectors())
    ensures Grown(fp) ==> old(fp.chain) <= fp.chain
  {
    hide Extended, Extends, SnapshotOf, Fil.Base, Fil.Shell, Fil.Sectors;
    ExtendedIs(fp);
  }

  /** The link map serves as before, and with a map a file that has a chain does not grow. */
  twostate predicate MapTracked(fp: Fil)
    reads fp`cltbl, fp`chain, fp.cltbl
  {
    && (old(fp.MapHeld()) ==> fp.MapHeld())
    && (old(fp.MapReads()) ==> fp.MapReads())
    && (old(fp.MapSeeks()) && old(fp.chain) != [] ==> fp.MapSeeks())
    && (fp.cltbl != null ==> fp.chain == old(fp.chain) || (old(fp.chain) == [] && |fp.chain| == 1))
  }

  /** The pointer stands at the end of the clusters of a file that has been cut, and the map goes on. */
  ghost predicate BehindCut(fp: Fil)
    requires SectorSize(fp.fs.g.ss) && ClusterSize(fp.fs.g.csize)
    reads fp`fptr, fp`cltbl, fp`chain, fp.cltbl
  {
    && fp.MapReads() && fp.cltbl != null && fp.chain != [] && fp.fptr == Capacity(fp.fs.g, fp.chain)
    && exists s :: fp.Mapped(s) && |fp.chain| < |s|
  }

  lemma NotBehindCut(fp: Fil, n: int)
    requires SectorSize(fp.fs.g.ss) && ClusterSize(fp.fs.g.csize) && fp.MapServes(n) && 0 < n
    ensures !BehindCut(fp) && fp.MapReads()
  {
    hide Fil.Mapped, Capacity;
    if BehindCut(fp) {
      var s :| fp.Mapped(s) && |fp.chain| < |s|;
      if fp.MapHeld() {
        var r :| fp.Mapped(r) && (r == fp.chain || (|r| <= 1 && |fp.chain| <= 1));
        OneMapped(fp, s, r);
      }
    }
  }

  /** A write that the map does not serve: all its bytes up to the end of the file's clusters are served, and there
      the map goes on. */
  lemma ServedSoFar(fp: Fil, n: int)
    requires SectorSize(fp.fs.g.ss) && ClusterSize(fp.fs.g.csize) && fp.MapReads() && !fp.MapServes(n)
    requires fp.chain != [] && fp.fptr <= Capacity(fp.fs.g, fp.chain)
    ensures var m := Capacity(fp.fs.g, fp.chain) - fp.fptr;
            m < n && fp.MapServes(m) && (exists s :: fp.Mapped(s) && |fp.chain| < |s|) && (m == 0 ==> BehindCut(fp))
  {
    hide Fil.Mapped, Capacity;
    var s :| fp.Mapped(s) && (|fp.chain| <= 1 || fp.chain <= s);
    WholeOrLonger(fp.chain, s);
  }

  lemma WholeOrLonger(a: Chain, b: Chain)
    ensures a <= b ==> a == b || |a| < |b|
  {
  }

  lemma DataKept(d: Medium, e: Medium, g: Geometry)
    requires MediumOk(d, g) && SameOutsideFat(d, e, g)
    ensures |e| == |d| && forall s :: g.InData(s) ==> 0 <= s < |d| && e[s] == d[s]
  {
  }

  /** The file object after the table changed outside the data area, its chain perhaps longer. */
  lemma LongerFile(g: Geometry, d: Medium, e: Medium, others: set<Chain>, chain: Chain, chain': Chain,
                   dirty: bool, dsect: int, b: Sector)
    requires MediumOk(d, g) && MediumOk(e, g) && SameOutsideFat(d, e, g)
    requires InRange(g, chain) && InRange(g, chain') && chain <= chain'
    ensures |e| == |d| && Span(g, chain) <= Span(g, chain')
    ensures View(g, chain', e, dirty, dsect, b)[..Span(g, chain)] == View(g, chain, d, dirty, dsect, b)
    ensures Own(g, others, dsect) ==> 0 <= dsect < |d| && e[dsect] == d[dsect]
  {
    DataKept(d, e, g);
    InDataRange(g, d);
    hide Geometry.WellFormed, View, Span, SectorNo;
    LongerView(g, chain, chain', d, e, dirty, dsect, b);
  }

  lemma InDataRange(g: Geometry, d: Medium)
    requires MediumOk(d, g)
    ensures g.WellFormed() && g.DataEnd() <= |d|
  {
  }

  /** At the start of a cluster past the last one, the pointer is at the capacity. */
  lemma AtCapacity(g: Geometry, chain: Chain, fptr: int)
    requires SectorSize(g.ss) && ClusterSize(g.csize) && 0 <= fptr
    requires SMod(fptr, g.ss) == 0 && CMod(SDiv(fptr, g.ss), g.csize) == 0
    ensures ClusterIdx(g, fptr) == |chain| <==> fptr == Capacity(g, chain)
    ensures ClusterIdx(g, fptr) < |chain| <==> fptr < Capacity(g, chain)
    ensures 0 <= ClusterIdx(g, fptr)
  {
    var k := SDiv(fptr, g.ss);
    SectorSplit(fptr, g.ss);
    ClusterSplit(k, g.csize);
    MulOrder(k, Span(g, chain), g.ss);
    MulOrder(Span(g, chain), k, g.ss);
    hide SMul, SDiv, SMod;
    CMulOrder(CDiv(k, g.csize), |chain|, g.csize);
    CMulOrder(|chain|, CDiv(k, g.csize), g.csize);
  }

  /** Taking a cluster changes the entries of the new cluster and of the old tail only. */
  lemma TakenTouches(t: Table, chain: Chain, clst: nat, ncl: nat, mark: nat)
    requires ncl < |t| && clst < |t| && if chain == [] then clst == 0 else clst == chain[|chain| - 1]
    ensures forall c :: 0 <= c < |t| && c !in chain + [ncl] ==> Taken(t, clst, ncl, mark)[c] == t[c]
  {
  }

  /** Only the FAT and the end of the chain have changed. */
  twostate lemma GrownNow(fp: Fil)
    requires old(fp.Base()) && unchanged(fp`dirty, fp`dsect, fp`others, fp.buf) && Promises(fp.fs) && OthersKept(fp)
    requires SameOutsideFat(old(fp.fs.Logical()), fp.fs.Logical(), fp.fs.g) && !Own(fp.fs.g, fp.others, fp.fs.winsect)
    requires Linked(fp.fs.g, fp.fs.Table(), fp.others, fp.chain, fp.sclust)
    requires old(fp.chain) <= fp.chain && (old(fp.chain) != [] ==> fp.sclust == old(fp.sclust))
    requires FreeCount(fp.fs.Table()) + |fp.chain| == old(FreeCount(fp.fs.Table()) + |fp.chain|)
    ensures Grown(fp)
  {
    hide Untouched, Geometry.WellFormed, FatBytes, TableOf, FreeCount, Overlay, Mirrored, Wrote, Fatfs.Valid,
      Fatfs.Logical, Fatfs.CopiesAgree, View, Linked, SectorNo, Span, CMul, Own, Geometry.InData, SMul, CountOk,
      WriteOrderOk, SameOutsideFat;
    assert fp.buf[..] == old(fp.buf[..]);
    LinkedRange(fp.fs.g, fp.fs.Table(), fp.others, fp.chain, fp.sclust);
    LongerFile(fp.fs.g, old(fp.fs.Logical()), fp.fs.Logical(), fp.others, old(fp.chain), fp.chain, fp.dirty, fp.dsect,
               fp.buf[..]);
  }

  twostate lemma NothingGrown(fp: Fil)
    requires old(fp.Base()) && unchanged(fp`dirty, fp`dsect, fp`sclust, fp`chain, fp`others, fp.buf)
    requires unchanged(fp.fs, fp.fs.drive, fp.fs.win)
    ensures Grown(fp)
  {
    hide Fil.Sectors, Untouched, Geometry.WellFormed, FatBytes, TableOf, FreeCount, Overlay, Fatfs.Valid,
      Fatfs.Logical, Fatfs.CopiesAgree, View, Linked, Own, CountOk, WriteOrderOk, Fil.Base, Fil.Shell;
    NothingMoved(fp.fs);
    NothingTouched(fp);
    assert fp.Sectors()[..|fp.Sectors()|] == fp.Sectors();
  }

  lemma LinkedRange(g: Geometry, t: Table, others: set<Chain>, chain: Chain, sclust: int)
    requires Linked(g, t, others, chain, sclust)
    ensures InRange(g, chain)
  {
  }

  /** create_chain for the next cluster of an open file: element i of its chain, taken if it did not exist. */
  method NextCluster(fp: Fil, clst: dword, ghost i: nat) returns (ncl: dword)
    requires fp.Base() && i <= |fp.chain|
    requires if i == 0 then clst == 0 && fp.chain == [] else clst == fp.chain[i - 1]
    modifies fp`chain, fp`sclust, fp.fs, fp.fs.drive, fp.fs.win
    ensures ncl == DISK_ERROR ==> !fp.fs.drive.reliable
    ensures ncl != DISK_ERROR ==> Grown(fp)
    ensures ncl == 0 ==>
      fp.chain == old(fp.chain) && i == |fp.chain| && fp.sclust == old(fp.sclust) && Full(fp.fs.Table())
    ensures ncl != 0 && ncl != DISK_ERROR ==>
      && fp.fs.g.IsCluster(ncl) && i < |fp.chain| && fp.chain[i] == ncl
      && |fp.chain| == (if i < |old(fp.chain)| then |old(fp.chain)| else i + 1)
  {
    hide Grown, Fil.Base, CountMarked, Dec32, Untouched, Geometry.WellFormed, FatBytes, TableOf, FreeCount,
      Overlay, Mirrored, Wrote, Fatfs.Valid, Fatfs.Logical, Fatfs.CopiesAgree, View, Linked, SectorNo, Span, CMod, CDiv,
      CMul, Own, Geometry.InData, Cut, SMul, FirstStop, CountOk, WriteOrderOk, Taken;
    var g := fp.fs.g;
    ghost var t, d := fp.fs.Table(), fp.fs.Logical();
    LinkedNoOnes(g, t, fp.others, fp.chain, fp.sclust);
    LinkedHead(g, t, fp.others, fp.chain, fp.sclust);
    MarkIsLast(g);
    if i > 0 { LinkedNext(g, t, fp.others, fp.chain, fp.sclust, i - 1); }
    ncl := CreateChain(fp.fs, clst);
    if ncl == DISK_ERROR { return; }
    FatNotOwn(g, fp.others, fp.fs.winsect);
    if ncl != 0 && i == |fp.chain| {
      LinkedGrows(g, t, fp.others, fp.chain, fp.sclust, clst, ncl, Cut(g.fsType, LAST_LINK));
      TakenCount(t, clst, ncl, Cut(g.fsType, LAST_LINK));
      TakenTouches(t, fp.chain, clst, ncl, Cut(g.fsType, LAST_LINK));
      UntouchedFat(g, fp.others, fp.chain, fp.chain + [ncl], d, fp.fs.Logical());
      fp.chain := fp.chain + [ncl];
    } else {
      NothingTouched(fp);
    }
    if ncl != 0 && fp.sclust == 0 { fp.sclust := ncl; }
    GrownNow(fp);
  }

  /** create_chain at the end of the file's chain, or for a file without one. */
  lemma LinkedGrows(g: Geometry, t: Table, others: set<Chain>, chain: Chain, sclust: int,
                    clst: nat, ncl: nat, mark: nat)
    requires Linked(g, t, others, chain, sclust) && g.IsCluster(ncl) && t[ncl] == 0 && mark >= |t|
    requires if chain == [] then clst == 0 else clst == chain[|chain| - 1]
    ensures clst < |t| && InRange(g, chain + [ncl])
    ensures Linked(g, Taken(t, clst, ncl, mark), others, chain + [ncl], if sclust == 0 then ncl else sclust)
  {
    LinkedHead(g, t, others, chain, sclust);
    if chain == [] {
      LinkedStart(g, t, others, ncl, mark);
      assert chain + [ncl] == [ncl];
    } else {
      LinkedNext(g, t, others, chain, sclust, |chain| - 1);
      LinkedAppend(g, t, others, chain, sclust, ncl, mark);
    }
    hide Forest, IsChain;
  }


  /** Where the link map leads at a cluster boundary past the start: to the file's own next cluster; at its end
      nowhere, unless it has been cut: then to the next cluster of the old map. */
  method ClusterByMap(fp: Fil) returns (clst: dword, ghost s: Chain)
    requires fp.Base() && fp.Cursor() && fp.MapReads() && fp.cltbl != null && 0 < fp.fptr
    requires SMod(fp.fptr, fp.fs.g.ss) == 0 && CMod(SDiv(fp.fptr, fp.fs.g.ss), fp.fs.g.csize) == 0
    ensures clst == 0 || fp.fs.g.IsCluster(clst)
    ensures fp.fptr < Capacity(fp.fs.g, fp.chain) ==>
      0 <= ClusterIdx(fp.fs.g, fp.fptr) < |fp.chain| && clst == fp.chain[ClusterIdx(fp.fs.g, fp.fptr)] && clst != 0
    ensures fp.fptr == Capacity(fp.fs.g, fp.chain) && !BehindCut(fp) ==> clst == 0
    ensures BehindCut(fp) ==> fp.Mapped(s) && |fp.chain| < |s| && clst == s[|fp.chain|] && fp.fs.g.IsCluster(clst)
  {
    hide Geometry.WellFormed, FatBytes, TableOf, Overlay, Mirrored, Fatfs.Valid, Fatfs.Logical, Fatfs.CopiesAgree,
      View, Linked, SectorNo, Span, CMod, CDiv, CMul, Own, Geometry.InData, Maps, SMul, SDiv, SMod, Capacity;
    ghost var g := fp.fs.g;
    ghost var idx := ClusterIdx(g, fp.fptr);
    AtCapacity(g, fp.chain, fp.fptr);
    CapacityReached(g, fp.chain, fp.fptr, fp.clust, fp.dsect);
    EnterSector(g, fp.fptr);
    s := MappedChain(fp);
    clst := ClmtClust(fp.cltbl, CDiv(SDiv(fp.fptr, fp.fs.g.ss), fp.fs.g.csize), s);
    if BehindCut(fp) {
      ghost var r :| fp.Mapped(r) && |fp.chain| < |r|;
      OneMapped(fp, s, r);
    }
  }

  /** The first cluster of the file, taken if there is none; 0 when the disk is full. */
  method ClusterAtStart(fp: Fil) returns (clst: dword)
    requires fp.Base() && fp.Cursor() && fp.MapReads() && fp.fptr == 0
    modifies fp`chain, fp`sclust, fp.fs, fp.fs.drive, fp.fs.win
    ensures clst == DISK_ERROR ==> !fp.fs.drive.reliable
    ensures clst != DISK_ERROR ==> Grown(fp) && MapTracked(fp)
    ensures clst == 0 ==> fp.chain == old(fp.chain) == [] && Full(fp.fs.Table())
    ensures clst != 0 && clst != DISK_ERROR ==>
      && fp.fs.g.IsCluster(clst) && fp.chain != [] && clst == fp.chain[0]
      && (fp.chain == old(fp.chain) || |fp.chain| == 1)
  {
    hide Fil.Base, Untouched, Geometry.WellFormed, FatBytes, TableOf, FreeCount, Overlay, Mirrored, Wrote, MediumOk,
      Fatfs.Valid, Fatfs.Logical, Fatfs.CopiesAgree, View, Linked, SectorNo, Span, CMod, CDiv, CMul, Own,
      Geometry.InData, Maps, SMul, SDiv, SMod, Capacity, CountOk, WriteOrderOk, Full;
    LinkedHead(fp.fs.g, fp.fs.Table(), fp.others, fp.chain, fp.sclust);
    ghost var s: Chain := [];
    if fp.cltbl != null { s := MappedChain(fp); }
    clst := fp.sclust;
    if clst == 0 {
      clst := NextCluster(fp, 0, 0);
      assert fp.cltbl != null ==> fp.Mapped(s);
    } else {
      LinkedNext(fp.fs.g, fp.fs.Table(), fp.others, fp.chain, fp.sclust, 0);
      NothingMoved(fp.fs);
      NothingTouched(fp);
    }
  }

  /** The cluster f_write moves to at a cluster boundary; 0 when the disk is full (or the link map ends).  Behind a
      file that has been cut it is the next one of the old map. */
  method ClusterToWrite(fp: Fil) returns (clst: dword, ghost s: Chain)
    requires fp.Base() && fp.Cursor() && fp.MapReads()
    requires SMod(fp.fptr, fp.fs.g.ss) == 0 && CMod(SDiv(fp.fptr, fp.fs.g.ss), fp.fs.g.csize) == 0
    modifies fp`chain, fp`sclust, fp.fs, fp.fs.drive, fp.fs.win
    ensures clst == DISK_ERROR ==> !fp.fs.drive.reliable
    ensures clst != DISK_ERROR ==> Grown(fp) && MapTracked(fp)
    ensures clst == 0 ==>
      && fp.chain == old(fp.chain) && fp.fptr == Capacity(fp.fs.g, fp.chain)
      && (fp.cltbl == null ==> Full(fp.fs.Table()))
    ensures old(BehindCut(fp)) ==>
      && fp.Mapped(s) && |fp.chain| < |s| && clst == s[|fp.chain|] && fp.fs.g.IsCluster(clst)
      && fp.fs.Table() == old(fp.fs.Table())
    ensures clst != 0 && clst != DISK_ERROR && !old(BehindCut(fp)) ==>
      && fp.fs.g.IsCluster(clst) && fp.fptr < Capacity(fp.fs.g, fp.chain)
      && EndsAt(fp.fs.g, |old(fp.chain)|, fp.chain, fp.fptr)
      && 0 <= ClusterIdx(fp.fs.g, fp.fptr) < |fp.chain| && clst == fp.chain[ClusterIdx(fp.fs.g, fp.fptr)]
  {
    hide Fil.Base, Untouched, Geometry.WellFormed, FatBytes, TableOf, FreeCount, Overlay, Mirrored, Wrote, MediumOk,
      Fatfs.Valid, Fatfs.Logical, Fatfs.CopiesAgree, View, Linked, SectorNo, Span, CMod, CDiv, CMul, Own,
      Geometry.InData, Maps, SMul, SDiv, SMod, Capacity, CountOk, WriteOrderOk, Full;
    ghost var g := fp.fs.g;
    ghost var idx := ClusterIdx(g, fp.fptr);
    s := [];
    StartOfFile(g);
    AtCapacity(g, fp.chain, fp.fptr);
    CapacityReached(g, fp.chain, fp.fptr, fp.clust, fp.dsect);
    if fp.fptr == 0 {
      clst := ClusterAtStart(fp);
    } else {
      EnterSector(g, fp.fptr);
      if fp.cltbl != null {
        clst, s := ClusterByMap(fp);
        NothingMoved(fp.fs);
        NothingTouched(fp);
      } else {
        clst := NextCluster(fp, fp.clust, idx);
      }
    }
    AtCapacity(g, fp.chain, fp.fptr);
  }

  lemma CapacityReached(g: Geometry, chain: Chain, fptr: int, clust: int, dsect: int)
    requires SectorSize(g.ss) && ClusterSize(g.csize) && CursorOk(g, chain, fptr, clust, dsect)
    ensures 0 <= fptr <= Capacity(g, chain)
    ensures fptr > 0 ==> 0 <= ClusterIdx(g, fptr - 1) < |chain| && clust == chain[ClusterIdx(g, fptr - 1)]
  {
  }

  /** At a cluster boundary: move to the next cluster. */
  method MoveToCluster(fp: Fil) returns (res: FResult, full: bool, csect: nat, ghost s: Chain)
    requires fp.Base() && fp.Cursor() && fp.MapReads()
    requires SMod(fp.fptr, fp.fs.g.ss) == 0
    requires CMod(SDiv(fp.fptr, fp.fs.g.ss), fp.fs.g.csize) != 0 ==> fp.fptr < Capacity(fp.fs.g, fp.chain)
    modifies fp`clust, fp`chain, fp`sclust, fp.fs, fp.fs.drive, fp.fs.win
    ensures res != FrOk ==> !fp.fs.drive.reliable
    ensures res == FrOk ==> Grown(fp) && MapTracked(fp)
    ensures csect == CMod(SDiv(fp.fptr, fp.fs.g.ss), fp.fs.g.csize) < fp.fs.g.csize
    ensures res == FrOk && full ==>
      && fp.chain == old(fp.chain) && fp.fptr == Capacity(fp.fs.g, fp.chain) && fp.clust == old(fp.clust)
      && (fp.cltbl == null ==> Full(fp.fs.Table()))
    ensures res == FrOk && old(BehindCut(fp)) ==>
      && !full && csect == 0 && fp.Mapped(s) && |fp.chain| < |s|
      && fp.clust == s[|fp.chain|] && fp.fs.g.IsCluster(fp.clust) && fp.fs.Table() == old(fp.fs.Table())
    ensures res == FrOk && !full && !old(BehindCut(fp)) ==>
      && fp.fptr < Capacity(fp.fs.g, fp.chain) && EndsAt(fp.fs.g, |old(fp.chain)|, fp.chain, fp.fptr)
      && 0 <= ClusterIdx(fp.fs.g, fp.fptr) < |fp.chain| && fp.clust == fp.chain[ClusterIdx(fp.fs.g, fp.fptr)]
  {
    hide Fil.Mapped, Fil.Sectors, Untouched, EndsAt, Geometry.WellFormed, FatBytes, TableOf, FreeCount, Overlay,
      Mirrored, Wrote, MediumOk, Fatfs.Valid, Fatfs.Logical, Fatfs.CopiesAgree, View, Linked, SectorNo, Span,
      ClusterIdx, CDiv, CMul, Own, Geometry.InData, Maps, SMul, SDiv, SMod, Capacity, CountOk, WriteOrderOk, Full;
    res, full, s := FrOk, false, [];
    csect := CMod(SDiv(fp.fptr, fp.fs.g.ss), fp.fs.g.csize);
    if csect == 0 {
      var clst;
      clst, s := ClusterToWrite(fp);
      if clst == 0 { full := true; return; }
      if clst == DISK_ERROR { res := FrDiskErr; return; }
      fp.clust := clst;
    } else {
      MidCluster(fp.fs.g, fp.chain, fp.fptr, fp.clust, fp.dsect);
      NotGrown(fp.fs.g, fp.chain, fp.fptr);
      NothingMoved(fp.fs);
      NothingTouched(fp);
    }
  }

  /** At a sector boundary: move to the next cluster if needed, write the buffer back, and find the sector.  Behind
      a file that has been cut it is a sector of no cluster of the file. */
  method SectorToWrite(fp: Fil) returns (res: FResult, full: bool, sect: dword, csect: nat, ghost s: Chain)
    requires fp.Base() && fp.Cursor() && fp.MapReads()
    requires SMod(fp.fptr, fp.fs.g.ss) == 0
    requires CMod(SDiv(fp.fptr, fp.fs.g.ss), fp.fs.g.csize) != 0 ==> fp.fptr < Capacity(fp.fs.g, fp.chain)
    modifies fp`clust, fp`dirty, fp`chain, fp`sclust, fp.fs, fp.fs.drive, fp.fs.win
    ensures res != FrOk ==> !fp.fs.drive.reliable
    ensures res == FrOk ==> Grown(fp) && MapTracked(fp)
    ensures res == FrOk && full ==>
      && fp.chain == old(fp.chain) && fp.fptr == Capacity(fp.fs.g, fp.chain) && fp.clust == old(fp.clust)
      && (fp.cltbl == null ==> Full(fp.fs.Table()))
    ensures res == FrOk && old(BehindCut(fp)) ==>
      && !full && csect == 0 && fp.Mapped(s) && |fp.chain| < |s|
      && fp.clust == s[|fp.chain|] && sect == fp.fs.g.ClustToSect(fp.clust) && fp.fs.g.InData(sect)
      && fp.fs.Table() == old(fp.fs.Table()) && !fp.dirty
    ensures res == FrOk && !full && !old(BehindCut(fp)) ==>
      && !fp.dirty && fp.fptr < Capacity(fp.fs.g, fp.chain)
      && EndsAt(fp.fs.g, |old(fp.chain)|, fp.chain, fp.fptr)
      && AtSectorOf(fp, sect) && csect == CMod(SDiv(fp.fptr, fp.fs.g.ss), fp.fs.g.csize) < fp.fs.g.csize
  {
    hide Fil.Mapped, Fil.Sectors, Untouched, EndsAt, Geometry.WellFormed, FatBytes, TableOf, FreeCount, Overlay,
      Mirrored, Wrote, MediumOk, Fatfs.Valid, Fatfs.Logical, Fatfs.CopiesAgree, View, Linked, SectorNo, Span,
      ClusterIdx, CDiv, CMod, CMul, Own, Geometry.InData, Maps, SMul, SDiv, SMod, Capacity, CountOk, WriteOrderOk,
      Full;
    sect := 0;
    ghost var behind := BehindCut(fp);
    res, full, csect, s := MoveToCluster(fp);
    if res != FrOk || full { return; }
    ghost var d := fp.fs.Logical();
    var ok := FlushBuffer(fp);
    if !ok { res := FrDiskErr; return; }
    UntouchedAgain(fp.fs.g, fp.others, old(fp.chain), fp.chain, fp.chain, old(fp.fs.Logical()), d, fp.fs.Logical());
    if behind {
      SectorOfCluster(fp.fs.g, fp.clust);
    } else {
      SectorFromCluster(fp.fs.g, fp.fs.Table(), fp.others, fp.chain, fp.sclust, fp.fptr, fp.clust);
    }
    sect := fp.fs.g.ClustToSect(fp.clust);
    sect := sect + csect;
  }

  lemma SectorOfCluster(g: Geometry, c: dword)
    requires g.WellFormed() && g.IsCluster(c)
    ensures g.InData(g.ClustToSect(c)) && g.ClustToSect(c) <= 0xFFFF_FFFF
  {
  }

  /** Inside a cluster clust is already the cluster of the byte at the pointer. */
  lemma MidCluster(g: Geometry, chain: Chain, fptr: int, clust: int, dsect: int)
    requires SectorSize(g.ss) && ClusterSize(g.csize) && CursorOk(g, chain, fptr, clust, dsect)
    requires SMod(fptr, g.ss) == 0 && CMod(SDiv(fptr, g.ss), g.csize) != 0
    ensures 0 <= ClusterIdx(g, fptr) < |chain| && clust == chain[ClusterIdx(g, fptr)]
  {
    StartOfFile(g);
    assert fptr != 0 by { if fptr == 0 { ZeroIsAligned(g); } }
    EnterSector(g, fptr);
  }

  lemma ZeroIsAligned(g: Geometry)
    requires SectorSize(g.ss) && ClusterSize(g.csize)
    ensures CMod(SDiv(0, g.ss), g.csize) == 0
  {
  }

  lemma RunReplaced(g: Geometry, t: Table, others: set<Chain>, chain: Chain, sclust: int, d: Medium,
                    k: nat, cc: nat, b: seq<byte>, ofs: nat, s: int, sb: Sector, s': int, sb': Sector)
    requires g.WellFormed() && SectorSize(g.ss) && ClusterSize(g.csize) && Linked(g, t, others, chain, sclust)
    requires InRange(g, chain) && g.DataEnd() <= |d| && SectorsOfSize(d, g.ss) && |sb| == g.ss && |sb'| == g.ss
    requires k < Span(g, chain) && 0 < cc && CMod(k, g.csize) + cc <= g.csize
    requires ofs + SMul(cc, g.ss) <= |b|
    requires 0 <= SectorNo(g, chain, k) && SectorNo(g, chain, k) + cc <= |d|
    ensures var e := PutRun(d, g.ss, SectorNo(g, chain, k), b[ofs..ofs + SMul(cc, g.ss)], cc);
            var v, w := View(g, chain, d, false, s, sb), View(g, chain, e, false, s', sb');
            FromRun(v, w, g.ss, k, cc, b, ofs)
  {
    hide Geometry.WellFormed, SectorNo, Span, View, CMul, CMod, Own, Geometry.InData, Geometry.DataEnd, SMul, SDiv,
      SMod, Linked, IsChain, InRange, Piece;
    RunEnds(0, cc, cc, g.ss);
    var ss, sect, data := g.ss, SectorNo(g, chain, k), b[ofs..ofs + SMul(cc, g.ss)];
    var e := PutRun(d, ss, sect, data, cc);
    var v, w := View(g, chain, d, false, s, sb), View(g, chain, e, false, s', sb');
    LinkedSector(g, t, others, chain, sclust, k);
    WriteRunInView(g, t, chain, d, e, k, cc, s, sb, s', sb');
    assert k + cc <= |v|;
    forall m | k <= m < k + cc ensures SectorFrom(w[m], b, ofs, ss, cc, m - k) {
      RunFits(m - k, cc, ss);
      PieceIs(ss, b, ofs, cc, m - k);
      assert w[m] == e[sect + (m - k)];
    }
  }

  predicate SectorsOfSize(d: Medium, ss: int) {
    forall s :: 0 <= s < |d| ==> |d[s]| == ss
  }

  lemma PieceIs(ss: int, b: seq<byte>, ofs: nat, cc: nat, q: nat)
    requires SectorSize(ss) && q < cc && ofs + SMul(cc, ss) <= |b|
    ensures SMul(q + 1, ss) <= SMul(cc, ss) && 0 <= SMul(q, ss)
    ensures Piece(ss, b[ofs..ofs + SMul(cc, ss)], q) == b[ofs + SMul(q, ss)..ofs + SMul(q, ss) + ss]
  {
    RunFits(q, cc, ss);
    var at := SMul(q, ss);
    assert SMul(q + 1, ss) == at + ss;
    SliceOfSlice(b, ofs, SMul(cc, ss), at, at + ss);
  }

  lemma SliceOfSlice(b: seq<byte>, ofs: nat, n: nat, i: nat, j: nat)
    requires i <= j <= n && ofs + n <= |b|
    ensures b[ofs..ofs + n][i..j] == b[ofs + i..ofs + j]
  {
    var a := b[ofs..ofs + n];
    forall k | 0 <= k < j - i ensures a[i..j][k] == b[ofs + i..ofs + j][k] {
      assert a[i + k] == b[ofs + (i + k)];
    }
  }

  /** The bytes below this bound are kept by a write step: the file so far, or what has been written. */
  function Keep(fp: Fil): dword
    reads fp`fptr, fp`fsize
  {
    if fp.fsize >= fp.fptr then fp.fsize else fp.fptr
  }

  /** e is d with the cc sectors from sect on taken from b at ofs. */
  ghost predicate PutFrom(d: Medium, e: Medium, ss: nat, sect: nat, b: seq<byte>, ofs: nat, cc: nat)
    requires SectorSize(ss)
  {
    && sect + cc <= |d| && 0 <= SMul(cc, ss) && ofs + SMul(cc, ss) <= |b|
    && e == PutRun(d, ss, sect, b[ofs..ofs + SMul(cc, ss)], cc)
  }

  /** Write the run; the file's buffer is left as it was. */
  method PutOut(fp: Fil, buff: array<byte>, ofs: nat, sect: dword, cc: nat, ghost k: nat) returns (ok: bool)
    requires fp.Shell() && !fp.dirty && k < Span(fp.fs.g, fp.chain) && sect == SectorNo(fp.fs.g, fp.chain, k)
    requires 0 < cc && CMod(k, fp.fs.g.csize) + cc <= fp.fs.g.csize
    requires buff != fp.buf && buff != fp.fs.win && ofs + SMul(cc, fp.fs.g.ss) <= buff.Length
    modifies fp.fs.drive
    ensures 0 < sect && sect + cc <= 0xFFFF_FFFF
    ensures ok ==> fp.Shell() && OthersKept(fp)
    ensures ok ==> PutFrom(old(fp.fs.Logical()), fp.fs.Logical(), fp.fs.g.ss, sect, buff[..], ofs, cc)
    ensures Promises(fp.fs) && fp.fs.Table() == old(fp.fs.Table())
    ensures fp.fs.drive.reliable ==> ok
  {
    hide Untouched, Geometry.WellFormed, FatBytes, TableOf, FreeCount, Overlay, Mirrored, Fatfs.Valid, Fatfs.Logical,
      Fatfs.CopiesAgree, Linked, SectorNo, Span, CMod, CDiv, CMul, Own, Geometry.InData, View, SMul, SDiv, SMod,
      FromRun, CountOk, WriteOrderOk, PutRun, Piece;
    ghost var g, d := fp.fs.g, fp.fs.Logical();
    RunIsClear(g, fp.fs.Table(), fp.others, fp.chain, fp.sclust, k, cc);
    RunInMedium(d, g, sect, cc);
    RunEnds(0, cc, cc, fp.fs.g.ss);
    ok := WriteDataRun(fp.fs, buff, ofs, sect, cc);
    if !ok { return; }
    UntouchedRun(g, fp.others, fp.chain, d, sect, buff[ofs..ofs + SMul(cc, g.ss)], cc);
    assert buff[..][ofs..ofs + SMul(cc, g.ss)] == buff[ofs..ofs + SMul(cc, g.ss)];
  }

  /** What the file object promises while its buffer is clean. */
  lemma CleanFile(fp: Fil)
    requires fp.Base() && !fp.dirty
    ensures Linked(fp.fs.g, fp.fs.Table(), fp.others, fp.chain, fp.sclust)
    ensures fp.dsect != 0 ==> fp.dsect < |fp.fs.Logical()| && fp.buf[..] == fp.fs.Logical()[fp.dsect]
    ensures fp.Sectors() == View(fp.fs.g, fp.chain, fp.fs.Logical(), false, fp.dsect, fp.buf[..])
  {
    hide Fatfs.Valid, Fatfs.Logical, Linked, Own;
  }

  /** Transfer cc sectors from the caller's buffer straight to file sector k; the file's buffer follows if it
      holds one of them. */
  method WriteDirect(fp: Fil, buff: array<byte>, ofs: nat, sect: dword, cc: nat, ghost k: nat) returns (ok: bool)
    requires fp.Base() && !fp.dirty && k < Span(fp.fs.g, fp.chain) && sect == SectorNo(fp.fs.g, fp.chain, k)
    requires 0 < cc && CMod(k, fp.fs.g.csize) + cc <= fp.fs.g.csize
    requires buff != fp.buf && buff != fp.fs.win && ofs + SMul(cc, fp.fs.g.ss) <= buff.Length
    modifies fp`dirty, fp.buf, fp.fs.drive
    ensures ok ==> fp.Base() && FromRun(old(fp.Sectors()), fp.Sectors(), fp.fs.g.ss, k, cc, buff[..], ofs)
    ensures ok ==> OthersKept(fp)
    ensures Promises(fp.fs) && fp.fs.Table() == old(fp.fs.Table())
    ensures fp.fs.drive.reliable ==> ok
  {
    hide Fil.Shell, Fil.Base, Fil.Sectors, OthersKept, Promises, Untouched, Geometry.WellFormed, FatBytes, TableOf,
      FreeCount, Overlay, Mirrored, Fatfs.Valid, Fatfs.Logical, Fatfs.CopiesAgree, Linked, SectorNo, Span, CMod, CDiv,
      CMul, Own, Geometry.InData, View, SMul, SDiv, SMod, FromRun, CountOk, WriteOrderOk, PutRun, Piece;
    CleanFile(fp);
    ghost var g, d, b := fp.fs.g, fp.fs.Logical(), buff[..];
    ok := PutOut(fp, buff, ofs, sect, cc, k);
    if !ok { return; }
    assert buff[ofs..ofs + SMul(cc, g.ss)] == b[ofs..ofs + SMul(cc, g.ss)];
    RunSectorOf(d, fp.fs.g.ss, sect, b, ofs, cc, fp.dsect);
    Refill(fp, buff, ofs, sect, cc);
    RunInFile(fp, d, old(fp.buf[..]), k, cc, b, ofs);
  }

  /** The file after a run has been written and the buffer has followed. */
  lemma RunInFile(fp: Fil, d: Medium, was: Sector, k: nat, cc: nat, b: seq<byte>, ofs: nat)
    requires fp.Base() && !fp.dirty && k < Span(fp.fs.g, fp.chain) && |was| == fp.fs.g.ss
    requires 0 < cc && CMod(k, fp.fs.g.csize) + cc <= fp.fs.g.csize && ofs + SMul(cc, fp.fs.g.ss) <= |b|
    requires fp.fs.g.DataEnd() <= |d| && SectorsOfSize(d, fp.fs.g.ss)
    requires var sect := SectorNo(fp.fs.g, fp.chain, k);
             && 0 <= sect && sect + cc <= |d|
             && fp.fs.Logical() == PutRun(d, fp.fs.g.ss, sect, b[ofs..ofs + SMul(cc, fp.fs.g.ss)], cc)
    ensures FromRun(View(fp.fs.g, fp.chain, d, false, fp.dsect, was), fp.Sectors(), fp.fs.g.ss, k, cc, b, ofs)
  {
    hide Fil.Shell, Fil.Base, Untouched, Geometry.WellFormed, FatBytes, TableOf, Overlay, Mirrored, Fatfs.Valid,
      Fatfs.Logical, Linked, SectorNo, Span, CMod, CMul, Own, Geometry.InData, View, SMul, FromRun, PutRun, Piece;
    CleanFile(fp);
    RunReplaced(fp.fs.g, fp.fs.Table(), fp.others, fp.chain, fp.sclust, d, k, cc, b, ofs,
                fp.dsect, was, fp.dsect, fp.buf[..]);
  }

  /** Refill the buffer if a direct write went over its sector. */
  method Refill(fp: Fil, buff: array<byte>, ofs: nat, sect: dword, cc: nat)
    requires fp.Shell() && !fp.dirty && 0 < sect && sect + cc <= 0xFFFF_FFFF
    requires buff != fp.buf && buff != fp.fs.win && ofs + SMul(cc, fp.fs.g.ss) <= buff.Length
    requires fp.dsect != 0 ==>
      if sect <= fp.dsect < sect + cc
      then var at := SMul(fp.dsect - sect, fp.fs.g.ss);
           0 <= at && at + fp.fs.g.ss <= SMul(cc, fp.fs.g.ss)
           && fp.fs.Logical()[fp.dsect] == buff[ofs + at..ofs + at + fp.fs.g.ss]
      else fp.fs.Logical()[fp.dsect] == fp.buf[..]
    modifies fp`dirty, fp.buf
    ensures fp.Base() && !fp.dirty
  {
    hide Geometry.WellFormed, FatBytes, TableOf, FreeCount, Overlay, Fatfs.Valid, Fatfs.Logical, Linked, SectorNo,
      Own, Geometry.InData, View, SMul;
    var at := Sub32(fp.dsect, sect);
    if at < cc {
      MemCpy(fp.buf, 0, buff, ofs + SMul(at, fp.fs.g.ss), fp.fs.g.ss);
      fp.dirty := false;
    }
  }

  /** One sector of the medium after a run has been written. */
  lemma RunSectorOf(d: Medium, ss: int, sect: nat, b: seq<byte>, ofs: nat, cc: nat, s: nat)
    requires SectorSize(ss) && sect + cc <= |d| && ofs + SMul(cc, ss) <= |b| && 0 <= SMul(cc, ss)
    requires s < |d|
    ensures var e := PutRun(d, ss, sect, b[ofs..ofs + SMul(cc, ss)], cc);
            if sect <= s < sect + cc
            then 0 <= SMul(s - sect, ss) && SMul(s - sect, ss) + ss <= SMul(cc, ss)
                 && e[s] == b[ofs + SMul(s - sect, ss)..ofs + SMul(s - sect, ss) + ss]
            else e[s] == d[s]
  {
    if sect <= s < sect + cc {
      RunFits(s - sect, cc, ss);
      PieceIs(ss, b, ofs, cc, s - sect);
    }
  }

  /** Bring the sector to be changed into the buffer, except at or past the end of the file, where nothing would
      be kept of it. */
  method FillForWrite(fp: Fil, sect: dword) returns (ok: bool)
    requires fp.Base() && !fp.dirty && AtSectorOf(fp, sect)
    modifies fp`dsect, fp.buf
    ensures ok ==> fp.Shell() && fp.dsect == sect && fp.Sectors() == old(fp.Sectors()) && AtSectorOf(fp, sect)
    ensures ok && fp.fptr < fp.fsize ==> fp.buf[..] == fp.Sectors()[SDiv(fp.fptr, fp.fs.g.ss)]
    ensures fp.fs.drive.reliable ==> ok
  {
    hide Untouched, Geometry.WellFormed, FatBytes, TableOf, FreeCount, Overlay, Mirrored, Fatfs.Valid, Fatfs.Logical,
      Fatfs.CopiesAgree, Linked, SectorNo, Span, CMod, CDiv, CMul, Geometry.InData, View, Own, SMul, SDiv, SMod,
      ClusterIdx;
    ghost var g, d, k := fp.fs.g, fp.fs.Logical(), SDiv(fp.fptr, fp.fs.g.ss);
    OwnIsData(g, fp.others, sect);
    RunInMedium(d, g, sect, 1);
    if fp.dsect != sect {
      ok := true;
      if fp.fptr < fp.fsize {
        OwnClear(fp, sect);
        ok := ReadData(fp.fs, fp.buf, sect);
        if !ok { return; }
      }
    }
    ok := true;
    fp.dsect := sect;
    CleanView(g, fp.chain, d, old(fp.dsect), old(fp.buf[..]), sect, fp.buf[..]);
    ViewAt(g, fp.chain, d, false, sect, fp.buf[..], k);
  }

  lemma OwnClear(fp: Fil, sect: int)
    requires fp.Shell() && Own(fp.fs.g, fp.others, sect)
    ensures ClearRun(fp.fs, sect, 1)
  {
    OwnIsData(fp.fs.g, fp.others, sect);
  }

  /** Bytes copied into the buffer, now dirty, are in its sector of the file. */
  method PutInBuffer(fp: Fil, at: nat, buff: array<byte>, ofs: nat, cnt: nat, ghost k: nat)
    requires fp.Shell() && k < Span(fp.fs.g, fp.chain) && fp.dsect == SectorNo(fp.fs.g, fp.chain, k)
    requires at + cnt <= fp.buf.Length
    requires buff != fp.buf && buff != fp.fs.win && ofs + cnt <= buff.Length
    modifies fp`dirty, fp.buf
    ensures fp.buf[..] == old(fp.buf[..at]) + buff[ofs..ofs + cnt] + old(fp.buf[at + cnt..])
    ensures fp.dirty && fp.Base() && fp.Sectors() == old(fp.Sectors())[k := fp.buf[..]]
  {
    hide Geometry.WellFormed, FatBytes, TableOf, FreeCount, Overlay, Mirrored, Fatfs.Valid, Fatfs.Logical, Linked,
      SectorNo, Span, Own, View, MediumOk;
    ghost var g, t, d, b0 := fp.fs.g, fp.fs.Table(), fp.fs.Logical(), fp.buf[..];
    LinkedSector(g, t, fp.others, fp.chain, fp.sclust, k);
    OwnIsData(g, fp.others, fp.dsect);
    MemCpy(fp.buf, at, buff, ofs, cnt);
    fp.dirty := true;
    StoreInView(g, t, fp.chain, d, old(fp.dirty), fp.dsect, b0, k, fp.buf[..]);
  }

  /** Put up to btw bytes into the buffered sector at the pointer. */
  method CopyIn(fp: Fil, buff: array<byte>, ofs: nat, btw: dword) returns (wcnt: nat)
    requires fp.Shell() && AtSectorOf(fp, fp.dsect) && 0 < btw && fp.fsize <= Capacity(fp.fs.g, fp.chain)
    requires fp.buf[..] == fp.Sectors()[SDiv(fp.fptr, fp.fs.g.ss)] ||
             (SMod(fp.fptr, fp.fs.g.ss) == 0 && fp.fsize <= fp.fptr)
    requires buff != fp.buf && buff != fp.fs.win && ofs + btw <= buff.Length
    modifies fp`dirty, fp.buf
    ensures fp.Base() && 0 < wcnt <= btw && |fp.Sectors()| == |old(fp.Sectors())|
    ensures StepWritten(old(fp.Sectors()), fp.Sectors(), fp.fs.g.ss, fp.fptr, wcnt, buff[..], ofs, Keep(fp))
    ensures CursorOk(fp.fs.g, fp.chain, fp.fptr + wcnt, fp.clust, fp.dsect)
    ensures ClusterIdx(fp.fs.g, fp.fptr + wcnt - 1) == ClusterIdx(fp.fs.g, fp.fptr)
  {
    hide MediumOk, CountOk, WriteOrderOk, Capacity, Span, Untouched, Geometry.WellFormed, FatBytes, TableOf,
      FreeCount, Overlay, Mirrored, Fatfs.Valid, Fatfs.Logical, Fatfs.CopiesAgree, Linked, SectorNo, CMod, CDiv, CMul,
      Geometry.InData, View, Own, SMul, SDiv, SMod, StepWritten, ClusterIdx, CursorOk, IsChain;
    ghost var g, v, b0 := fp.fs.g, fp.Sectors(), fp.buf[..];
    InSector(fp.fptr, fp.fs.g.ss);
    wcnt := fp.fs.g.ss - SMod(fp.fptr, fp.fs.g.ss);
    if wcnt > btw { wcnt := btw; }
    PutInBuffer(fp, SMod(fp.fptr, fp.fs.g.ss), buff, ofs, wcnt, SDiv(fp.fptr, g.ss));
    KeepFits(fp, g);
    CopiedIn(v, g.ss, fp.fptr, wcnt, buff[..], ofs, Keep(fp), b0, fp.buf[..]);
    AdvanceInside(g, fp.chain, fp.fptr, wcnt, fp.clust, fp.dsect);
  }

  lemma KeepFits(fp: Fil, g: Geometry)
    requires SectorSize(g.ss) && ClusterSize(g.csize) && 0 <= SDiv(fp.fptr, g.ss) < Span(g, fp.chain)
    requires fp.fsize <= Capacity(g, fp.chain)
    ensures Keep(fp) <= SMul(Span(g, fp.chain), g.ss)
  {
    SectorSplit(fp.fptr, g.ss);
    RunFits(SDiv(fp.fptr, g.ss), Span(g, fp.chain), g.ss);
  }

  /** Write to the sector at the pointer: whole sectors directly, or part of one through the buffer. */
  method WriteSectorAt(fp: Fil, buff: array<byte>, ofs: nat, btw: dword, sect: dword, csect: nat)
    returns (res: FResult, wcnt: nat)
    requires fp.Base() && !fp.dirty && AtSectorOf(fp, sect) && SMod(fp.fptr, fp.fs.g.ss) == 0 && 0 < btw
    requires csect == CMod(SDiv(fp.fptr, fp.fs.g.ss), fp.fs.g.csize) < fp.fs.g.csize
    requires fp.fsize <= Capacity(fp.fs.g, fp.chain) && Keep(fp) <= SMul(|fp.Sectors()|, fp.fs.g.ss)
    requires buff != fp.buf && buff != fp.fs.win && ofs + btw <= buff.Length
    modifies fp`dirty, fp`dsect, fp.buf, fp.fs.drive
    ensures res != FrOk ==> !fp.fs.drive.reliable
    ensures res == FrOk ==>
      && fp.Base() && OthersKept(fp) && Promises(fp.fs) && fp.fs.Table() == old(fp.fs.Table()) && 0 < wcnt <= btw
      && StepWritten(old(fp.Sectors()), fp.Sectors(), fp.fs.g.ss, fp.fptr, wcnt, buff[..], ofs, Keep(fp))
      && CursorOk(fp.fs.g, fp.chain, fp.fptr + wcnt, fp.clust, fp.dsect)
      && ClusterIdx(fp.fs.g, fp.fptr + wcnt - 1) == ClusterIdx(fp.fs.g, fp.fptr)
  {
    hide Untouched, Geometry.WellFormed, FatBytes, TableOf, FreeCount, Overlay, Mirrored, Wrote, MediumOk,
      Fatfs.Valid, Fatfs.Logical, Fatfs.CopiesAgree, View, Linked, SectorNo, CMod, CDiv, CMul, Own, Geometry.InData,
      SMul, SDiv, SMod, StepWritten, FromRun, Capacity, ClusterIdx, CountOk, WriteOrderOk, CursorOk, Span;
    res, wcnt := FrOk, 0;
    ghost var g := fp.fs.g;
    ghost var k := SDiv(fp.fptr, g.ss);
    var cc := SDiv(btw, fp.fs.g.ss);
    DirectCount(btw, fp.fs.g.ss);
    if cc > 0 {
      if csect + cc > fp.fs.g.csize { cc := fp.fs.g.csize - csect; }
      AlignedStep(g, fp.fptr, btw, cc);
      var ok := WriteDirect(fp, buff, ofs, sect, cc, k);
      if !ok { res := FrDiskErr; return; }
      wcnt := SMul(cc, fp.fs.g.ss);
      RunWrittenBytes(old(fp.Sectors()), fp.Sectors(), g.ss, k, cc, buff[..], ofs, Keep(fp));
      AdvanceAligned(g, fp.chain, fp.fptr, cc, fp.clust, fp.dsect);
    } else {
      var ok := FillForWrite(fp, sect);
      if !ok { res := FrDiskErr; return; }
      wcnt := CopyIn(fp, buff, ofs, btw);
      NothingMoved(fp.fs);
      NothingTouched(fp);
    }
  }

  /** One round of the write loop at a sector boundary. */
  method WriteAligned(fp: Fil, buff: array<byte>, ofs: nat, btw: dword)
    returns (res: FResult, full: bool, wcnt: nat)
    requires fp.Base() && fp.Cursor() && fp.MapServes(btw)
    requires SMod(fp.fptr, fp.fs.g.ss) == 0 && 0 < btw && fp.fsize <= Capacity(fp.fs.g, fp.chain)
    requires buff != fp.buf && buff != fp.fs.win && (fp.cltbl as object?) != buff && ofs + btw <= buff.Length
    modifies fp`clust, fp`dirty, fp`dsect, fp`chain, fp`sclust, fp.buf, fp.fs, fp.fs.drive, fp.fs.win
    ensures res != FrOk ==> !fp.fs.drive.reliable
    ensures res == FrOk ==> Extended(fp) && MapTracked(fp)
    ensures res == FrOk && full ==>
      && Grown(fp) && fp.chain == old(fp.chain) && fp.clust == old(fp.clust) && fp.dsect == old(fp.dsect)
      && fp.fptr == Capacity(fp.fs.g, fp.chain) && (fp.cltbl == null ==> Full(fp.fs.Table()))
    ensures res == FrOk && !full ==>
      && 0 < wcnt <= btw
      && StepWritten(old(fp.Sectors()), fp.Sectors(), fp.fs.g.ss, fp.fptr, wcnt, buff[..], ofs, Keep(fp))
      && CursorOk(fp.fs.g, fp.chain, fp.fptr + wcnt, fp.clust, fp.dsect)
      && EndsAt(fp.fs.g, |old(fp.chain)|, fp.chain, fp.fptr + wcnt - 1)
  {
    hide Fil.Base, Fil.Shell, Fil.Sectors, Untouched, Geometry.WellFormed, FatBytes, TableOf, FreeCount, Overlay,
      Mirrored, Wrote, MediumOk, Fatfs.Valid, Fatfs.Logical, Fatfs.CopiesAgree, View, Linked, SectorNo, CMod, CDiv,
      CMul, Own, Geometry.InData, Maps, SMul, SDiv, SMod, StepWritten, Capacity, ClusterIdx, CountOk, WriteOrderOk,
      Full, CursorOk, Span;
    ghost var g, v := fp.fs.g, fp.Sectors();
    KeepInFile(fp);
    InsideCluster(g, fp.chain, fp.fptr, fp.clust, fp.dsect);
    wcnt := 0;
    NotBehindCut(fp, btw);
    var sect, csect;
    ghost var s;
    res, full, sect, csect, s := SectorToWrite(fp);
    if res != FrOk || full { return; }
    ghost var u, d := fp.Sectors(), fp.fs.Logical();
    CapacityBytes(fp.fs.g, fp.chain);
    LengthOrder(v, u, g.ss);
    FsizeFits(g, fp.fsize, old(fp.chain), fp.chain);
    res, wcnt := WriteSectorAt(fp, buff, ofs, btw, sect, csect);
    if res != FrOk { return; }
    UntouchedAgain(g, fp.others, old(fp.chain), fp.chain, fp.chain, old(fp.fs.Logical()), d, fp.fs.Logical());
    GrownThenWritten(v, u, fp.Sectors(), g.ss, fp.fptr, wcnt, buff[..], ofs, Keep(fp));
  }

  lemma KeepInFile(fp: Fil)
    requires fp.Base() && fp.Cursor() && fp.fsize <= Capacity(fp.fs.g, fp.chain)
    ensures Keep(fp) <= SMul(|fp.Sectors()|, fp.fs.g.ss)
  {
  }

  lemma InsideCluster(g: Geometry, chain: Chain, fptr: int, clust: int, dsect: int)
    requires SectorSize(g.ss) && ClusterSize(g.csize) && CursorOk(g, chain, fptr, clust, dsect)
    requires SMod(fptr, g.ss) == 0
    ensures CMod(SDiv(fptr, g.ss), g.csize) != 0 ==> fptr < Capacity(g, chain)
  {
    if fptr == Capacity(g, chain) {
      SectorSplitUnique(fptr, g.ss, Span(g, chain), 0);
      ClusterSplitUnique(Span(g, chain), g.csize, |chain|, 0);
    }
  }

  lemma FsizeFits(g: Geometry, fsize: int, chain: Chain, chain': Chain)
    requires SectorSize(g.ss) && ClusterSize(g.csize) && fsize <= Capacity(g, chain) && chain <= chain'
    ensures fsize <= Capacity(g, chain')
  {
    SpanGrows(g, chain, chain');
  }

  /** One round of the write loop: wcnt bytes of the caller's buffer, up to btw, to the file pointer. */
  method WriteStep(fp: Fil, buff: array<byte>, ofs: nat, btw: dword)
    returns (res: FResult, full: bool, wcnt: nat)
    requires fp.Base() && fp.Cursor() && fp.MapServes(btw)
    requires 0 < btw && fp.fsize <= Capacity(fp.fs.g, fp.chain)
    requires buff != fp.buf && buff != fp.fs.win && (fp.cltbl as object?) != buff && ofs + btw <= buff.Length
    modifies fp`clust, fp`dirty, fp`dsect, fp`chain, fp`sclust, fp.buf, fp.fs, fp.fs.drive, fp.fs.win
    ensures res != FrOk ==> !fp.fs.drive.reliable
    ensures res == FrOk ==> Extended(fp) && MapTracked(fp) && fp.MapServes(btw)
    ensures res == FrOk ==> Extends(fp.fs.g, fp.fs.drive.reliable, old(SnapshotOf(fp)), SnapshotOf(fp))
    ensures res == FrOk && full ==>
      && Grown(fp) && fp.chain == old(fp.chain) && fp.clust == old(fp.clust) && fp.dsect == old(fp.dsect)
      && fp.fptr == Capacity(fp.fs.g, fp.chain) && (fp.cltbl == null ==> Full(fp.fs.Table()))
    ensures res == FrOk && !full ==>
      && 0 < wcnt <= btw
      && StepWritten(old(fp.Sectors()), fp.Sectors(), fp.fs.g.ss, fp.fptr, wcnt, buff[..], ofs, Keep(fp))
      && CursorOk(fp.fs.g, fp.chain, fp.fptr + wcnt, fp.clust, fp.dsect)
      && EndsAt(fp.fs.g, |old(fp.chain)|, fp.chain, fp.fptr + wcnt - 1)
  {
    hide Untouched, Geometry.WellFormed, FatBytes, TableOf, FreeCount, Overlay, Mirrored, Wrote, MediumOk,
      Fatfs.Valid, Fatfs.Logical, Fatfs.CopiesAgree, View, Linked, SectorNo, CMod, CDiv, CMul, Own, Geometry.InData,
      Maps, SMul, SDiv, SMod, StepWritten, Capacity, ClusterIdx, CountOk, WriteOrderOk, Full, CursorOk, Span;
    if SMod(fp.fptr, fp.fs.g.ss) == 0 {
      res, full, wcnt := WriteAligned(fp, buff, ofs, btw);
    } else {
      BufferedSector(fp);
      NothingMoved(fp.fs);
      NothingTouched(fp);
      res, full := FrOk, false;
      wcnt := CopyIn(fp, buff, ofs, btw);
    }
    if res == FrOk { ExtendedIs(fp); }
  }

  lemma NotGrown(g: Geometry, chain: Chain, i: int)
    requires SectorSize(g.ss) && ClusterSize(g.csize)
    ensures EndsAt(g, |chain|, chain, i)
  {
  }

  lemma StepEnds(g: Geometry, n0: nat, chain: Chain, chain': Chain, fptr: int, n: int, clust: int, dsect: int)
    requires SectorSize(g.ss) && ClusterSize(g.csize) && 0 < n && 0 <= fptr
    requires EndsAt(g, n0, chain, fptr - 1) && EndsAt(g, |chain|, chain', fptr + n - 1)
    requires CursorOk(g, chain', fptr + n, clust, dsect)
    ensures EndsAt(g, n0, chain', fptr + n - 1)
  {
    StillEndsAt(g, n0, chain, chain', fptr - 1, fptr + n - 1);
  }

  /** One round, and the pointer moved on. */
  method WriteRound(fp: Fil, buff: array<byte>, ofs: nat, btw: dword)
    returns (res: FResult, full: bool, wcnt: nat)
    requires fp.Base() && fp.Cursor() && fp.MapServes(btw) && 0 < btw
    requires fp.fsize <= Capacity(fp.fs.g, fp.chain) && fp.fptr + btw <= 0xFFFF_FFFF
    requires buff != fp.buf && buff != fp.fs.win && (fp.cltbl as object?) != buff && ofs + btw <= buff.Length
    modifies fp`fptr, fp`clust, fp`dirty, fp`dsect, fp`chain, fp`sclust, fp.buf, fp.fs, fp.fs.drive, fp.fs.win
    ensures res != FrOk ==> !fp.fs.drive.reliable
    ensures res == FrOk ==>
      && old(fp.chain) <= fp.chain && fp.Base() && fp.Cursor() && MapTracked(fp)
      && Extends(fp.fs.g, fp.fs.drive.reliable, old(SnapshotOf(fp)), SnapshotOf(fp))
      && fp.fsize <= Capacity(fp.fs.g, fp.chain) && wcnt <= btw && fp.fptr == old(fp.fptr) + wcnt
      && fp.MapServes(btw - wcnt)
    ensures res == FrOk && full ==>
      && wcnt == 0 && fp.Sectors() == old(fp.Sectors()) && fp.chain == old(fp.chain)
      && fp.fptr == Capacity(fp.fs.g, fp.chain) && (fp.cltbl == null ==> Full(fp.fs.Table()))
    ensures res == FrOk && !full ==>
      && 0 < wcnt && EndsAt(fp.fs.g, |old(fp.chain)|, fp.chain, fp.fptr - 1)
      && StepWritten(old(fp.Sectors()), fp.Sectors(), fp.fs.g.ss, old(fp.fptr), wcnt, buff[..], ofs, old(Keep(fp)))
  {
    hide SnapshotOf, Extends, OthersKept, Promises, Fil.MapReads, Fil.MapHeld, Fil.Base, Fil.Shell, Fil.Sectors,
      Untouched, EndsAt, Geometry.WellFormed, FatBytes, TableOf, FreeCount, Overlay, Mirrored, Wrote, MediumOk,
      Fatfs.Valid, Fatfs.Logical, Fatfs.CopiesAgree, View, Linked, SectorNo, Span, CMod, CDiv, CMul, Own,
      Geometry.InData, Maps, SMul, SDiv, SMod, StepWritten, Capacity, ClusterIdx, CountOk, WriteOrderOk, Full,
      CursorOk;
    ghost var chain, size := fp.chain, fp.fsize;
    res, full, wcnt := WriteStep(fp, buff, ofs, btw);
    if res != FrOk { return; }
    FsizeFits(fp.fs.g, size, chain, fp.chain);
    if full {
      wcnt := 0;
      assert fp.Sectors()[..|fp.Sectors()|] == fp.Sectors();
      return;
    }
    fp.fptr := fp.fptr + wcnt;
  }

  /** The write loop: bw bytes of the caller's buffer to the file pointer. */
  method WriteLoop(fp: Fil, buff: array<byte>, btw: dword) returns (res: FResult, bw: dword)
    requires fp.Base() && fp.Cursor() && fp.MapServes(btw) && fp.err == FrOk
    requires fp.fptr <= fp.fsize <= Capacity(fp.fs.g, fp.chain) && fp.fptr + btw <= 0xFFFF_FFFF
    requires buff != fp.buf && buff != fp.fs.win && (fp.cltbl as object?) != buff && btw <= buff.Length
    modifies fp`fptr, fp`clust, fp`dirty, fp`dsect, fp`chain, fp`sclust, fp.buf, fp.fs, fp.fs.drive, fp.fs.win
    ensures res != FrOk ==> !fp.fs.drive.reliable
    ensures res == FrOk ==> Extended(fp) && fp.Base() && fp.Cursor() && MapTracked(fp) && old(fp.chain) <= fp.chain
    ensures res == FrOk ==> bw <= btw && fp.fptr == old(fp.fptr) + bw
    ensures res == FrOk ==> EndsAt(fp.fs.g, |old(fp.chain)|, fp.chain, fp.fptr - 1)
    ensures res == FrOk ==>
      TotalWritten(old(fp.Sectors()), fp.Sectors(), fp.fs.g.ss, old(fp.fptr), bw, buff[..], fp.fsize)
    ensures res == FrOk && bw < btw ==>
      fp.fptr == Capacity(fp.fs.g, fp.chain) && (fp.cltbl == null ==> Full(fp.fs.Table()))
  {
    hide SnapshotOf, Extends, Extended, Fil.Cursor, Fil.MapServes, Fil.MapReads, Fil.MapHeld, Fil.Base, Fil.Shell,
      Fil.Sectors, Untouched, EndsAt, Geometry.WellFormed, FatBytes, TableOf, FreeCount, Overlay, Mirrored, Wrote,
      MediumOk, Fatfs.Valid, Fatfs.Logical, Fatfs.CopiesAgree, View, Linked, SectorNo, Span, CMod, CDiv, CMul, Own,
      Geometry.InData, Maps, SMul, SDiv, SMod, StepWritten, TotalWritten, Capacity, ClusterIdx, CountOk,
      WriteOrderOk, Full, CursorOk;
    res, bw := FrOk, 0;
    ghost var g, p, v, size := fp.fs.g, fp.fptr, fp.Sectors(), fp.fsize;
    ghost var start := SnapshotOf(fp);
    var left: dword := btw;
    ExtendsSame(fp);
    CapacityBytes(g, fp.chain);
    WrittenNothing(v, g.ss, p, buff[..], size);
    NotGrown(g, fp.chain, p - 1);
    while left > 0
      invariant fp.Base() && Extends(g, fp.fs.drive.reliable, start, SnapshotOf(fp)) && old(fp.chain) <= fp.chain
      invariant fp.Cursor() && fp.MapServes(left) && MapTracked(fp) && res == FrOk
      invariant fp.fptr == p + bw && bw + left == btw && size <= Capacity(g, fp.chain)
      invariant EndsAt(g, |old(fp.chain)|, fp.chain, fp.fptr - 1)
      invariant TotalWritten(v, fp.Sectors(), g.ss, p, bw, buff[..], size)
    {
      ghost var u, chain, shot := fp.Sectors(), fp.chain, SnapshotOf(fp);
      var full, wcnt;
      res, full, wcnt := WriteRound(fp, buff, bw, left);
      if res != FrOk { return; }
      ExtendsAgain(g, fp.fs.drive.reliable, start, shot, SnapshotOf(fp));
      if full { break; }
      RoundEnds(fp, |old(fp.chain)|, chain, wcnt);
      WrittenMore(v, u, fp.Sectors(), g.ss, p, bw, wcnt, buff[..], size);
      bw := bw + wcnt;
      left := left - wcnt;
    }
    ExtendedIs(fp);
  }

  lemma RoundEnds(fp: Fil, n0: nat, chain: Chain, n: int)
    requires fp.Base() && fp.Cursor() && 0 < n <= fp.fptr
    requires EndsAt(fp.fs.g, n0, chain, fp.fptr - n - 1) && EndsAt(fp.fs.g, |chain|, fp.chain, fp.fptr - 1)
    ensures EndsAt(fp.fs.g, n0, fp.chain, fp.fptr - 1)
  {
    hide Fil.Base, Fil.Shell, EndsAt, CursorOk;
    StepEnds(fp.fs.g, n0, chain, fp.chain, fp.fptr - n, n, fp.clust, fp.dsect);
  }

  /** Up to btw bytes of data have been written at the pointer, bw of them.  Exactly these bytes are changed; every
      other byte of the file is kept.  The count falls short only when no cluster is free (or the link map ends), or
      when the file would reach 4 GB. */
  twostate predicate WroteBytes(fp: Fil, data: seq<byte>, btw: dword, bw: dword)
    reads fp, fp.buf, fp.cltbl, fp.fs`winsect, fp.fs`wflag, fp.fs`freeClust, fp.fs.drive, fp.fs.win
  {
    && old(fp.Placed()) && fp.Placed() && MapTracked(fp) && Extended(fp) && fp.written && fp.err == FrOk
    && bw <= btw && bw <= |data| && fp.fptr == old(fp.fptr) + bw
    && fp.Bytes() == Overwritten(old(fp.Bytes()), old(fp.fptr), data[..bw])
    && EndsAt(fp.fs.g, |old(fp.chain)|, fp.chain, fp.fptr - 1)
    && (old(fp.fptr) + btw > 0xFFFF_FFFF ==> bw == 0)
    && (old(fp.fptr) + btw <= 0xFFFF_FFFF && bw < btw ==>
          fp.fptr == Capacity(fp.fs.g, fp.chain) && (fp.cltbl == null ==> Full(fp.fs.Table())))
  }

  /** f_write past its checks. */
  method WriteBytes(fp: Fil, buff: array<byte>, btw: dword) returns (res: FResult, bw: dword)
    requires fp.Placed() && btw <= buff.Length && fp.err == FrOk
    requires fp.MapServes(if fp.fptr + btw > 0xFFFF_FFFF then 0 else btw)
    requires buff != fp.buf && buff != fp.fs.win && (fp.cltbl as object?) != buff
    modifies fp`fptr, fp`fsize, fp`written, fp`err, fp`clust, fp`dirty, fp`dsect, fp`chain, fp`sclust, fp.buf,
             fp.fs, fp.fs.drive, fp.fs.win
    ensures fp.err == res && (fp.fs.drive.reliable ==> res == FrOk)
    ensures res == FrOk ==> WroteBytes(fp, buff[..], btw, bw)
  {
    hide Extended, Fil.Base, Fil.MapServes, Fil.MapHeld, Fil.MapReads, Fil.Sectors, Untouched, EndsAt,
      Geometry.WellFormed, FatBytes, TableOf, FreeCount, Overlay, Mirrored, Wrote, MediumOk, Fatfs.Valid,
      Fatfs.Logical, Fatfs.CopiesAgree, View, Linked, SectorNo, Span, CMod, CDiv, CMul, Own, Geometry.InData, Maps,
      Content, SMul, SDiv, SMod, StepWritten, TotalWritten, ClusterIdx, CountOk, WriteOrderOk, Full, Overwritten;
    ghost var g, p, v, size := fp.fs.g, fp.fptr, fp.Sectors(), fp.fsize;
    var n: dword := btw;
    if fp.fptr + btw > 0xFFFF_FFFF { n := 0; }
    res, bw := WriteLoop(fp, buff, n);
    if res != FrOk { fp.err := res; return; }
    if fp.fptr > fp.fsize { fp.fsize := fp.fptr; }
    fp.written := true;
    WrittenContent(v, fp.Sectors(), g.ss, p, bw, buff[..], size, fp.fsize);
    assert buff[..][..bw] == buff[..bw];
  }

  /** Write up to btw bytes.  With the map of a file that has been cut since, the bytes must end in the clusters that
      are left. */
  method FWrite(fp: Fil, buff: array<byte>, btw: dword) returns (res: FResult, bw: dword)
    requires fp.Placed() && btw <= buff.Length
    requires fp.err == FrOk && fp.canWrite ==> fp.MapServes(if fp.fptr + btw > 0xFFFF_FFFF then 0 else btw)
    requires buff != fp.buf && buff != fp.fs.win && (fp.cltbl as object?) != buff
    modifies fp`fptr, fp`fsize, fp`written, fp`err, fp`clust, fp`dirty, fp`dsect, fp`chain, fp`sclust, fp.buf,
             fp.fs, fp.fs.drive, fp.fs.win
    ensures old(fp.err) != FrOk ==> res == old(fp.err) && bw == 0
    ensures old(fp.err) == FrOk && !fp.canWrite ==> res == FrDenied && bw == 0
    ensures old(fp.err) != FrOk || !fp.canWrite ==> unchanged(fp, fp.buf, fp.fs, fp.fs.drive, fp.fs.win)
    ensures old(fp.err) == FrOk && fp.canWrite ==> fp.err == res && (fp.fs.drive.reliable ==> res == FrOk)
    ensures res == FrOk ==> WroteBytes(fp, buff[..], btw, bw)
    ensures res == FrOk && old(fp.Valid()) ==>
      && (fp.MapOk() <==> fp.cltbl == null || fp.chain == old(fp.chain)) && (fp.MapOk() <==> fp.Valid())
      && (!fp.MapOk() ==> old(fp.chain) == [] && |fp.chain| == 1)
  {
    hide Fil.MapServes, Fil.Base, Fil.Shell, Fil.Cursor, Fil.Bytes, Fil.Sectors, Maps, Extended, EndsAt, Capacity,
      Fatfs.Valid, Fatfs.Logical, Full, Overwritten;
    bw := 0;
    if fp.err != FrOk { res := fp.err; return; }
    if !fp.canWrite { res := FrDenied; return; }
    res, bw := WriteBytes(fp, buff, btw);
    if res == FrOk && fp.cltbl != null && old(fp.MapOk()) && fp.chain != old(fp.chain) {
      if fp.MapOk() { OneMapped(fp, fp.chain, []); }
    }
  }
}
