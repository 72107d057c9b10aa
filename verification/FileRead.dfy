/** f_read. */
module FileRead {
  import opened Bytes
  import opened Units
  import opened Layout
  import opened Disk
  import opened PackedTable
  import opened FatTable
  import opened LogicalDisk
  import opened Volume
  import opened FatAccess
  import opened Chains
  import opened Allocation
  import opened ClusterOps
  import opened DataAccess
  import opened LinkMap
  import opened FileData
  import opened FileCursor
  import opened Files
  import opened FileFrame

  /** The disk sector of file sector k, computed from its cluster. */
  lemma SectorFromCluster(g: Geometry, t: Table, others: set<Chain>, chain: Chain, sclust: int, fptr: int, clust: dword)
    requires g.WellFormed() && SectorSize(g.ss) && ClusterSize(g.csize) && Linked(g, t, others, chain, sclust)
    requires 0 <= fptr < Capacity(g, chain)
    requires 0 <= ClusterIdx(g, fptr) < |chain| && clust == chain[ClusterIdx(g, fptr)]
    ensures var k := SDiv(fptr, g.ss);
            && 0 <= k < Span(g, chain) && g.ClustToSect(clust) != 0 && 0 <= CMod(k, g.csize)
            && g.ClustToSect(clust) + CMod(k, g.csize) == SectorNo(g, chain, k)
            && g.InData(SectorNo(g, chain, k)) && Own(g, others, SectorNo(g, chain, k))
            && 0 < SectorNo(g, chain, k) < 0xFFFF_FFFF
  {
    ByteInChain(g, chain, fptr);
    LinkedSector(g, t, others, chain, sclust, SDiv(fptr, g.ss));
    SectorPlace(g, chain, SDiv(fptr, g.ss));
  }

  /** The table was made before the file had its first cluster. */
  ghost predicate MapMisses(fp: Fil)
    reads fp`cltbl, fp`chain, fp.cltbl
  {
    fp.Mapped([]) && fp.chain != []
  }

  /** The chain that the table maps. */
  lemma MappedChain(fp: Fil) returns (s: Chain)
    requires fp.MapReads() && fp.cltbl != null
    ensures fp.Mapped(s) && (MapMisses(fp) <==> s == [] && fp.chain != [])
    ensures |fp.chain| <= 1 || fp.chain <= s
    ensures fp.MapSeeks() <==> MapMisses(fp) || fp.chain <= s
    ensures Maps(fp.cltbl[..], s) && forall i :: 0 <= i < |s| ==> s[i] < 0x1_0000_0000
  {
    hide Maps;
    s :| fp.Mapped(s) && (|fp.chain| <= 1 || fp.chain <= s);
    if fp.Mapped([]) { OneMapped(fp, s, []); }
    if fp.MapSeeks() {
      var r :| fp.Mapped(r) && (fp.chain <= r || (r == [] && |fp.chain| <= 1));
      OneMapped(fp, s, r);
    }
  }

  /** The cluster f_read and f_lseek find by following the chain. */
  method FollowChain(fp: Fil) returns (clst: dword)
    requires fp.Base() && fp.Cursor() && fp.MapReads()
    requires SMod(fp.fptr, fp.fs.g.ss) == 0 && CMod(SDiv(fp.fptr, fp.fs.g.ss), fp.fs.g.csize) == 0
    requires fp.fptr < Capacity(fp.fs.g, fp.chain)
    modifies fp.fs`winsect, fp.fs`wflag, fp.fs.drive, fp.fs.win
    ensures SameDisk(fp.fs)
    ensures clst != DISK_ERROR ==>
      && fp.Base() && fp.Sectors() == old(fp.Sectors())
      && 0 <= ClusterIdx(fp.fs.g, fp.fptr) < |fp.chain| && clst == fp.chain[ClusterIdx(fp.fs.g, fp.fptr)]
      && fp.fs.g.IsCluster(clst)
    ensures clst == DISK_ERROR ==> !fp.fs.drive.reliable
  {
    hide Geometry.WellFormed, FatBytes, TableOf, Overlay, Mirrored, Wrote, MediumOk, Fatfs.Valid, Fatfs.Logical,
      Fatfs.CopiesAgree, View, Linked, SectorNo, Span, Capacity, SDiv, SMod, CDiv, CMod, SMul, CMul, Maps, Own;
    ghost var g, t := fp.fs.g, fp.fs.Table();
    ByteInChain(g, fp.chain, fp.fptr);
    LinkedNext(g, t, fp.others, fp.chain, fp.sclust, ClusterIdx(g, fp.fptr));
    if fp.fptr == 0 {
      StartOfFile(g);
      LinkedHead(g, t, fp.others, fp.chain, fp.sclust);
      clst := fp.sclust;
      WroteNothing(fp.fs.drive.history, g, {fp.fs.Fat()});
    } else {
      EnterSector(g, fp.fptr);
      if fp.cltbl != null {
        ghost var s := MappedChain(fp);
        clst := ClmtClust(fp.cltbl, CDiv(SDiv(fp.fptr, fp.fs.g.ss), fp.fs.g.csize), s);
        WroteNothing(fp.fs.drive.history, g, {fp.fs.Fat()});
      } else {
        LinkedNext(g, t, fp.others, fp.chain, fp.sclust, ClusterIdx(g, fp.fptr - 1));
        clst := GetFat(fp.fs, fp.clust);
        if clst != DISK_ERROR { FatNotOwn(g, fp.others, fp.fs.winsect); }
      }
    }
  }

  lemma StartOfFile(g: Geometry)
    requires SectorSize(g.ss) && ClusterSize(g.csize)
    ensures ClusterIdx(g, 0) == 0 && SDiv(0, g.ss) == 0
  {
  }

  /** At a sector boundary: the sector to transfer, and its place in the cluster. */
  method SectorToRead(fp: Fil) returns (res: FResult, sect: dword, csect: nat)
    requires fp.Base() && fp.Cursor() && fp.MapReads()
    requires SMod(fp.fptr, fp.fs.g.ss) == 0 && fp.fptr < Capacity(fp.fs.g, fp.chain)
    modifies fp`clust, fp.fs`winsect, fp.fs`wflag, fp.fs.drive, fp.fs.win
    ensures SameDisk(fp.fs)
    ensures res != FrOk ==> !fp.fs.drive.reliable
    ensures res == FrOk ==>
      && fp.Base() && fp.Sectors() == old(fp.Sectors())
      && AtSectorOf(fp, sect) && csect == CMod(SDiv(fp.fptr, fp.fs.g.ss), fp.fs.g.csize) < fp.fs.g.csize
  {
    hide Geometry.WellFormed, FatBytes, TableOf, Overlay, Mirrored, Wrote, MediumOk, Fatfs.Valid, Fatfs.Logical,
      Fatfs.CopiesAgree, View, Linked, SectorNo, Span, Capacity, ClusterIdx, SDiv, SMod, CDiv, SMul, CMul, Maps, Own;
    ghost var g, t := fp.fs.g, fp.fs.Table();
    res, sect := FrOk, 0;
    csect := CMod(SDiv(fp.fptr, fp.fs.g.ss), fp.fs.g.csize);
    ByteInChain(g, fp.chain, fp.fptr);
    if csect == 0 {
      var clst := FollowChain(fp);
      if clst == DISK_ERROR { res := FrDiskErr; return; }
      fp.clust := clst;
    } else {
      if fp.fptr == 0 { StartOfFile(g); }
      EnterSector(g, fp.fptr);
      WroteNothing(fp.fs.drive.history, g, {fp.fs.Fat()});
    }
    SectorFromCluster(g, t, fp.others, fp.chain, fp.sclust, fp.fptr, fp.clust);
    sect := fp.fs.g.ClustToSect(fp.clust);
    sect := sect + csect;
  }

  /** clust and sect are the cluster and the disk sector of the byte at the file pointer. */
  ghost predicate AtSectorOf(fp: Fil, sect: int)
    requires fp.Shell()
    reads fp`fptr, fp`clust, fp`dirty, fp`sclust, fp`dsect, fp`chain, fp`others, fp.buf,
          fp.fs`winsect, fp.fs`wflag, fp.fs.drive, fp.fs.win
  {
    var g, k := fp.fs.g, SDiv(fp.fptr, fp.fs.g.ss);
    && 0 <= k < Span(g, fp.chain) && 0 <= ClusterIdx(g, fp.fptr) < |fp.chain|
    && fp.clust == fp.chain[ClusterIdx(g, fp.fptr)]
    && sect == SectorNo(g, fp.chain, k) && g.InData(sect) && Own(g, fp.others, sect)
  }

  /** Write the buffer back if it is dirty. */
  method FlushBuffer(fp: Fil) returns (ok: bool)
    requires fp.Base()
    modifies fp`dirty, fp.fs.drive
    ensures ok ==> fp.Base() && !fp.dirty && fp.Sectors() == old(fp.Sectors())
    ensures ok ==> OthersKept(fp)
    ensures Promises(fp.fs) && fp.fs.Table() == old(fp.fs.Table())
    ensures fp.fs.drive.reliable ==> ok
  {
    hide Untouched, Geometry.WellFormed, FatBytes, TableOf, Overlay, Mirrored, MediumOk, Fatfs.Valid, Fatfs.Logical,
      Fatfs.CopiesAgree, View, Linked, SectorNo, Span, CountOk, WriteOrderOk;
    ok := true;
    if fp.dirty {
      ok := WriteData(fp.fs, fp.buf, fp.dsect);
      if ok {
        WriteBackKeepsView(fp.fs.g, fp.chain, old(fp.fs.Logical()), fp.dsect, fp.buf[..]);
        UntouchedStore(fp.fs.g, fp.others, fp.chain, old(fp.fs.Logical()), fp.dsect, fp.buf[..]);
        fp.dirty := false;
      }
    } else {
      NothingTouched(fp);
    }
  }

  lemma RunNumbers(g: Geometry, sect: int, cc: int)
    requires g.WellFormed() && 0 < cc && g.InData(sect) && g.InData(sect + cc - 1)
    ensures 0 < sect && sect + cc <= 0xFFFF_FFFF
  {
  }

  lemma OwnInRun(g: Geometry, t: Table, others: set<Chain>, chain: Chain, sclust: int, k: int, cc: int, s: int)
    requires g.WellFormed() && Linked(g, t, others, chain, sclust)
    requires 0 <= k < Span(g, chain) && 0 < cc && CMod(k, g.csize) + cc <= g.csize
    requires SectorNo(g, chain, k) <= s < SectorNo(g, chain, k) + cc
    ensures Own(g, others, s)
  {
    RunPlace(g, chain, k, cc);
    hide Linked, Geometry.WellFormed, SectorNo, Span, Own, Geometry.InData, CMod;
    var j := k + (s - SectorNo(g, chain, k));
    assert SectorNo(g, chain, j) == s;
    LinkedSector(g, t, others, chain, sclust, j);
  }

  /** The sectors of a run inside one cluster are the file's own, so the window holds none of them. */
  lemma RunIsClear(g: Geometry, t: Table, others: set<Chain>, chain: Chain, sclust: int, k: int, cc: int)
    requires g.WellFormed() && Linked(g, t, others, chain, sclust)
    requires 0 <= k < Span(g, chain) && 0 < cc && CMod(k, g.csize) + cc <= g.csize
    ensures var sect := SectorNo(g, chain, k);
            && k + cc <= Span(g, chain) && 0 < sect && sect + cc <= 0xFFFF_FFFF
            && g.InData(sect) && g.InData(sect + cc - 1)
            && (forall j :: k <= j < k + cc ==> SectorNo(g, chain, j) == sect + (j - k))
            && (forall s :: sect <= s < sect + cc ==> Own(g, others, s))
  {
    RunPlace(g, chain, k, cc);
    RunNumbers(g, SectorNo(g, chain, k), cc);
    hide *;
    forall s | SectorNo(g, chain, k) <= s < SectorNo(g, chain, k) + cc ensures Own(g, others, s) {
      OwnInRun(g, t, others, chain, sclust, k, cc, s);
    }
  }

  /** Buffer b holds, from ofs on, the len bytes of the file that start at byte p. */
  ghost predicate Shows(b: seq<byte>, ofs: int, v: seq<Sector>, ss: int, p: int, len: int)
    requires SectorSize(ss) && forall k :: 0 <= k < |v| ==> |v[k]| == ss
  {
    && 0 <= ofs && 0 <= p && 0 <= len && ofs + len <= |b| && p + len <= SMul(|v|, ss)
    && forall i :: ofs <= i < ofs + len ==> b[i] == At(v, ss, p + (i - ofs))
  }

  /** The bytes that a transfer of cc disk sectors from d leaves in b. */
  ghost predicate Transferred(b: seq<byte>, ofs: int, d: Medium, ss: int, sect: int, cc: int)
    requires SectorSize(ss) && forall s :: 0 <= s < |d| ==> |d[s]| == ss
  {
    && 0 <= ofs && 0 < cc && ofs + SMul(cc, ss) <= |b| && 0 <= sect && sect + cc <= |d|
    && forall i :: ofs <= i < ofs + SMul(cc, ss) ==>
         0 <= SDiv(i - ofs, ss) < cc && 0 <= SMod(i - ofs, ss) < ss
         && b[i] == d[sect + SDiv(i - ofs, ss)][SMod(i - ofs, ss)]
  }

  /** b with the buffered sector laid over the transferred ones, if it is dirty and among them. */
  ghost predicate Overlaid(b: seq<byte>, b': seq<byte>, ofs: int, ss: int, sect: int, cc: int,
                           dirty: bool, dsect: int, buf: Sector)
    requires SectorSize(ss)
  {
    if dirty && sect <= dsect < sect + cc then
      var from := ofs + SMul(dsect - sect, ss);
      0 <= from && from + ss <= |b| && b' == b[..from] + buf + b[from + ss..]
    else
      b' == b
  }

  lemma OverlaidByte(g: Geometry, chain: Chain, d: Medium, dirty: bool, dsect: int, buf: Sector,
                     b: seq<byte>, b': seq<byte>, ofs: int, k: int, cc: int, i: int)
    requires g.WellFormed() && SectorSize(g.ss) && ClusterSize(g.csize) && InRange(g, chain)
    requires g.DataEnd() <= |d| && (forall s :: 0 <= s < |d| ==> |d[s]| == g.ss) && |buf| == g.ss
    requires 0 <= k && 0 < cc && k + cc <= Span(g, chain) && ofs <= i < ofs + SMul(cc, g.ss)
    requires Transferred(b, ofs, d, g.ss, SectorNo(g, chain, k), cc)
    requires Overlaid(b, b', ofs, g.ss, SectorNo(g, chain, k), cc, dirty, dsect, buf)
    requires forall j :: k <= j < k + cc ==> SectorNo(g, chain, j) == SectorNo(g, chain, k) + (j - k)
    ensures var v := View(g, chain, d, dirty, dsect, buf);
            && i < |b'| && 0 <= SMul(k, g.ss) + (i - ofs) < SMul(|v|, g.ss)
            && (forall m :: 0 <= m < |v| ==> |v[m]| == g.ss)
            && b'[i] == At(v, g.ss, SMul(k, g.ss) + (i - ofs))
  {
    hide Geometry.WellFormed, SectorNo, Span, View, SMul, SDiv, SMod, CMul, At, Transferred, Overlaid,
      Geometry.DataEnd;
    var ss, sect, q := g.ss, SectorNo(g, chain, k), SDiv(i - ofs, g.ss);
    SectorsSized(g, chain, d, dirty, dsect, buf);
    TransferredByte(b, ofs, d, ss, sect, cc, i);
    ViewAt(g, chain, d, dirty, dsect, buf, k + q);
    RunEnds(k, cc, Span(g, chain), ss);
    AtSector(View(g, chain, d, dirty, dsect, buf), ss, k, i - ofs);
    OverlaidAt(b, b', ofs, ss, sect, cc, dirty, dsect, buf, i);
  }

  lemma TransferredByte(b: seq<byte>, ofs: int, d: Medium, ss: int, sect: int, cc: int, i: int)
    requires SectorSize(ss) && (forall s :: 0 <= s < |d| ==> |d[s]| == ss)
    requires Transferred(b, ofs, d, ss, sect, cc) && ofs <= i < ofs + SMul(cc, ss)
    ensures 0 <= ofs && ofs + SMul(cc, ss) <= |b| && 0 <= sect && sect + cc <= |d|
    ensures 0 <= SDiv(i - ofs, ss) < cc && 0 <= SMod(i - ofs, ss) < ss
    ensures b[i] == d[sect + SDiv(i - ofs, ss)][SMod(i - ofs, ss)]
  {
    hide SMul, SDiv, SMod;
    var x := b[i];
  }

  lemma OverlaidAt(b: seq<byte>, b': seq<byte>, ofs: int, ss: int, sect: int, cc: int,
                   dirty: bool, dsect: int, buf: Sector, i: int)
    requires SectorSize(ss) && |buf| == ss && 0 <= ofs <= i < ofs + SMul(cc, ss) <= |b|
    requires 0 <= SDiv(i - ofs, ss) < cc && 0 <= SMod(i - ofs, ss) < ss
    requires Overlaid(b, b', ofs, ss, sect, cc, dirty, dsect, buf)
    ensures |b'| == |b|
    ensures b'[i] == if dirty && dsect == sect + SDiv(i - ofs, ss) then buf[SMod(i - ofs, ss)] else b[i]
  {
    hide SMul, SDiv, SMod;
    RunHit(i - ofs, dsect - sect, ss);
    if dirty && sect <= dsect < sect + cc {
      var from := ofs + SMul(dsect - sect, ss);
      if from <= i < from + ss {
        assert b'[i] == buf[i - from];
      }
    }
  }

  /** A direct read shows the file, whatever the buffer holds. */
  lemma OverlaidRun(g: Geometry, t: Table, others: set<Chain>, chain: Chain, sclust: int, d: Medium,
                    dirty: bool, dsect: int, buf: Sector, b: seq<byte>, b': seq<byte>, ofs: int, k: int, cc: int)
    requires g.WellFormed() && SectorSize(g.ss) && ClusterSize(g.csize) && Linked(g, t, others, chain, sclust)
    requires InRange(g, chain) && g.DataEnd() <= |d| && (forall s :: 0 <= s < |d| ==> |d[s]| == g.ss) && |buf| == g.ss
    requires 0 <= k < Span(g, chain) && 0 < cc && CMod(k, g.csize) + cc <= g.csize
    requires Transferred(b, ofs, d, g.ss, SectorNo(g, chain, k), cc)
    requires Overlaid(b, b', ofs, g.ss, SectorNo(g, chain, k), cc, dirty, dsect, buf)
    ensures var v := View(g, chain, d, dirty, dsect, buf);
            && (forall m :: 0 <= m < |v| ==> |v[m]| == g.ss)
            && Shows(b', ofs, v, g.ss, SMul(k, g.ss), SMul(cc, g.ss))
  {
    hide Geometry.WellFormed, Linked, SectorNo, Span, View, SMul, SDiv, SMod, CMul, CMod, At, Transferred, Overlaid,
      Own, Geometry.InData, Geometry.DataEnd;
    var v, ss := View(g, chain, d, dirty, dsect, buf), g.ss;
    RunIsClear(g, t, others, chain, sclust, k, cc);
    SectorsSized(g, chain, d, dirty, dsect, buf);
    RunEnds(k, cc, Span(g, chain), ss);
    OverlaidFits(b, b', ofs, d, ss, SectorNo(g, chain, k), cc, dirty, dsect, buf);
    forall i | ofs <= i < ofs + SMul(cc, ss) ensures b'[i] == At(v, ss, SMul(k, ss) + (i - ofs)) {
      OverlaidByte(g, chain, d, dirty, dsect, buf, b, b', ofs, k, cc, i);
    }
  }

  lemma SectorsSized(g: Geometry, chain: Chain, d: Medium, dirty: bool, dsect: int, buf: Sector)
    requires g.WellFormed() && InRange(g, chain) && g.DataEnd() <= |d|
    requires (forall s :: 0 <= s < |d| ==> |d[s]| == g.ss) && |buf| == g.ss
    ensures var v := View(g, chain, d, dirty, dsect, buf);
            |v| == Span(g, chain) && forall m :: 0 <= m < |v| ==> |v[m]| == g.ss
  {
    hide Geometry.WellFormed, SectorNo, Span;
  }

  lemma OverlaidFits(b: seq<byte>, b': seq<byte>, ofs: int, d: Medium, ss: int, sect: int, cc: int,
                     dirty: bool, dsect: int, buf: Sector)
    requires SectorSize(ss) && |buf| == ss && forall s :: 0 <= s < |d| ==> |d[s]| == ss
    requires Overlaid(b, b', ofs, ss, sect, cc, dirty, dsect, buf) && Transferred(b, ofs, d, ss, sect, cc)
    ensures |b'| == |b| && 0 <= ofs && ofs + SMul(cc, ss) <= |b|
  {
    hide SMul, SDiv, SMod;
  }

  lemma RunBytes(cc: int, ss: int)
    requires SectorSize(ss)
    ensures forall n :: 0 <= n < SMul(cc, ss) ==> 0 <= SDiv(n, ss) < cc && 0 <= SMod(n, ss) < ss
  {
    forall n | 0 <= n < SMul(cc, ss) ensures 0 <= SDiv(n, ss) < cc && 0 <= SMod(n, ss) < ss {
      RunByte(n, cc, ss);
    }
  }

  /** Transfer cc sectors from file sector k straight to the caller's buffer; a dirty sector among them is
      taken from the file's buffer. */
  method ReadDirect(fp: Fil, buff: array<byte>, ofs: nat, sect: dword, cc: nat, ghost k: nat) returns (ok: bool)
    requires fp.Base() && k < Span(fp.fs.g, fp.chain) && sect == SectorNo(fp.fs.g, fp.chain, k)
    requires 0 < cc && CMod(k, fp.fs.g.csize) + cc <= fp.fs.g.csize
    requires buff != fp.buf && buff != fp.fs.win && ofs + SMul(cc, fp.fs.g.ss) <= buff.Length
    modifies buff
    ensures ok ==> Shows(buff[..], ofs, fp.Sectors(), fp.fs.g.ss, SMul(k, fp.fs.g.ss), SMul(cc, fp.fs.g.ss))
    ensures forall i :: 0 <= i < buff.Length && !(ofs <= i < ofs + SMul(cc, fp.fs.g.ss)) ==> buff[i] == old(buff[i])
    ensures fp.fs.drive.reliable ==> ok
  {
    hide Geometry.WellFormed, FatBytes, TableOf, Overlay, Mirrored, Fatfs.Valid, Fatfs.Logical, Fatfs.CopiesAgree,
      Linked, SectorNo, Span, CMod, CDiv, CMul, Own, Geometry.InData, View, SMul, SDiv, SMod, Shows;
    ghost var g := fp.fs.g;
    RunIsClear(g, fp.fs.Table(), fp.others, fp.chain, fp.sclust, k, cc);
    ok := ReadDataRun(fp.fs, buff, ofs, sect, cc);
    if !ok { return; }
    ghost var b := buff[..];
    RunBytes(cc, fp.fs.g.ss);
    RunInMedium(fp.fs.Logical(), g, sect, cc);
    var at := Sub32(fp.dsect, sect);
    if fp.dirty && at < cc {
      RunFits(at, cc, fp.fs.g.ss);
      MemCpy(buff, ofs + SMul(at, fp.fs.g.ss), fp.buf, 0, fp.fs.g.ss);
    }
    OverlaidRun(g, fp.fs.Table(), fp.others, fp.chain, fp.sclust, fp.fs.Logical(), fp.dirty, fp.dsect, fp.buf[..],
                b, buff[..], ofs, k, cc);
  }

  lemma RunInMedium(d: Medium, g: Geometry, sect: int, cc: int)
    requires MediumOk(d, g) && 0 < cc && g.InData(sect) && g.InData(sect + cc - 1)
    ensures 0 < sect && sect + cc <= |d|
  {
  }

  lemma ViewAt(g: Geometry, chain: Chain, d: Medium, dirty: bool, dsect: int, b: Sector, k: int)
    requires g.WellFormed() && InRange(g, chain) && g.DataEnd() <= |d| && 0 <= k < Span(g, chain)
    ensures 0 <= SectorNo(g, chain, k) < |d|
    ensures View(g, chain, d, dirty, dsect, b)[k]
            == if dirty && dsect == SectorNo(g, chain, k) then b else d[SectorNo(g, chain, k)]
  {
    hide Geometry.WellFormed, SectorNo, Span;
    var v := View(g, chain, d, dirty, dsect, b);
    assert v[k] == v[k];
  }

  /** A clean buffer that holds its sector shows that sector of the file. */
  lemma CleanBuffer(g: Geometry, chain: Chain, d: Medium, dirty: bool, dsect: int, b: Sector, k: int)
    requires g.WellFormed() && InRange(g, chain) && g.DataEnd() <= |d| && 0 <= k < Span(g, chain)
    requires dsect == SectorNo(g, chain, k) && 0 <= dsect < |d| && (!dirty ==> b == d[dsect])
    ensures View(g, chain, d, dirty, dsect, b)[k] == b
  {
    hide Geometry.WellFormed, SectorNo, Span;
    ViewAt(g, chain, d, dirty, dsect, b, k);
  }

  /** Bring file sector k, disk sector sect, into the buffer. */
  method LoadSector(fp: Fil, sect: dword, ghost k: nat) returns (ok: bool)
    requires fp.Base() && k < Span(fp.fs.g, fp.chain) && sect == SectorNo(fp.fs.g, fp.chain, k)
    modifies fp`dirty, fp`dsect, fp.buf, fp.fs.drive
    ensures ok ==> fp.Base() && fp.Sectors() == old(fp.Sectors())
    ensures ok ==> OthersKept(fp)
    ensures ok ==> fp.dsect == sect && fp.buf[..] == fp.Sectors()[k]
    ensures Promises(fp.fs) && fp.fs.Table() == old(fp.fs.Table())
    ensures fp.fs.drive.reliable ==> ok
  {
    hide Untouched, Geometry.WellFormed, FatBytes, TableOf, Overlay, Mirrored, MediumOk, Fatfs.Valid, Fatfs.Logical,
      Fatfs.CopiesAgree, View, Linked, SectorNo, Span, CountOk, WriteOrderOk, Own, CMod, Geometry.InData;
    ghost var g := fp.fs.g;
    OneSector(g, k);
    RunIsClear(g, fp.fs.Table(), fp.others, fp.chain, fp.sclust, k, 1);
    if fp.dsect != sect {
      ok := FlushBuffer(fp);
      if !ok { return; }
      ok := ReadData(fp.fs, fp.buf, sect);
      if !ok { return; }
      CleanView(g, fp.chain, fp.fs.Logical(), fp.dsect, old(fp.buf[..]), sect, fp.buf[..]);
    } else {
      NothingTouched(fp);
    }
    ok := true;
    fp.dsect := sect;
    CleanBuffer(g, fp.chain, fp.fs.Logical(), fp.dirty, sect, fp.buf[..], k);
  }

  lemma OneSector(g: Geometry, k: int)
    requires ClusterSize(g.csize)
    ensures 0 <= CMod(k, g.csize) && CMod(k, g.csize) + 1 <= g.csize
  {
  }

  /** Bytes copied out of the buffered sector show the file. */
  lemma CopiedOut(v: seq<Sector>, ss: int, fptr: int, b: seq<byte>, b': seq<byte>, ofs: int, n: int, buf: Sector)
    requires SectorSize(ss) && (forall k :: 0 <= k < |v| ==> |v[k]| == ss) && |buf| == ss
    requires 0 <= fptr && 0 <= SDiv(fptr, ss) < |v| && buf == v[SDiv(fptr, ss)]
    requires 0 <= ofs && 0 < n && SMod(fptr, ss) + n <= ss && ofs + n <= |b| && 0 <= SMod(fptr, ss)
    requires b' == b[..ofs] + buf[SMod(fptr, ss)..SMod(fptr, ss) + n] + b[ofs + n..]
    ensures Shows(b', ofs, v, ss, fptr, n)
  {
    hide SMul, SDiv, SMod, At;
    var k, off := SDiv(fptr, ss), SMod(fptr, ss);
    SectorSplit(fptr, ss);
    AtInSector(v, ss, k, off + n - 1);
    forall i | ofs <= i < ofs + n ensures b'[i] == At(v, ss, fptr + (i - ofs)) {
      AtInSector(v, ss, k, off + (i - ofs));
    }
  }

  /** What one step of a transfer leaves of the file object and the volume. */
  twostate predicate SameFile(fp: Fil)
    reads fp, fp.buf, fp.fs`winsect, fp.fs`wflag, fp.fs`freeClust, fp.fs.drive, fp.fs.win
  {
    && old(fp.Base()) && fp.Base() && fp.Sectors() == old(fp.Sectors())
    && fp.chain == old(fp.chain) && fp.others == old(fp.others) && fp.sclust == old(fp.sclust)
    && fp.fsize == old(fp.fsize)
    && fp.fs.Table() == old(fp.fs.Table()) && Promises(fp.fs) && OthersKept(fp)
  }

  /** At a sector boundary: transfer whole sectors directly (done > 0), or load the sector. */
  method ReadAligned(fp: Fil, buff: array<byte>, ofs: nat, btr: dword) returns (res: FResult, done: nat)
    requires fp.Base() && fp.Cursor() && fp.MapReads()
    requires SMod(fp.fptr, fp.fs.g.ss) == 0 && 0 < btr && fp.fptr + btr <= Capacity(fp.fs.g, fp.chain)
    requires buff != fp.buf && buff != fp.fs.win && ofs + btr <= buff.Length
    modifies fp`clust, fp`dirty, fp`dsect, fp.buf, fp.fs`winsect, fp.fs`wflag, fp.fs.drive, fp.fs.win, buff
    ensures res != FrOk ==> !fp.fs.drive.reliable
    ensures res == FrOk ==> SameFile(fp) && done <= btr && 0 <= SDiv(fp.fptr, fp.fs.g.ss) < |fp.Sectors()|
    ensures res == FrOk && done > 0 ==>
      && Shows(buff[..], ofs, fp.Sectors(), fp.fs.g.ss, fp.fptr, done)
      && CursorOk(fp.fs.g, fp.chain, fp.fptr + done, fp.clust, fp.dsect)
    ensures res == FrOk && done == 0 ==>
      && fp.buf[..] == fp.Sectors()[SDiv(fp.fptr, fp.fs.g.ss)] && AtSectorOf(fp, fp.dsect)
    ensures forall i :: 0 <= i < buff.Length && !(ofs <= i < ofs + done) && res == FrOk ==> buff[i] == old(buff[i])
  {
    hide Untouched, Geometry.WellFormed, FatBytes, TableOf, Overlay, Mirrored, Wrote, MediumOk, Fatfs.Valid,
      Fatfs.Logical, Fatfs.CopiesAgree, View, Linked, SectorNo, Span, CMod, CDiv, CMul, Own, Geometry.InData, Maps,
      SMul, SDiv, SMod, Shows, Capacity, ClusterIdx, CountOk, WriteOrderOk;
    ghost var g, v := fp.fs.g, fp.Sectors();
    ghost var k := SDiv(fp.fptr, g.ss);
    done := 0;
    var sect, csect;
    res, sect, csect := SectorToRead(fp);
    if res != FrOk { return; }
    SameDiskPromises(fp.fs);
    var cc := SDiv(btr, fp.fs.g.ss);
    DirectCount(btr, fp.fs.g.ss);
    if cc > 0 {
      if csect + cc > fp.fs.g.csize { cc := fp.fs.g.csize - csect; }
      AlignedStep(g, fp.fptr, btr, cc);
      var ok := ReadDirect(fp, buff, ofs, sect, cc, k);
      if !ok { res := FrDiskErr; return; }
      NothingTouched(fp);
      done := SMul(cc, fp.fs.g.ss);
      AdvanceAligned(g, fp.chain, fp.fptr, cc, fp.clust, fp.dsect);
      return;
    }
    var ok := LoadSector(fp, sect, k);
    if !ok { res := FrDiskErr; }
  }

  lemma DirectCount(n: int, ss: int)
    requires SectorSize(ss) && 0 < n
    ensures 0 <= SDiv(n, ss) && (SDiv(n, ss) > 0 ==> SMul(SDiv(n, ss), ss) <= n) && (SDiv(n, ss) == 0 ==> n < ss)
  {
  }

  lemma AlignedStep(g: Geometry, fptr: int, n: int, cc: int)
    requires SectorSize(g.ss) && SMod(fptr, g.ss) == 0 && 0 < cc <= SDiv(n, g.ss)
    ensures 0 < SMul(cc, g.ss) <= n && fptr == SMul(SDiv(fptr, g.ss), g.ss)
  {
  }

  lemma AdvanceAligned(g: Geometry, chain: Chain, fptr: int, cc: int, clust: int, dsect: int)
    requires SectorSize(g.ss) && ClusterSize(g.csize) && 0 <= fptr && 0 < cc && SMod(fptr, g.ss) == 0
    requires CMod(SDiv(fptr, g.ss), g.csize) + cc <= g.csize
    requires 0 <= SDiv(fptr, g.ss) < Span(g, chain)
    requires 0 <= ClusterIdx(g, fptr) < |chain| && clust == chain[ClusterIdx(g, fptr)]
    ensures CursorOk(g, chain, fptr + SMul(cc, g.ss), clust, dsect)
    ensures ClusterIdx(g, fptr + SMul(cc, g.ss) - 1) == ClusterIdx(g, fptr)
  {
    hide SMul, SDiv, SMod, CDiv, CMod, CMul, Span, ClusterIdx, CursorOk;
    SectorSplit(fptr, g.ss);
    RunEnds(SDiv(fptr, g.ss), cc, SDiv(fptr, g.ss) + cc, g.ss);
    SectorSplitUnique(fptr + SMul(cc, g.ss), g.ss, SDiv(fptr, g.ss) + cc, 0);
    RunFits(0, cc, g.ss);
    Advance(g, chain, fptr, SMul(cc, g.ss), cc, clust, dsect);
  }

  /** Inside a sector the buffer already holds it. */
  lemma BufferedSector(fp: Fil)
    requires fp.Base() && fp.Cursor() && SMod(fp.fptr, fp.fs.g.ss) != 0
    ensures var k := SDiv(fp.fptr, fp.fs.g.ss);
            && 0 <= k < |fp.Sectors()| && fp.buf[..] == fp.Sectors()[k] && AtSectorOf(fp, fp.dsect)
  {
    hide FatBytes, TableOf, Overlay, Mirrored, Fatfs.Valid, Fatfs.Logical, View, Linked, SectorNo, Span, Own, Maps;
    var g, k := fp.fs.g, SDiv(fp.fptr, fp.fs.g.ss);
    InsideSector(g, fp.fptr);
    LinkedSector(g, fp.fs.Table(), fp.others, fp.chain, fp.sclust, k);
    OwnIsData(g, fp.others, fp.dsect);
    hide Geometry.WellFormed;
    CleanBuffer(g, fp.chain, fp.fs.Logical(), fp.dirty, fp.dsect, fp.buf[..], k);
  }

  lemma InsideSector(g: Geometry, fptr: int)
    requires SectorSize(g.ss) && ClusterSize(g.csize) && 0 <= fptr && SMod(fptr, g.ss) != 0
    ensures fptr > 0 && ClusterIdx(g, fptr) == ClusterIdx(g, fptr - 1) && 0 <= SDiv(fptr, g.ss)
  {
    SectorSplit(fptr, g.ss);
    SectorSplitUnique(fptr - 1, g.ss, SDiv(fptr, g.ss), SMod(fptr, g.ss) - 1);
  }

  lemma OwnIsData(g: Geometry, others: set<Chain>, s: int)
    requires g.WellFormed() && Own(g, others, s)
    ensures 0 < s < 0xFFFF_FFFF && g.InData(s)
  {
  }

  /** Advancing inside one sector. */
  lemma AdvanceInside(g: Geometry, chain: Chain, fptr: int, n: int, clust: int, dsect: int)
    requires SectorSize(g.ss) && ClusterSize(g.csize) && 0 <= fptr && 0 < n && SMod(fptr, g.ss) + n <= g.ss
    requires 0 <= SDiv(fptr, g.ss) < Span(g, chain) && dsect == SectorNo(g, chain, SDiv(fptr, g.ss))
    requires 0 <= ClusterIdx(g, fptr) < |chain| && clust == chain[ClusterIdx(g, fptr)]
    ensures CursorOk(g, chain, fptr + n, clust, dsect) && ClusterIdx(g, fptr + n - 1) == ClusterIdx(g, fptr)
  {
    hide SMul, SDiv, SMod, CDiv, CMod, CMul, Span, ClusterIdx, CursorOk, SectorNo;
    SectorSplit(fptr, g.ss);
    MulStep(SDiv(fptr, g.ss), SDiv(fptr, g.ss) + 1, g.ss);
    OneSector(g, SDiv(fptr, g.ss));
    Advance(g, chain, fptr, n, 1, clust, dsect);
  }

  lemma InSector(fptr: int, ss: int)
    requires SectorSize(ss) && 0 <= fptr
    ensures 0 <= SMod(fptr, ss) < ss
  {
  }

  /** Pick the rest of the buffered sector, at most btr bytes. */
  method CopyOut(fp: Fil, buff: array<byte>, ofs: nat, btr: dword) returns (rcnt: nat)
    requires fp.Base() && 0 < btr && AtSectorOf(fp, fp.dsect) && 0 <= SDiv(fp.fptr, fp.fs.g.ss) < |fp.Sectors()|
    requires fp.buf[..] == fp.Sectors()[SDiv(fp.fptr, fp.fs.g.ss)]
    requires buff != fp.buf && buff != fp.fs.win && ofs + btr <= buff.Length
    modifies buff
    ensures 0 < rcnt <= btr
    ensures Shows(buff[..], ofs, fp.Sectors(), fp.fs.g.ss, fp.fptr, rcnt)
    ensures CursorOk(fp.fs.g, fp.chain, fp.fptr + rcnt, fp.clust, fp.dsect)
    ensures forall i :: 0 <= i < buff.Length && !(ofs <= i < ofs + rcnt) ==> buff[i] == old(buff[i])
  {
    hide Geometry.WellFormed, FatBytes, TableOf, Overlay, Mirrored, Wrote, MediumOk, Fatfs.Valid, Fatfs.Logical,
      Fatfs.CopiesAgree, View, Linked, SectorNo, CMod, CDiv, CMul, Own, Geometry.InData, SMul, SDiv, SMod, Shows,
      ClusterIdx, CursorOk;
    InSector(fp.fptr, fp.fs.g.ss);
    rcnt := fp.fs.g.ss - SMod(fp.fptr, fp.fs.g.ss);
    if rcnt > btr { rcnt := btr; }
    ghost var b := buff[..];
    MemCpy(buff, ofs, fp.buf, SMod(fp.fptr, fp.fs.g.ss), rcnt);
    CopiedOut(fp.Sectors(), fp.fs.g.ss, fp.fptr, b, buff[..], ofs, rcnt, fp.buf[..]);
    AdvanceInside(fp.fs.g, fp.chain, fp.fptr, rcnt, fp.clust, fp.dsect);
  }

  /** One round of the read loop: rcnt bytes at the file pointer, up to btr, into the caller's buffer. */
  method ReadStep(fp: Fil, buff: array<byte>, ofs: nat, btr: dword) returns (res: FResult, rcnt: nat)
    requires fp.Base() && fp.Cursor() && fp.MapReads()
    requires 0 < btr && fp.fptr + btr <= Capacity(fp.fs.g, fp.chain)
    requires buff != fp.buf && buff != fp.fs.win && ofs + btr <= buff.Length
    modifies fp`clust, fp`dirty, fp`dsect, fp.buf, fp.fs`winsect, fp.fs`wflag, fp.fs.drive, fp.fs.win, buff
    ensures res != FrOk ==> !fp.fs.drive.reliable
    ensures res == FrOk ==>
      && SameFile(fp) && 0 < rcnt <= btr
      && Shows(buff[..], ofs, fp.Sectors(), fp.fs.g.ss, fp.fptr, rcnt)
      && CursorOk(fp.fs.g, fp.chain, fp.fptr + rcnt, fp.clust, fp.dsect)
    ensures forall i :: 0 <= i < buff.Length && !(ofs <= i < ofs + rcnt) && res == FrOk ==> buff[i] == old(buff[i])
  {
    hide Fil.MapReads, Fil.Mapped, Untouched, Geometry.WellFormed, FatBytes, TableOf, Overlay, Mirrored, Wrote,
      MediumOk, Fatfs.Valid, Fatfs.Logical, Fatfs.CopiesAgree, View, Linked, SectorNo, CMod, CDiv, CMul, Own,
      Geometry.InData, Maps, SMul, SDiv, SMod, Shows, Capacity, ClusterIdx, CursorOk, CountOk, WriteOrderOk;
    res, rcnt := FrOk, 0;
    ghost var g := fp.fs.g;
    if SMod(fp.fptr, fp.fs.g.ss) == 0 {
      res, rcnt := ReadAligned(fp, buff, ofs, btr);
      if res != FrOk || rcnt > 0 { return; }
    } else {
      BufferedSector(fp);
      NothingMoved(fp.fs);
      NothingTouched(fp);
    }
    rcnt := CopyOut(fp, buff, ofs, btr);
  }

  /** The whole transfer so far: done bytes from pointer p on. */
  lemma ShowsMore(b: seq<byte>, b': seq<byte>, v: seq<Sector>, ss: int, p: int, done: int, n: int)
    requires SectorSize(ss) && forall k :: 0 <= k < |v| ==> |v[k]| == ss
    requires Shows(b, 0, v, ss, p, done) && Shows(b', done, v, ss, p + done, n) && |b'| == |b|
    requires forall i :: 0 <= i < |b| && !(done <= i < done + n) ==> b'[i] == b[i]
    ensures Shows(b', 0, v, ss, p, done + n)
  {
    hide At, SMul;
    forall i | 0 <= i < done + n ensures b'[i] == At(v, ss, p + i) {
      if i >= done { assert p + done + (i - done) == p + i; } else { assert b[i] == At(v, ss, p + (i - 0)); }
    }
  }

  lemma ShowsContent(b: seq<byte>, v: seq<Sector>, ss: int, p: int, n: int, size: nat)
    requires SectorSize(ss) && (forall k :: 0 <= k < |v| ==> |v[k]| == ss) && size <= SMul(|v|, ss)
    requires Shows(b, 0, v, ss, p, n) && p + n <= size
    ensures n <= |b| && b[..n] == Content(v, ss, size)[p..p + n]
  {
    hide At, SMul;
  }

  /** One round, and the pointer moved on. */
  method ReadRound(fp: Fil, buff: array<byte>, ofs: nat, btr: dword) returns (res: FResult, rcnt: nat)
    requires fp.Base() && fp.Cursor() && fp.MapReads()
    requires 0 < btr && fp.fptr + btr <= fp.fsize <= Capacity(fp.fs.g, fp.chain)
    requires buff != fp.buf && buff != fp.fs.win && (fp.cltbl as object?) != buff && ofs + btr <= buff.Length
    modifies fp`fptr, fp`clust, fp`dirty, fp`dsect, fp.buf, fp.fs`winsect, fp.fs`wflag, fp.fs.drive, fp.fs.win, buff
    ensures res != FrOk ==> !fp.fs.drive.reliable
    ensures res == FrOk ==>
      && fp.Base() && fp.Cursor() && fp.MapReads()
      && Extends(fp.fs.g, fp.fs.drive.reliable, old(SnapshotOf(fp)), SnapshotOf(fp))
      && fp.fs.Table() == old(fp.fs.Table()) && fp.Sectors() == old(fp.Sectors())
      && 0 < rcnt <= btr && fp.fptr == old(fp.fptr) + rcnt
      && Shows(buff[..], ofs, fp.Sectors(), fp.fs.g.ss, old(fp.fptr), rcnt)
    ensures forall i :: 0 <= i < buff.Length && !(ofs <= i < ofs + rcnt) && res == FrOk ==> buff[i] == old(buff[i])
  {
    hide SnapshotOf, Extends, OthersKept, Promises, Fil.Base, Fil.Shell, Fil.Sectors, Untouched, Geometry.WellFormed,
      FatBytes, TableOf, FreeCount, Overlay, Mirrored, Wrote, MediumOk, Fatfs.Valid, Fatfs.Logical,
      Fatfs.CopiesAgree, View, Linked, SectorNo, Span, CMod, CDiv, CMul, Own, Geometry.InData, Maps, SMul, SDiv,
      SMod, Shows, Capacity, ClusterIdx, CursorOk, CountOk, WriteOrderOk;
    res, rcnt := ReadStep(fp, buff, ofs, btr);
    if res != FrOk { return; }
    ExtendedIs(fp);
    fp.fptr := fp.fptr + rcnt;
  }

  /** The read loop: n bytes of the file at the pointer. */
  method ReadLoop(fp: Fil, buff: array<byte>, n: dword) returns (res: FResult, br: dword)
    requires fp.Base() && fp.Cursor() && fp.MapReads()
    requires fp.fptr + n <= fp.fsize <= Capacity(fp.fs.g, fp.chain)
    requires buff != fp.buf && buff != fp.fs.win && (fp.cltbl as object?) != buff && n <= buff.Length
    modifies fp`fptr, fp`clust, fp`dirty, fp`dsect, fp.buf, fp.fs`winsect, fp.fs`wflag, fp.fs.drive, fp.fs.win, buff
    ensures res != FrOk ==> !fp.fs.drive.reliable
    ensures res == FrOk ==>
      && Extended(fp) && fp.Cursor() && fp.MapReads() && br == n && fp.fptr == old(fp.fptr) + n
      && fp.fs.Table() == old(fp.fs.Table()) && fp.Sectors() == old(fp.Sectors())
      && Shows(buff[..], 0, fp.Sectors(), fp.fs.g.ss, old(fp.fptr), n)
    ensures forall i :: n <= i < buff.Length && res == FrOk ==> buff[i] == old(buff[i])
  {
    hide SnapshotOf, Extends, Extended, Fil.Cursor, Fil.MapReads, Fil.Base, Fil.Shell, Fil.Sectors, Untouched,
      Geometry.WellFormed, FatBytes, TableOf, FreeCount, Overlay, Mirrored, Wrote, MediumOk, Fatfs.Valid,
      Fatfs.Logical, Fatfs.CopiesAgree, View, Linked, SectorNo, Span, CMod, CDiv, CMul, Own, Geometry.InData, Maps,
      SMul, SDiv, SMod, Shows, Capacity, ClusterIdx, CursorOk, CountOk, WriteOrderOk;
    res, br := FrOk, 0;
    ghost var g, p, v, was := fp.fs.g, fp.fptr, fp.Sectors(), buff[..];
    ghost var start := SnapshotOf(fp);
    var left: dword := n;
    ExtendsSame(fp);
    ShowsNothing(buff[..], v, g, fp.chain, p);
    while left > 0
      invariant fp.Base() && fp.Cursor() && fp.MapReads() && res == FrOk
      invariant Extends(g, fp.fs.drive.reliable, start, SnapshotOf(fp))
      invariant fp.fs.Table() == old(fp.fs.Table()) && fp.Sectors() == v
      invariant fp.fptr == p + br && br + left == n
      invariant Shows(buff[..], 0, v, g.ss, p, br)
      invariant forall i :: br <= i < buff.Length ==> buff[i] == was[i]
    {
      ghost var b, shot := buff[..], SnapshotOf(fp);
      var rcnt;
      res, rcnt := ReadRound(fp, buff, br, left);
      if res != FrOk { return; }
      ExtendsAgain(g, fp.fs.drive.reliable, start, shot, SnapshotOf(fp));
      ShowsMore(b, buff[..], v, g.ss, p, br, rcnt);
      br := br + rcnt;
      left := left - rcnt;
    }
    ExtendedIs(fp);
  }

  /** Read up to btr bytes.  The result is exactly the bytes of the file at the pointer. */
  method FRead(fp: Fil, buff: array<byte>, btr: dword) returns (res: FResult, br: dword)
    requires fp.Placed() && fp.MapReads() && btr <= buff.Length
    requires buff != fp.buf && buff != fp.fs.win && (fp.cltbl as object?) != buff
    modifies fp`fptr, fp`clust, fp`dirty, fp`dsect, fp`err, fp.buf, buff,
             fp.fs`winsect, fp.fs`wflag, fp.fs.drive, fp.fs.win
    ensures old(fp.err) != FrOk ==> res == old(fp.err) && br == 0
    ensures old(fp.err) == FrOk && !fp.canRead ==> res == FrDenied && br == 0
    ensures old(fp.err) != FrOk || !fp.canRead ==> unchanged(fp, fp.buf, fp.fs, fp.fs.drive, fp.fs.win, buff)
    ensures old(fp.err) == FrOk && fp.canRead && fp.fs.drive.reliable ==> res == FrOk
    ensures old(fp.err) == FrOk && fp.canRead ==> fp.err == res
    ensures res == FrOk ==>
      && fp.Placed() && fp.MapReads() && fp.Bytes() == old(fp.Bytes()) && (old(fp.Valid()) ==> fp.Valid())
      && br == (if btr <= fp.fsize - old(fp.fptr) then btr else fp.fsize - old(fp.fptr))
      && fp.fptr == old(fp.fptr) + br
      && buff[..br] == fp.Bytes()[old(fp.fptr)..fp.fptr]
      && (forall i :: br <= i < buff.Length ==> buff[i] == old(buff[i]))
    ensures res == FrOk ==> fp.fs.Table() == old(fp.fs.Table()) && Promises(fp.fs) && OthersKept(fp) && fp.err == FrOk
  {
    hide OthersKept, Promises, Fil.Sectors, Fil.MapReads, Fil.Mapped, Untouched, Geometry.WellFormed, FatBytes,
      TableOf, FreeCount, Overlay, Mirrored, Wrote, MediumOk, Fatfs.Valid, Fatfs.Logical, Fatfs.CopiesAgree, View,
      Linked, SectorNo, Span, CMod, CDiv, CMul, Own, Geometry.InData, Maps, SMul, SDiv, SMod, Shows, Capacity,
      ClusterIdx, CursorOk, CountOk, WriteOrderOk;
    br := 0;
    if fp.err != FrOk { res := fp.err; return; }
    if !fp.canRead { res := FrDenied; return; }
    ghost var p, v := fp.fptr, fp.Sectors();
    var remain := fp.fsize - fp.fptr;
    var n: dword := btr;
    if n > remain { n := remain; }
    res, br := ReadLoop(fp, buff, n);
    if res != FrOk { fp.err := res; return; }
    CapacityBytes(fp.fs.g, fp.chain);
    ShowsContent(buff[..], v, fp.fs.g.ss, p, br, fp.fsize);
  }

  lemma ShowsNothing(b: seq<byte>, v: seq<Sector>, g: Geometry, chain: Chain, p: int)
    requires SectorSize(g.ss) && ClusterSize(g.csize) && |v| == Span(g, chain)
    requires (forall k :: 0 <= k < |v| ==> |v[k]| == g.ss) && 0 <= p <= Capacity(g, chain)
    ensures Shows(b, 0, v, g.ss, p, 0)
  {
  }
}
