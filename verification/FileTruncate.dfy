/** f_truncate. */
module FileTruncate {
  import opened Bytes
  import opened Units
  import opened Layout
  import opened Disk
  import opened PackedTable
  import opened FatTable
  import opened LogicalDisk
  import opened Volume
  import opened FatAccess
  import opened Chains
  import opened Allocation
  import opened ClusterOps
  import opened DataAccess
  import opened LinkMap
  import opened FileData
  import opened FileCursor
  import opened FileBytes
  import opened Files
  import opened FileFrame
  import opened FileRead
  import opened FileWrite
  import opened FileSeek

  // ---------- the table ----------

  /** The table after a chain has been cut to its first n clusters. */
  function CutTable(t: Table, chain: Chain, n: int, mark: nat): (r: Table)
    ensures |r| == |t|
  {
    if n >= |chain| then t
    else if n <= 0 then Zeroed(t, chain)
    else Zeroed(if chain[n - 1] < |t| then t[chain[n - 1] := mark] else t, chain[n..])
  }

  /** What is left is a prefix of the chain; all other chains stay. */
  lemma CutLinked(g: Geometry, t: Table, others: set<Chain>, chain: Chain, sclust: int, n: nat, mark: nat)
    requires Linked(g, t, others, chain, sclust) && n <= |chain| && mark >= |t|
    ensures Linked(g, CutTable(t, chain, n, mark), others, chain[..n], if n == 0 then 0 else sclust)
  {
    if n == |chain| {
      assert chain[..n] == chain;
    } else if n == 0 {
      assert chain[0..] == chain;
      FreeChain(t, others + {chain}, chain);
      assert others + {chain} - {chain} == others;
      EmptyNotIn(t, others + {chain});
    } else {
      CutChain(t, others + {chain}, chain, n, mark);
      assert others + {chain} - {chain} + {chain[..n]} == others + {chain[..n]};
      PrefixNotIn(t, others, chain, n);
      Members(CutTable(t, chain, n, mark), others + {chain[..n]});
    }
  }

  lemma EmptyNotIn(t: Table, cs: set<Chain>)
    requires Forest(t, cs)
    ensures [] !in cs
  {
    Members(t, cs);
  }

  lemma PrefixNotIn(t: Table, others: set<Chain>, chain: Chain, n: nat)
    requires Forest(t, others + {chain}) && chain !in others && 0 < n <= |chain|
    ensures chain[..n] !in others
  {
    var c, p := chain[0], chain[..n];
    assert c in chain && c in p;
    if p in others { Apart(t, others + {chain}, chain, p, c); }
  }

  /** Freeing the clusters of a chain adds exactly its length to the free count. */
  lemma ZeroedCount(t: Table, s: Chain)
    requires IsChain(t, s)
    ensures FreeCount(Zeroed(t, s)) == FreeCount(t) + |s|
  {
    forall i, j | 0 <= i < j < |s| ensures s[i] != s[j] { NoRepeat(t, s, i, j); }
    DistinctCount(s);
    forall c | c in s ensures 2 <= c < |t| && t[c] != 0 { ChainElementsUsed(t, s, c); }
    assert FreeSet(Zeroed(t, s)) == FreeSet(t) + Elements(s);
  }

  /** The clusters cut off are given back, one by one. */
  lemma CutCount(t: Table, chain: Chain, n: nat, mark: nat)
    requires IsChain(t, chain) && n <= |chain| && mark >= |t|
    ensures FreeCount(CutTable(t, chain, n, mark)) == FreeCount(t) + |chain| - n
  {
    if n == |chain| {
    } else if n == 0 {
      ZeroedCount(t, chain);
      assert chain[0..] == chain;
    } else {
      BackPart(t, chain, n, mark);
      ChainElementsUsed(t, chain, chain[n - 1]);
      RelinkOne(t, chain[n - 1], mark);
      ZeroedCount(t[chain[n - 1] := mark], chain[n..]);
    }
  }

  /** The end of a chain after its n-th cluster, ready to be removed. */
  lemma TailToRemove(g: Geometry, t: Table, others: set<Chain>, chain: Chain, sclust: int, n: nat, mark: nat)
    requires Linked(g, t, others, chain, sclust) && n < |chain| && mark >= |t|
    ensures 0 < n ==> chain[n - 1] < |t|
    ensures var u := if n == 0 then t else t[chain[n - 1] := mark];
            && g.IsCluster(chain[n]) && Detached(u, chain[n])
            && Removed(u, chain[n]) == (CutTable(t, chain, n, mark), FrOk)
    ensures NoLinkToFree(t) ==> 0 < n ==> NoLinkToFree(t[chain[n - 1] := mark])
  {
    var cs := others + {chain};
    if n == 0 {
      HeadDetached(t, cs, chain);
      RemovedIsZeroed(t, chain);
      assert chain[0..] == chain;
    } else {
      SplitChain(t, cs, chain, n, mark);
      var u, ds := t[chain[n - 1] := mark], cs - {chain} + {chain[..n], chain[n..]};
      HeadDetached(u, ds, chain[n..]);
      RemovedIsZeroed(u, chain[n..]);
      ForestIsSafe(u, ds);
    }
  }

  /** Cut the chain of a file to its first n clusters: all of it, or what follows clust. */
  method CutAfter(fs: Fatfs, all: bool, clust: dword, sclust: dword,
                  ghost n: nat, ghost others: set<Chain>, ghost chain: Chain)
    returns (res: FResult)
    requires fs.Valid() && Linked(fs.g, fs.Table(), others, chain, sclust) && chain != [] && n <= |chain|
    requires if all then n == 0 else 0 < n && chain[n - 1] == clust
    modifies fs, fs.drive, fs.win
    ensures fs.Valid()
    ensures res != FrOk ==> !fs.drive.reliable
    ensures res == FrOk ==>
      && fs.Table() == CutTable(old(fs.Table()), chain, n, Cut(fs.g.fsType, LAST_LINK))
      && SameOutsideFat(old(fs.Logical()), fs.Logical(), fs.g) && fs.g.InFat(fs.winsect) && Promises(fs)
  {
    hide Geometry.WellFormed, FatBytes, TableOf, FreeCount, Overlay, Mirrored, Wrote, MediumOk, Fatfs.Valid,
      Fatfs.Logical, Fatfs.CopiesAgree, Linked, Cut, NoLinkToFree, SafeHistory, Detached, Removed, CutTable, PutEntry,
      Fits;
    ghost var g, t, d, h := fs.g, fs.Table(), fs.Logical(), fs.drive.history;
    ghost var mark := Cut(g.fsType, LAST_LINK);
    MarkIsLast(g);
    if n < |chain| { TailToRemove(g, t, others, chain, sclust, n, mark); }
    CutLinked(g, t, others, chain, sclust, n, mark);
    LinkedHead(g, t, others, chain, sclust);
    if all {
      res := RemoveChain(fs, sclust);
    } else {
      LinkedNext(g, t, others, chain, sclust, n - 1);
      var ncl := GetFat(fs, clust);
      if ncl == DISK_ERROR { res := FrDiskErr; return; }
      SameDiskPromises(fs);
      res := FrOk;
      if n == |chain| { NothingCut(t, chain, mark); } else { RelinkOne(t, clust, mark); }
      if ncl < fs.g.nFatent {
        ghost var h1 := fs.drive.history;
        res := PutFat(fs, clust, LAST_LINK);
        if res != FrOk { return; }
        if g.fsType != Fat12 && old(WriteOrderOk(fs)) { StillSafe(h1, fs.drive.history, g, d, fs.since); }
        res := RemoveChain(fs, ncl);
      }
    }
  }

  lemma NothingCut(t: Table, chain: Chain, mark: nat)
    ensures CutTable(t, chain, |chain|, mark) == t && chain[..|chain|] == chain
  {
  }

  // ---------- the file ----------

  /** Number of clusters a truncation leaves. */
  function ClustersKept(g: Geometry, chain: Chain, fptr: int, fsize: int): (n: int)
    requires SectorSize(g.ss) && ClusterSize(g.csize)
  {
    if fsize <= fptr then |chain| else if fptr == 0 then 0 else ClusterIdx(g, fptr - 1) + 1
  }

  /** In plain numbers: as many clusters as the bytes up to the pointer need. */
  lemma KeptIsPlain(g: Geometry, chain: Chain, fptr: nat, fsize: int)
    requires SectorSize(g.ss) && ClusterSize(g.csize) && fptr < fsize
    ensures var n := ClustersKept(g, chain, fptr, fsize);
            n >= 0 && (n - 1) * (g.ss * g.csize) < fptr <= n * (g.ss * g.csize)
  {
    if fptr > 0 {
      var n, cb := ClustersKept(g, chain, fptr, fsize), g.ss * g.csize;
      ClusterIdxIsPlain(g, fptr - 1);
      assert cb > 0 by { ClustersHaveBytes(g.ss, g.csize); }
      hide SectorSize, ClusterSize, ClusterIdx, ClusterStart;
      InMultiple(fptr - 1, cb);
    } else {
      ClustersHaveBytes(g.ss, g.csize);
    }
  }

  lemma ClustersHaveBytes(ss: int, cs: int)
    requires SectorSize(ss) && ClusterSize(cs)
    ensures ss * cs > 0
  {
  }

  lemma InMultiple(x: nat, m: nat)
    requires m > 0
    ensures (x / m) * m <= x < (x / m + 1) * m
  {
  }

  /** The table after a truncation in plain numbers: the clusters cut off are free, the last one kept holds the end
      mark, and every other entry is as it was. */
  lemma CutIsPlain(g: Geometry, t: Table, others: set<Chain>, chain: Chain, sclust: int, n: nat, c: nat)
    requires Linked(g, t, others, chain, sclust) && n <= |chain| && c < |t|
    ensures CutTable(t, chain, n, Cut(g.fsType, LAST_LINK))[c] ==
            if c in chain[n..] then 0
            else if 0 < n < |chain| && c == chain[n - 1]
            then match g.fsType case Fat12 => 0xFFF case Fat16 => 0xFFFF case Fat32 => 0x0FFF_FFFF
            else t[c]
  {
    hide Linked;
    if 0 < n < |chain| {
      LinkedNext(g, t, others, chain, sclust, n - 1);
    } else if n == 0 {
      assert chain[0..] == chain;
    }
  }

  lemma AllCutIsPlain(g: Geometry, t: Table, others: set<Chain>, chain: Chain, sclust: int, n: nat)
    requires Linked(g, t, others, chain, sclust) && n <= |chain|
    ensures forall c :: 0 <= c < |t| ==>
              CutTable(t, chain, n, Cut(g.fsType, LAST_LINK))[c] ==
              if c in chain[n..] then 0
              else if 0 < n < |chain| && c == chain[n - 1]
              then match g.fsType case Fat12 => 0xFFF case Fat16 => 0xFFFF case Fat32 => 0x0FFF_FFFF
              else t[c]
  {
    hide Linked, CutTable, Cut;
    forall c: nat | c < |t|
      ensures CutTable(t, chain, n, Cut(g.fsType, LAST_LINK))[c] ==
              if c in chain[n..] then 0
              else if 0 < n < |chain| && c == chain[n - 1]
              then match g.fsType case Fat12 => 0xFFF case Fat16 => 0xFFFF case Fat32 => 0x0FFF_FFFF
              else t[c]
    {
      CutIsPlain(g, t, others, chain, sclust, n, c);
    }
  }

  lemma KeptFits(g: Geometry, chain: Chain, fptr: int, fsize: int, clust: int, dsect: int)
    requires SectorSize(g.ss) && ClusterSize(g.csize)
    requires CursorOk(g, chain, fptr, clust, dsect) && fptr < fsize <= Capacity(g, chain)
    ensures var n := ClustersKept(g, chain, fptr, fsize);
            && 0 <= n <= |chain| && chain != [] && (if fptr == 0 then n == 0 else 0 < n && chain[n - 1] == clust)
            && CursorOk(g, chain[..n], fptr, clust, dsect) && fptr <= Capacity(g, chain[..n])
  {
    hide CMul, SMul, SDiv, SMod, CDiv, CMod, SectorNo, Capacity, ClusterIdx, ClusterStart;
    if fptr == 0 {
      EmptyCursor(g, chain[..0], clust, dsect);
    } else {
      var i := ClusterIdx(g, fptr - 1);
      var kept := chain[..i + 1];
      ByteInChain(g, chain, fptr - 1);
      ClusterOfByte(g, fptr - 1);
      StartsGrow(g, i);
      StartIsCapacity(g, kept);
      assert fptr <= Capacity(g, kept);
      PlaceExists(g, kept, fptr);
      if SMod(fptr, g.ss) != 0 {
        SpanGrows(g, kept, chain);
        SamePlace(g, kept, chain, SDiv(fptr, g.ss));
      }
    }
  }

  /** The data sectors show the same file, cut to a prefix of its chain. */
  lemma ShorterFile(g: Geometry, d: Medium, e: Medium, others: set<Chain>, chain: Chain, kept: Chain,
                    dirty: bool, dsect: int, b: Sector)
    requires MediumOk(d, g) && MediumOk(e, g) && SameOutsideFat(d, e, g)
    requires InRange(g, chain) && InRange(g, kept) && kept <= chain
    ensures |e| == |d| && Span(g, kept) <= Span(g, chain)
    ensures View(g, chain, d, dirty, dsect, b)[..Span(g, kept)] == View(g, kept, e, dirty, dsect, b)
    ensures Own(g, others, dsect) ==> 0 <= dsect < |d| && e[dsect] == d[dsect]
  {
    SwapOutside(d, e, g);
    hide Geometry.WellFormed, View, Span, SectorNo, SameOutsideFat;
    LongerFile(g, e, d, others, kept, chain, dirty, dsect, b);
  }

  lemma SwapOutside(d: Medium, e: Medium, g: Geometry)
    requires SameOutsideFat(d, e, g)
    ensures SameOutsideFat(e, d, g)
  {
    forall s | 0 <= s < |e| && !g.InFat(s) ensures e[s] == d[s] {
      assert d[s] == e[s];
    }
  }

  /** What a truncation to n clusters leaves of the volume: exactly the file's entries after the n-th cluster are
      freed, no other file's sector has changed, and the promises about the FAT still hold. */
  twostate predicate CutTo(fp: Fil, n: int)
    reads fp, fp.fs`winsect, fp.fs`wflag, fp.fs`freeClust, fp.fs.drive, fp.fs.win
  {
    && old(fp.fs.Valid()) && fp.fs.Valid() && 0 <= n <= |old(fp.chain)| && fp.chain == old(fp.chain)[..n]
    && fp.others == old(fp.others)
    && fp.fs.Table() == CutTable(old(fp.fs.Table()), old(fp.chain), n, Cut(fp.fs.g.fsType, LAST_LINK))
    && SameButOwn(fp.fs.g, fp.others, old(fp.fs.Logical()), fp.fs.Logical())
    && Promises(fp.fs)
  }

  /** No sector outside the FAT has changed except data sectors that no other file owns. */
  ghost predicate SameButOwn(g: Geometry, others: set<Chain>, d: Medium, e: Medium)
    requires ClusterSize(g.csize)
  {
    |e| == |d| && forall s :: 0 <= s < |d| && !g.InFat(s) && !Own(g, others, s) ==> e[s] == d[s]
  }

  lemma CutThenFlushed(g: Geometry, others: set<Chain>, chain: Chain, d: Medium, e: Medium, f: Medium)
    requires ClusterSize(g.csize) && SameOutsideFat(d, e, g) && Untouched(g, others, chain, chain, e, f)
    ensures SameButOwn(g, others, d, f)
  {
    hide Own, MediumOk, TableOf;
    forall s | 0 <= s < |d| && !g.InFat(s) && !Own(g, others, s) ensures f[s] == d[s] {
      assert e[s] == d[s];
    }
  }

  /** Cut the chain of a file at the pointer. */
  method CutFile(fp: Fil, ghost n: int) returns (res: FResult)
    requires fp.Base() && fp.Cursor() && fp.fptr < fp.fsize <= Capacity(fp.fs.g, fp.chain)
    requires n == ClustersKept(fp.fs.g, fp.chain, fp.fptr, fp.fsize)
    modifies fp`sclust, fp`chain, fp.fs, fp.fs.drive, fp.fs.win
    ensures fp.fs.Valid() && (res != FrOk ==> !fp.fs.drive.reliable)
    ensures res == FrOk ==>
      && fp.Base() && fp.Cursor() && fp.fptr <= Capacity(fp.fs.g, fp.chain)
      && |fp.Sectors()| <= |old(fp.Sectors())| && old(fp.Sectors())[..|fp.Sectors()|] == fp.Sectors()
    ensures res == FrOk ==>
      && 0 <= n <= |old(fp.chain)| && fp.chain == old(fp.chain)[..n] && fp.others == old(fp.others)
      && fp.fs.Table() == CutTable(old(fp.fs.Table()), old(fp.chain), n, Cut(fp.fs.g.fsType, LAST_LINK))
      && SameOutsideFat(old(fp.fs.Logical()), fp.fs.Logical(), fp.fs.g) && Promises(fp.fs)
  {
    hide Geometry.WellFormed, FatBytes, TableOf, FreeCount, Overlay, Mirrored, Wrote, MediumOk, Fatfs.Valid,
      Fatfs.Logical, Fatfs.CopiesAgree, View, Linked, SectorNo, Span, CMod, CDiv, CMul, Own, Geometry.InData, SMul,
      SDiv, SMod, ClusterIdx, CountOk, WriteOrderOk, CursorOk, Capacity, CutTable, Cut, SameOutsideFat, ClustersKept;
    ghost var g, t, chain := fp.fs.g, fp.fs.Table(), fp.chain;
    KeptFits(g, chain, fp.fptr, fp.fsize, fp.clust, fp.dsect);
    MarkIsLast(g);
    CutLinked(g, t, fp.others, chain, fp.sclust, n, Cut(g.fsType, LAST_LINK));
    ghost var d := fp.fs.Logical();
    res := CutAfter(fp.fs, fp.fptr == 0, fp.clust, fp.sclust, n, fp.others, chain);
    if res != FrOk { return; }
    FatNotOwn(g, fp.others, fp.fs.winsect);
    if fp.fptr == 0 { fp.sclust := 0; }
    fp.chain := chain[..n];
    ShorterFile(g, d, fp.fs.Logical(), fp.others, chain, chain[..n], fp.dirty, fp.dsect, fp.buf[..]);
  }

  /** The first bytes of a file that was cut. */
  lemma CutContent(v: seq<Sector>, w: seq<Sector>, ss: int, size: nat, size': nat)
    requires SectorSize(ss) && Sized(v, ss) && Sized(w, ss) && |w| <= |v| && v[..|w|] == w
    requires size' <= size <= SMul(|v|, ss) && size' <= SMul(|w|, ss)
    ensures Content(w, ss, size') == Content(v, ss, size)[..size']
  {
    hide SMul, At, Content;
    PrefixContent(w, v, ss, size', size);
  }

  lemma FileCutCount(g: Geometry, t: Table, others: set<Chain>, chain: Chain, sclust: int, n: nat)
    requires g.WellFormed() && Linked(g, t, others, chain, sclust) && n <= |chain| && chain != []
    ensures FreeCount(CutTable(t, chain, n, Cut(g.fsType, LAST_LINK))) + n == FreeCount(t) + |chain|
  {
    MarkIsLast(g);
    hide Geometry.WellFormed, Cut, FreeCount, CutTable, Forest, IsChain;
    CutCount(t, chain, n, Cut(g.fsType, LAST_LINK));
  }

  lemma KeepAll(g: Geometry, t: Table, others: set<Chain>, chain: Chain, d: Medium, fptr: int, fsize: int)
    requires SectorSize(g.ss) && ClusterSize(g.csize) && fsize <= fptr
    ensures ClustersKept(g, chain, fptr, fsize) == |chain| && chain[..|chain|] == chain
    ensures forall mark :: CutTable(t, chain, |chain|, mark) == t
    ensures SameButOwn(g, others, d, d)
  {
    hide Own;
  }

  /** A table that maps a chain maps no proper prefix of it. */
  lemma MapOfPrefix(tbl: seq<dword>, s: Chain, n: nat)
    requires Maps(tbl, s) && n <= |s| && 0 !in s
    ensures Maps(tbl, s[..n]) <==> s[..n] == s
  {
    if Maps(tbl, s[..n]) { OneMap(tbl, s, s[..n]); }
  }

  /** What the old map says right behind a file that has been cut: a cluster that is free now. */
  lemma OldMapNamesFreed(t: Table, chain: Chain, n: nat, mark: nat)
    requires IsChain(t, chain) && n < |chain| && mark >= |t|
    ensures Lookup(Fragments(chain), n) == chain[n] && 2 <= chain[n] < |t|
    ensures CutTable(t, chain, n, mark)[chain[n]] == 0
  {
    hide Fragments, Lookup;
    LookupIsChain(chain, n);
    assert chain[n] in chain && chain[n] in chain[n..];
  }

  /** The truncation of a file whose pointer stands before its end. */
  method TruncateAt(fp: Fil) returns (res: FResult)
    requires fp.Placed() && fp.fptr < fp.fsize && fp.err == FrOk
    modifies fp`fsize, fp`written, fp`err, fp`dirty, fp`sclust, fp`chain, fp.fs, fp.fs.drive, fp.fs.win
    ensures fp.err == res
    ensures res != FrOk ==> !fp.fs.drive.reliable
    ensures res == FrOk ==>
      && fp.Base() && fp.Cursor() && fp.err == FrOk && fp.fsize == fp.fptr <= Capacity(fp.fs.g, fp.chain) && fp.written
      && fp.Bytes() == old(fp.Bytes())[..fp.fptr]
    ensures res == FrOk ==> CutTo(fp, ClustersKept(fp.fs.g, old(fp.chain), fp.fptr, old(fp.fsize)))
    ensures res == FrOk ==>
      FreeCount(fp.fs.Table()) + |fp.chain| == old(FreeCount(fp.fs.Table()) + |fp.chain|)
  {
    hide Geometry.WellFormed, FatBytes, TableOf, FreeCount, Overlay, Mirrored, Wrote, MediumOk, Fatfs.Valid,
      Fatfs.Logical, Fatfs.CopiesAgree, View, Linked, SectorNo, Span, CMod, CDiv, CMul, Own, Geometry.InData, SMul,
      SDiv, SMod, ClusterIdx, CountOk, WriteOrderOk, CursorOk, Capacity, CutTable, Cut, SameOutsideFat, ClustersKept,
      Content, Maps, Untouched, SameButOwn, Fil.Sectors;
    ghost var g, size, d, v := fp.fs.g, fp.fsize, fp.fs.Logical(), fp.Sectors();
    ghost var chain, t := fp.chain, fp.fs.Table();
    ghost var n := ClustersKept(g, chain, fp.fptr, size);
    res := CutFile(fp, n);
    fp.fsize := fp.fptr;
    fp.written := true;
    ghost var e := fp.fs.Logical();
    UntouchedSame(g, fp.others, fp.chain, e);
    if res == FrOk && fp.dirty {
      var ok := FlushBuffer(fp);
      if !ok { res := FrDiskErr; }
    }
    if res != FrOk { fp.err := res; return; }
    CapacityBytes(g, chain);
    CapacityBytes(g, fp.chain);
    CutThenFlushed(g, fp.others, fp.chain, d, e, fp.fs.Logical());
    CutContent(v, fp.Sectors(), g.ss, size, fp.fsize);
    FileCutCount(g, t, fp.others, chain, old(fp.sclust), n);
  }

  /** Cut the file at the pointer.  What is left is the prefix of its bytes and the prefix of its chain that holds
      them; a link map, if one is set, stays right only if no cluster has gone. */
  method FTruncate(fp: Fil) returns (res: FResult)
    requires fp.Placed()
    modifies fp`fsize, fp`written, fp`err, fp`dirty, fp`sclust, fp`chain, fp.fs, fp.fs.drive, fp.fs.win
    ensures old(fp.err) != FrOk ==> res == old(fp.err)
    ensures old(fp.err) == FrOk && !fp.canWrite ==> res == FrDenied
    ensures old(fp.err) != FrOk || !fp.canWrite ==> unchanged(fp, fp.buf, fp.fs, fp.fs.drive, fp.fs.win)
    ensures old(fp.err) == FrOk && fp.canWrite && fp.fs.drive.reliable ==> res == FrOk
    ensures old(fp.err) == FrOk && fp.canWrite ==> fp.err == res
    ensures res == FrOk ==>
      && fp.Base() && fp.Cursor() && fp.err == FrOk && fp.fsize == fp.fptr <= Capacity(fp.fs.g, fp.chain)
      && fp.Bytes() == old(fp.Bytes())[..fp.fptr]
      && fp.written == (old(fp.written) || fp.fptr < old(fp.fsize))
    ensures res == FrOk ==> CutTo(fp, ClustersKept(fp.fs.g, old(fp.chain), fp.fptr, old(fp.fsize)))
    ensures res == FrOk && fp.fptr < old(fp.fsize) ==>
      var cb := fp.fs.g.ss * fp.fs.g.csize; (|fp.chain| - 1) * cb < fp.fptr as int <= |fp.chain| * cb
    ensures res == FrOk ==> |fp.chain| <= |old(fp.chain)| && forall c :: 0 <= c < fp.fs.g.nFatent as int ==>
              fp.fs.Table()[c] ==
              if c in old(fp.chain)[|fp.chain|..] then 0
              else if 0 < |fp.chain| < |old(fp.chain)| && c == old(fp.chain)[|fp.chain| - 1]
              then match fp.fs.g.fsType case Fat12 => 0xFFF case Fat16 => 0xFFFF case Fat32 => 0x0FFF_FFFF
              else old(fp.fs.Table())[c]
    ensures res == FrOk ==>
      FreeCount(fp.fs.Table()) + |fp.chain| == old(FreeCount(fp.fs.Table()) + |fp.chain|)
    ensures res == FrOk && fp.cltbl != null && old(fp.MapOk()) ==> (fp.MapOk() <==> fp.chain == old(fp.chain))
    ensures res == FrOk ==> (old(fp.MapReads()) ==> fp.MapReads()) && (old(fp.MapSeeks()) ==> fp.MapSeeks())
    ensures res == FrOk ==> fp.Placed()
    ensures res == FrOk && (fp.cltbl == null || (old(fp.MapOk()) && fp.chain == old(fp.chain))) ==> fp.Valid()
  {
    hide Geometry.WellFormed, FatBytes, TableOf, FreeCount, Overlay, Mirrored, Wrote, MediumOk, Fatfs.Valid,
      Fatfs.Logical, Fatfs.CopiesAgree, View, Linked, SectorNo, Span, CMod, CDiv, CMul, Own, Geometry.InData, SMul,
      SDiv, SMod, ClusterIdx, CountOk, WriteOrderOk, CursorOk, Capacity, CutTable, Cut, SameOutsideFat, ClustersKept,
      Content, Maps, Untouched, SameButOwn, Fil.Sectors, Fil.Bytes;
    if fp.err != FrOk { res := fp.err; return; }
    if !fp.canWrite { res := FrDenied; return; }
    res := FrOk;
    ghost var n := ClustersKept(fp.fs.g, fp.chain, fp.fptr, fp.fsize);
    KeptInChain(fp);
    if fp.fsize > fp.fptr {
      ghost var s := fp.chain;
      if fp.cltbl != null && fp.MapReads() { s := MappedChain(fp); }
      res := TruncateAt(fp);
      if res == FrOk && fp.cltbl != null && old(fp.MapReads()) {
        assert fp.Mapped(s);
        assert fp.chain == old(fp.chain)[..n] && |fp.chain| <= |old(fp.chain)|;
        assert old(fp.chain) <= s ==> fp.chain <= s;
      }
      if res == FrOk && fp.cltbl != null && old(fp.MapOk()) { MapOfPrefix(fp.cltbl[..], old(fp.chain), n); }
    } else {
      NothingMoved(fp.fs);
      KeepAll(fp.fs.g, fp.fs.Table(), fp.others, fp.chain, fp.fs.Logical(), fp.fptr, fp.fsize);
      WholePrefix(fp.Bytes());
    }
  }

  lemma KeptInChain(fp: Fil)
    requires fp.Placed()
    ensures SectorSize(fp.fs.g.ss) && ClusterSize(fp.fs.g.csize)
    ensures var g, n := fp.fs.g, ClustersKept(fp.fs.g, fp.chain, fp.fptr, fp.fsize);
            && 0 <= n <= |fp.chain|
            && (fp.fptr < fp.fsize ==> (n - 1) * (g.ss * g.csize) < fp.fptr as int <= n * (g.ss * g.csize))
            && forall c :: 0 <= c < g.nFatent as int ==>
                 CutTable(fp.fs.Table(), fp.chain, n, Cut(g.fsType, LAST_LINK))[c] ==
                 if c in fp.chain[n..] then 0
                 else if 0 < n < |fp.chain| && c == fp.chain[n - 1]
                 then match g.fsType case Fat12 => 0xFFF case Fat16 => 0xFFFF case Fat32 => 0x0FFF_FFFF
                 else fp.fs.Table()[c]
  {
    hide Linked, CutTable, Cut, CursorOk, ClustersKept, Capacity, View, Own, Geometry.WellFormed, Fatfs.Valid,
      Fatfs.Logical, TableOf, FatBytes, Maps, SectorSize, ClusterSize, Geometry.InData, Overlay, MediumOk, Fil.Sectors;
    var g, n := fp.fs.g, ClustersKept(fp.fs.g, fp.chain, fp.fptr, fp.fsize);
    if fp.fptr < fp.fsize {
      KeptFits(g, fp.chain, fp.fptr, fp.fsize, fp.clust, fp.dsect);
      KeptIsPlain(g, fp.chain, fp.fptr, fp.fsize);
    } else {
      KeptWhole(g, fp.chain, fp.fptr, fp.fsize);
    }
    AllCutIsPlain(g, fp.fs.Table(), fp.others, fp.chain, fp.sclust, n);
  }

  lemma KeptWhole(g: Geometry, chain: Chain, fptr: int, fsize: int)
    requires SectorSize(g.ss) && ClusterSize(g.csize) && fsize <= fptr
    ensures ClustersKept(g, chain, fptr, fsize) == |chain|
  {
  }

  lemma WholePrefix(b: seq<byte>)
    ensures b[..|b|] == b
  {
  }

  /** The cluster right behind a file cut from chain to kept: it is free, and its first sector is none of the file. */
  ghost predicate RightBehind(g: Geometry, t: Table, chain: Chain, kept: Chain, clust: dword, sect: dword) {
    && g.WellFormed() && 0 < |kept| && kept < chain
    && clust == chain[|kept|] && clust < |t| && t[clust] == 0
    && g.InData(sect) && sect == g.ClustToSect(clust) && Outside(g, kept, sect)
  }

  /** At a cluster boundary past the start, exactly the clusters before the pointer are kept. */
  lemma BoundaryKept(g: Geometry, chain: Chain, fptr: int, fsize: int)
    requires SectorSize(g.ss) && ClusterSize(g.csize) && 0 < fptr < fsize <= Capacity(g, chain)
    requires SMod(fptr, g.ss) == 0 && CMod(SDiv(fptr, g.ss), g.csize) == 0
    ensures var n := ClustersKept(g, chain, fptr, fsize); 0 < n < |chain| && fptr == Capacity(g, chain[..n])
  {
    hide SMod, SDiv, CMod, CDiv, SMul, CMul, Capacity, Span;
    EnterSector(g, fptr);
    AtCapacity(g, chain, fptr);
    ByteInChain(g, chain, fptr - 1);
    AtCapacity(g, chain[..ClustersKept(g, chain, fptr, fsize)], fptr);
  }

  /** The first cluster cut off is free and none of the file's. */
  lemma FreedBehind(g: Geometry, t: Table, others: set<Chain>, chain: Chain, sclust: int, n: nat, mark: nat)
    requires Linked(g, t, others, chain, sclust) && n < |chain| && mark >= |t|
    ensures chain[n] !in chain[..n] && g.IsCluster(chain[n]) && CutTable(t, chain, n, mark)[chain[n]] == 0
  {
    hide Forest, CutTable;
    OldMapNamesFreed(t, chain, n, mark);
    if chain[n] in chain[..n] {
      var i :| 0 <= i < n && chain[i] == chain[n];
      NoRepeat(t, chain, i, n);
    }
  }

  /** Cut a file at a cluster boundary and write on with its link map: the write turns to the first of the clusters
      that have just been freed, and to a sector that the file does not have. */
  method WriteBehindCut(fp: Fil) returns (res: FResult, sect: dword)
    requires fp.Valid() && fp.cltbl != null && fp.err == FrOk && fp.canWrite
    requires 0 < fp.fptr < fp.fsize
    requires SMod(fp.fptr, fp.fs.g.ss) == 0 && CMod(SDiv(fp.fptr, fp.fs.g.ss), fp.fs.g.csize) == 0
    modifies fp`fsize, fp`written, fp`err, fp`clust, fp`dirty, fp`sclust, fp`chain, fp.fs, fp.fs.drive, fp.fs.win
    ensures fp.fs.drive.reliable ==> res == FrOk
    ensures res == FrOk ==>
      fp.fs.Valid() && RightBehind(fp.fs.g, fp.fs.Table(), old(fp.chain), fp.chain, fp.clust, sect)
  {
    hide Geometry.WellFormed, FatBytes, TableOf, FreeCount, Overlay, Mirrored, Wrote, MediumOk, Fatfs.Valid,
      Fatfs.Logical, Fatfs.CopiesAgree, View, Linked, SectorNo, Span, CMod, CDiv, CMul, Own, Geometry.InData, SMul,
      SDiv, SMod, ClusterIdx, CountOk, WriteOrderOk, CursorOk, Capacity, CutTable, Cut, SameOutsideFat, ClustersKept,
      Content, Maps, Untouched, SameButOwn, Fil.Sectors, Fil.Bytes;
    sect := 0;
    ghost var g, t, chain := fp.fs.g, fp.fs.Table(), fp.chain;
    BoundaryKept(g, chain, fp.fptr, fp.fsize);
    ghost var n := ClustersKept(g, chain, fp.fptr, fp.fsize);
    MarkIsLast(g);
    FreedBehind(g, t, fp.others, chain, fp.sclust, n, Cut(g.fsType, LAST_LINK));
    if fp.Mapped([]) { OneMapped(fp, chain, []); }
    res := FTruncate(fp);
    if res != FrOk { return; }
    assert BehindCut(fp);
    var full, csect;
    ghost var s;
    res, full, sect, csect, s := SectorToWrite(fp);
    if res != FrOk { return; }
    OneMapped(fp, s, chain);
    SectorElsewhere(g, fp.chain, fp.clust, 0);
  }
}
