/** create_chain, remove_chain and the free cluster count, on a mounted volume. */
module ClusterOps {
  import opened Bytes
  import opened Units
  import opened Layout
  import opened Disk
  import opened PackedTable
  import opened FatTable
  import opened LogicalDisk
  import opened Volume
  import opened FatAccess
  import opened Chains
  import opened Allocation


  /** The cached free cluster count is unknown or right. */
  ghost predicate CountOk(fs: Fatfs)
    requires fs.Valid()
    reads fs`winsect, fs`wflag, fs`freeClust, fs.drive, fs.win
  {
    fs.freeClust == UNKNOWN || fs.freeClust == FreeCount(fs.Table())
  }

  /** The cached count and the stale mark of FSINFO are as they were, or the mark is set. */
  twostate predicate CountMarked(fs: Fatfs)
    reads fs`freeClust, fs`fsiFlag
  {
    || (fs.freeClust == old(fs.freeClust) && fs.fsiFlag == old(fs.fsiFlag))
    || (fs.fsiFlag % 2 == 1 && fs.fsiFlag / 2 == old(fs.fsiFlag) / 2)
  }

  /** Every state the medium has gone through from state number since on has no link to a free cluster. */
  ghost predicate SafeHistory(h: seq<Medium>, g: Geometry, since: nat) {
    forall i :: since <= i < |h| ==> MediumOk(h[i], g) && NoLinkToFree(TableOf(h[i], g))
  }

  /** The write order has been safe since the volume was mounted, and the table that is about to be written is safe. */
  ghost predicate WriteOrderOk(fs: Fatfs)
    requires fs.Valid()
    reads fs`winsect, fs`wflag, fs.drive, fs.win
  {
    SafeHistory(fs.drive.history, fs.g, fs.since) && NoLinkToFree(fs.Table())
  }

  lemma SameBytesSameTable(d: Medium, e: Medium, g: Geometry)
    requires MediumOk(d, g) && MediumOk(e, g) && FatBytes(d, g) == FatBytes(e, g)
    ensures TableOf(d, g) == TableOf(e, g)
  {
    hide Geometry.WellFormed, Entry, Fits;
  }

  /** Writing the present FAT keeps the history safe. */
  lemma StillSafe(h0: seq<Medium>, h1: seq<Medium>, g: Geometry, d: Medium, since: nat)
    requires MediumOk(d, g) && NoLinkToFree(TableOf(d, g))
    requires SafeHistory(h0, g, since) && Wrote(h0, h1, g, {FatBytes(d, g)})
    ensures SafeHistory(h1, g, since)
  {
    hide NoLinkToFree, TableOf, FatBytes, Geometry.WellFormed;
    forall i | since <= i < |h1| ensures MediumOk(h1[i], g) && NoLinkToFree(TableOf(h1[i], g)) {
      if i < |h0| {
        assert h1[i] == h1[..|h0|][i];
      } else {
        SameBytesSameTable(d, h1[i], g);
      }
    }
  }

  /** Every promise about the FAT that held still holds: the cached count, the write order on FAT16/32,
      the agreement of the two copies. */
  twostate predicate Promises(fs: Fatfs)
    reads fs`winsect, fs`wflag, fs`freeClust, fs.drive, fs.win
  {
    && old(fs.Valid()) && fs.Valid()
    && (old(CountOk(fs)) ==> CountOk(fs))
    && (fs.g.fsType != Fat12 && old(WriteOrderOk(fs)) ==> WriteOrderOk(fs))
    && (fs.drive.reliable && old(fs.CopiesAgree()) ==> fs.CopiesAgree())
  }

  /** Moving the window keeps all promises. */
  twostate lemma SameDiskPromises(fs: Fatfs)
    requires SameDisk(fs) && fs.freeClust == old(fs.freeClust)
    ensures Promises(fs)
  {
    hide Geometry.WellFormed, FatBytes, TableOf, Overlay, Mirrored, Wrote, NoLinkToFree, SafeHistory;
    if old(WriteOrderOk(fs)) {
      StillSafe(old(fs.drive.history), fs.drive.history, fs.g, fs.Logical(), fs.since);
    }
  }

  twostate lemma NothingMoved(fs: Fatfs)
    requires old(fs.Valid()) && fs.Valid() && fs.winsect == old(fs.winsect) && fs.wflag == old(fs.wflag)
    requires fs.drive.sectors == old(fs.drive.sectors) && fs.drive.history == old(fs.drive.history)
    requires fs.win[..] == old(fs.win[..]) && fs.freeClust == old(fs.freeClust)
    ensures Promises(fs)
  {
  }

  lemma MarkIsLast(g: Geometry)
    requires g.WellFormed()
    ensures Cut(g.fsType, LAST_LINK) >= g.nFatent
    ensures Cut(g.fsType, LAST_LINK)
            == match g.fsType case Fat12 => 0xFFF case Fat16 => 0xFFFF case Fat32 => 0x0FFF_FFFF
    ensures forall c: dword :: g.IsCluster(c) ==> Cut(g.fsType, c) == c
    ensures Cut(g.fsType, 0) == 0
  {
  }

  /** The search loop of create_chain: 0 nothing free, 1 bad entry, DISK_ERROR, or a free cluster. */
  method FindFree(fs: Fatfs, scl: dword) returns (ncl: dword)
    requires fs.Valid() && 1 <= scl < fs.g.nFatent && 3 <= fs.g.nFatent
    modifies fs`winsect, fs`wflag, fs.drive, fs.win
    ensures SameDisk(fs)
    ensures ncl == 0 ==> PassedOver(fs.Table(), scl, fs.g.nFatent - 2) && fs.g.InFat(fs.winsect)
    ensures ncl == 1 ==> exists c :: 2 <= c < fs.g.nFatent && fs.Table()[c] == 1 && FirstStop(fs.Table(), scl, c)
    ensures ncl >= 2 && ncl != 0xFFFF_FFFF ==>
      FirstStop(fs.Table(), scl, ncl) && fs.g.IsCluster(ncl) && fs.Table()[ncl] == 0 && fs.g.InFat(fs.winsect)
    ensures ncl == 0xFFFF_FFFF ==> !fs.drive.reliable
  {
    hide Geometry.WellFormed, FatBytes, TableOf, Overlay, Mirrored, Wrote, MediumOk, FirstStop, PassedOver,
      Fatfs.Valid, Fatfs.Logical, Fatfs.CopiesAgree;
    var n := fs.g.nFatent;
    PassedOneMore(fs.Table(), scl, 0);
    ghost var k := 0;
    WroteNothing(fs.drive.history, fs.g, {fs.Fat()});
    ncl := scl;
    while true
      invariant SameDisk(fs) && 0 <= k <= n - 2
      invariant ncl == if k == 0 then scl else Candidate(n, scl, k)
      invariant 1 <= ncl < n && (k > 0 && scl > 1 ==> ncl != scl)
      invariant k > 0 ==> fs.g.InFat(fs.winsect)
      invariant PassedOver(fs.Table(), scl, k)
      decreases n - k
    {
      ncl := ncl + 1;
      if ncl >= n {
        ncl := 2;
        if ncl > scl { return 0; }
      }
      k := k + 1;
      ghost var h := fs.drive.history;
      var cs := GetFat(fs, ncl);
      WroteThenWrote(old(fs.drive.history), h, fs.drive.history, fs.g, {fs.Fat()});
      if cs == 0 || cs == 1 { StopHere(fs.Table(), scl, k); }
      if cs == 0 { return; }
      if cs == DISK_ERROR || cs == 1 { return cs; }
      PassedOneMore(fs.Table(), scl, k);
      if ncl == scl { return 0; }
    }
  }

  /** Mark a free cluster as the last link, then link it to the chain. */
  method TakeCluster(fs: Fatfs, clst: dword, ncl: dword) returns (res: FResult)
    requires fs.Valid() && fs.g.IsCluster(ncl) && fs.Table()[ncl] == 0 && NeedsNew(fs.Table(), clst)
    modifies fs`winsect, fs`wflag, fs.drive, fs.win
    ensures fs.Valid()
    ensures res != FrOk ==> res == FrDiskErr && !fs.drive.reliable
    ensures res == FrOk ==>
      && fs.Table() == Taken(old(fs.Table()), clst, ncl, Cut(fs.g.fsType, LAST_LINK))
      && SameOutsideFat(old(fs.Logical()), fs.Logical(), fs.g)
      && fs.g.InFat(fs.winsect)
    ensures res == FrOk && fs.g.fsType != Fat12 && old(WriteOrderOk(fs)) ==> WriteOrderOk(fs)
    ensures fs.drive.reliable && old(fs.CopiesAgree()) ==> fs.CopiesAgree()
  {
    hide Geometry.WellFormed, FatBytes, TableOf, Overlay, Mirrored, Wrote, MediumOk, PutEntry, Cut, Fits,
      NoLinkToFree, SafeHistory, Fatfs.Valid, Fatfs.Logical, Fatfs.CopiesAgree;
    MarkIsLast(fs.g);
    ghost var t, mark := fs.Table(), Cut(fs.g.fsType, LAST_LINK);
    ghost var d0, h0 := fs.Logical(), fs.drive.history;
    if NoLinkToFree(t) { TakenIsSafe(t, clst, ncl, mark); }
    res := PutFat(fs, ncl, LAST_LINK);
    ghost var d1, h1 := fs.Logical(), fs.drive.history;
    if res == FrOk && clst != 0 {
      res := PutFat(fs, clst, ncl);
    }
    if fs.g.fsType != Fat12 && old(WriteOrderOk(fs)) && res == FrOk {
      StillSafe(h0, h1, fs.g, d0, fs.since);
      if clst != 0 { StillSafe(h1, fs.drive.history, fs.g, d1, fs.since); }
    }
  }

  /** The part of create_chain that finds and takes a new cluster. */
  method NewCluster(fs: Fatfs, clst: dword, scl: dword) returns (ncl: dword)
    requires fs.Valid() && NeedsNew(fs.Table(), clst) && 1 <= scl < fs.g.nFatent
    modifies fs, fs.drive, fs.win
    ensures fs.Valid()
    ensures ncl == 0xFFFF_FFFF ==> !fs.drive.reliable
    ensures ncl < 2 ==> SameDisk(fs) && fs.lastClust == old(fs.lastClust) && fs.freeClust == old(fs.freeClust)
    ensures ncl == 0 ==> fs.g.InFat(fs.winsect) && forall c :: 2 <= c < fs.g.nFatent ==> fs.Table()[c] >= 2
    ensures ncl == 1 ==>
      exists c :: 2 <= c < fs.g.nFatent && fs.Table()[c] == 1 && FirstStop(fs.Table(), scl, c)
    ensures ncl >= 2 && ncl != 0xFFFF_FFFF ==>
      && fs.g.IsCluster(ncl) && old(fs.Table())[ncl] == 0 && FirstStop(old(fs.Table()), scl, ncl)
      && fs.Table() == Taken(old(fs.Table()), clst, ncl, Cut(fs.g.fsType, LAST_LINK))
      && fs.lastClust == ncl && fs.g.InFat(fs.winsect)
      && fs.freeClust == (if old(fs.freeClust) == UNKNOWN then UNKNOWN else Dec32(old(fs.freeClust)))
    ensures ncl != 0xFFFF_FFFF ==> CountMarked(fs)
    ensures ncl != 0xFFFF_FFFF ==> SameOutsideFat(old(fs.Logical()), fs.Logical(), fs.g)
    ensures ncl != 0xFFFF_FFFF && old(CountOk(fs)) ==> CountOk(fs)
    ensures ncl != 0xFFFF_FFFF && fs.g.fsType != Fat12 && old(WriteOrderOk(fs)) ==> WriteOrderOk(fs)
    ensures fs.drive.reliable && old(fs.CopiesAgree()) ==> fs.CopiesAgree()
  {
    hide Geometry.WellFormed, FatBytes, TableOf, Overlay, Mirrored, Wrote, MediumOk, FirstStop, PassedOver, Cut,
      NoLinkToFree, SafeHistory, Fatfs.Valid, Fatfs.Logical, Fatfs.CopiesAgree, FreeCount, Taken;
    ghost var d, h, t := fs.Logical(), fs.drive.history, fs.Table();
    ncl := FindFree(fs, scl);
    if old(WriteOrderOk(fs)) { StillSafe(h, fs.drive.history, fs.g, d, fs.since); }
    if ncl == 0 { NothingFree(t, scl); }
    if ncl == 0 || ncl == 1 || ncl == DISK_ERROR { return ncl; }
    var res := TakeCluster(fs, clst, ncl);
    if res == FrOk {
      MarkIsLast(fs.g);
      TakenCount(t, clst, ncl, Cut(fs.g.fsType, LAST_LINK));
      fs.lastClust := ncl;
      if fs.freeClust != UNKNOWN {
        fs.freeClust := Dec32(fs.freeClust);
        fs.fsiFlag := SetBit0(fs.fsiFlag);
      }
    } else {
      ncl := DISK_ERROR;  // put_fat has no other failure for clusters in range
    }
  }

  /** Take a free cluster for a new chain (clst 0), or for the chain that ends at clst; a chain that
      continues after clst is left alone and its next cluster is returned. */
  method CreateChain(fs: Fatfs, clst: dword) returns (ncl: dword)
    requires fs.Valid()
    modifies fs, fs.drive, fs.win
    ensures fs.Valid()
    ensures ncl == 0xFFFF_FFFF ==> !fs.drive.reliable
    ensures ncl != 0xFFFF_FFFF && !NeedsNew(old(fs.Table()), clst) ==>
      && SameDisk(fs) && fs.lastClust == old(fs.lastClust) && fs.freeClust == old(fs.freeClust)
      && ncl == if fs.g.IsCluster(clst) && fs.Table()[clst] >= 2 then fs.Table()[clst] else 1
    ensures ncl < 2 ==> SameDisk(fs) && fs.lastClust == old(fs.lastClust) && fs.freeClust == old(fs.freeClust)
    ensures ncl == 0 ==> NeedsNew(fs.Table(), clst) && forall c :: 2 <= c < fs.g.nFatent ==> fs.Table()[c] >= 2
    ensures ncl == 1 && NeedsNew(fs.Table(), clst) ==>
      exists c :: 2 <= c < fs.g.nFatent && fs.Table()[c] == 1
                  && FirstStop(fs.Table(), SearchStart(fs.g.nFatent, fs.lastClust, clst), c)
    ensures ncl >= 2 && ncl != 0xFFFF_FFFF && NeedsNew(old(fs.Table()), clst) ==>
      && fs.g.IsCluster(ncl) && old(fs.Table())[ncl] == 0
      && FirstStop(old(fs.Table()), SearchStart(fs.g.nFatent, old(fs.lastClust), clst), ncl)
      && fs.Table() == Taken(old(fs.Table()), clst, ncl, Cut(fs.g.fsType, LAST_LINK))
      && fs.lastClust == ncl
      && fs.freeClust == (if old(fs.freeClust) == 0xFFFF_FFFF then 0xFFFF_FFFF else Dec32(old(fs.freeClust)))
    ensures ncl >= 2 && ncl != 0xFFFF_FFFF && NeedsNew(old(fs.Table()), clst) ==>
      && fs.Table()[ncl] == (match fs.g.fsType case Fat12 => 0xFFF case Fat16 => 0xFFFF case Fat32 => 0x0FFF_FFFF)
      && (clst != 0 ==> fs.Table()[clst] == ncl)
      && forall k :: 0 <= k < fs.g.nFatent && k != ncl && (k != clst || clst == 0) ==>
           fs.Table()[k] == old(fs.Table())[k]
    ensures ncl != 0xFFFF_FFFF ==> CountMarked(fs)
    ensures ncl != 0xFFFF_FFFF ==> SameOutsideFat(old(fs.Logical()), fs.Logical(), fs.g)
    ensures ncl != 1 && ncl != 0xFFFF_FFFF ==> fs.g.InFat(fs.winsect)
    ensures ncl != 0xFFFF_FFFF && old(CountOk(fs)) ==> CountOk(fs)
    ensures ncl != 0xFFFF_FFFF && fs.g.fsType != Fat12 && old(WriteOrderOk(fs)) ==> WriteOrderOk(fs)
    ensures fs.drive.reliable && old(fs.CopiesAgree()) ==> fs.CopiesAgree()
  {
    hide Geometry.WellFormed, FatBytes, TableOf, Overlay, Mirrored, Wrote, MediumOk, FirstStop, PassedOver, Cut,
      NoLinkToFree, SafeHistory, Fatfs.Valid, Fatfs.Logical, Fatfs.CopiesAgree, FreeCount, Taken;
    var g := fs.g;
    var scl;
    ghost var d, h := fs.Logical(), fs.drive.history;
    if clst == 0 {
      scl := fs.lastClust;
      if scl == 0 || scl >= g.nFatent { scl := 1; }
      WroteNothing(h, g, {fs.Fat()});
    } else {
      var cs := GetFat(fs, clst);
      if old(WriteOrderOk(fs)) { StillSafe(h, fs.drive.history, g, d, fs.since); }
      if cs < 2 { return 1; }
      if cs == DISK_ERROR { return cs; }
      if cs < g.nFatent { return cs; }
      scl := clst;
    }
    ghost var h1 := fs.drive.history;
    ncl := NewCluster(fs, clst, scl);
    if ncl < 2 { WroteThenWrote(h, h1, fs.drive.history, g, {fs.Fat()}); }
    MarkIsLast(g);
    if ncl >= 2 && ncl != DISK_ERROR { TakenAll(old(fs.Table()), clst, ncl, Cut(g.fsType, LAST_LINK)); }
  }

  lemma TakenAll(t: Table, clst: nat, c: nat, mark: nat)
    requires NeedsNew(t, clst) && clst < |t| && 2 <= c < |t| && t[c] == 0
    ensures forall k :: 0 <= k < |t| ==>
      Taken(t, clst, c, mark)[k] == if k == c then mark else if k == clst && clst != 0 then c else t[k]
  {
    forall k | 0 <= k < |t|
      ensures Taken(t, clst, c, mark)[k] == if k == c then mark else if k == clst && clst != 0 then c else t[k]
    {
      TakenIs(t, clst, c, mark, k);
    }
  }

  /** One round of remove_chain: read the link of c, then set c free.  nxt is 0 if the removal ends at c. */
  method FreeLink(fs: Fatfs, c: dword) returns (res: FResult, nxt: dword)
    requires fs.Valid() && fs.g.IsCluster(c)
    modifies fs, fs.drive, fs.win
    ensures fs.Valid() && fs.lastClust == old(fs.lastClust)
    ensures res == FrDiskErr ==> !fs.drive.reliable
    ensures res != FrDiskErr ==> res == if old(fs.Table())[c] == 1 then FrIntErr else FrOk
    ensures res != FrDiskErr && old(fs.Table())[c] < 2 ==> nxt == 0 && SameDisk(fs) && fs.freeClust == old(fs.freeClust)
    ensures res != FrDiskErr && old(fs.Table())[c] >= 2 ==>
      nxt == old(fs.Table())[c] && fs.Table() == old(fs.Table())[c := 0]
    ensures res != FrDiskErr ==> SameOutsideFat(old(fs.Logical()), fs.Logical(), fs.g)
    ensures res != FrDiskErr ==> fs.g.InFat(fs.winsect) && CountMarked(fs)
    ensures res != FrDiskErr && old(CountOk(fs)) ==> CountOk(fs)
    ensures res != FrDiskErr && fs.g.fsType != Fat12 && old(WriteOrderOk(fs)) && Detached(old(fs.Table()), c) ==>
      WriteOrderOk(fs)
    ensures fs.drive.reliable && old(fs.CopiesAgree()) ==> fs.CopiesAgree()
  {
    hide Geometry.WellFormed, FatBytes, TableOf, Overlay, Mirrored, Wrote, MediumOk, Cut, PutEntry, Fits,
      NoLinkToFree, Detached, SafeHistory, Fatfs.Valid, Fatfs.Logical, Fatfs.CopiesAgree, FreeCount;
    ghost var d, h, t := fs.Logical(), fs.drive.history, fs.Table();
    res, nxt := FrOk, 0;
    MarkIsLast(fs.g);
    var cs := GetFat(fs, c);
    if old(WriteOrderOk(fs)) { StillSafe(h, fs.drive.history, fs.g, d, fs.since); }
    if cs == 0 { return; }
    if cs == 1 { res := FrIntErr; return; }
    if cs == DISK_ERROR { res := FrDiskErr; return; }
    ghost var h1 := fs.drive.history;
    FreeOne(t, c);
    if NoLinkToFree(t) && Detached(t, c) { DetachedStep(t, c); }
    res := PutFat(fs, c, 0);
    if res != FrOk { return; }
    if fs.g.fsType != Fat12 && old(WriteOrderOk(fs)) { StillSafe(h1, fs.drive.history, fs.g, d, fs.since); }
    if fs.freeClust != UNKNOWN {
      fs.freeClust := Inc32(fs.freeClust);
      fs.fsiFlag := SetBit0(fs.fsiFlag);
    }
    nxt := cs;
  }

  /** Free the clusters from clst on.  It terminates on every FAT, cyclic ones included: a visited
      cluster is set free before the next one is read, and a free entry stops the loop. */
  method RemoveChain(fs: Fatfs, clst: dword) returns (res: FResult)
    requires fs.Valid()
    modifies fs, fs.drive, fs.win
    ensures fs.Valid() && fs.lastClust == old(fs.lastClust)
    ensures res == FrDiskErr ==> !fs.drive.reliable
    ensures !fs.g.IsCluster(clst) ==> res == FrIntErr && SameDisk(fs) && fs.freeClust == old(fs.freeClust)
    ensures fs.g.IsCluster(clst) && res != FrDiskErr ==> (fs.Table(), res) == Removed(old(fs.Table()), clst)
    ensures res != FrDiskErr ==> SameOutsideFat(old(fs.Logical()), fs.Logical(), fs.g)
    ensures fs.g.IsCluster(clst) && res != FrDiskErr ==> fs.g.InFat(fs.winsect)
    ensures res != FrDiskErr && old(CountOk(fs)) ==> CountOk(fs)
    ensures res != FrDiskErr ==> CountMarked(fs)
    ensures res != FrDiskErr && fs.g.fsType != Fat12 && old(WriteOrderOk(fs)) && Detached(old(fs.Table()), clst) ==>
      WriteOrderOk(fs)
    ensures fs.drive.reliable && old(fs.CopiesAgree()) ==> fs.CopiesAgree()
  {
    hide Geometry.WellFormed, FatBytes, TableOf, Overlay, Mirrored, Wrote, MediumOk, NoLinkToFree, Detached,
      SafeHistory, Fatfs.Valid, Fatfs.Logical, Fatfs.CopiesAgree, FreeCount;
    if clst < 2 || clst >= fs.g.nFatent {
      res := FrIntErr;
      WroteNothing(fs.drive.history, fs.g, {fs.Fat()});
    } else {
      res := FrOk;
      var c := clst;
      while c < fs.g.nFatent
        invariant fs.Valid() && 2 <= c && res == FrOk && fs.lastClust == old(fs.lastClust)
        invariant Removed(old(fs.Table()), clst) == Removed(fs.Table(), c) && |fs.Table()| == fs.g.nFatent
        invariant SameOutsideFat(old(fs.Logical()), fs.Logical(), fs.g)
        invariant (c != clst ==> fs.g.InFat(fs.winsect)) && CountMarked(fs)
        invariant old(CountOk(fs)) ==> CountOk(fs)
        invariant fs.g.fsType != Fat12 && old(WriteOrderOk(fs)) && Detached(old(fs.Table()), clst) ==>
          WriteOrderOk(fs) && (c < fs.g.nFatent ==> Detached(fs.Table(), c))
        invariant fs.drive.reliable && old(fs.CopiesAgree()) ==> fs.CopiesAgree()
        decreases UsedSet(fs.Table())
      {
        ghost var t := fs.Table();
        var nxt;
        res, nxt := FreeLink(fs, c);
        if res != FrOk || nxt == 0 { break; }
        assert c in UsedSet(t) && UsedSet(t[c := 0]) == UsedSet(t) - {c};
        if NoLinkToFree(t) && Detached(t, c) { DetachedStep(t, c); }
        c := nxt;
      }
    }
  }
}
