/** dir_alloc, and walks along a directory table. */
module DirectoryAlloc {
  import opened Bytes
  import opened Units
  import opened Layout
  import opened Disk
  import opened PackedTable
  import opened FatTable
  import opened LogicalDisk
  import opened Volume
  import opened FatAccess
  import opened Chains
  import opened Allocation
  import opened ClusterOps
  import opened FileData
  import opened FileCursor
  import opened Directory

  // ---------- walks ----------

  /** k steps from the first entry lead where dir_sdi(k) leads. */
  method WalkTo(dp: Dir, k: dword) returns (res: FResult)
    requires dp.Valid() && !dp.BadStart() && k <= 0xFFFF
    modifies dp`index, dp`clust, dp`sect, dp`ofs, dp`chain, dp.fs, dp.fs.drive, dp.fs.win
    ensures res == FrDiskErr ==> !dp.fs.drive.reliable
    ensures res != FrDiskErr ==>
      dp.Valid() && dp.chain == old(dp.chain) && dp.fs.Logical() == old(dp.fs.Logical())
    ensures res != FrDiskErr ==> (res == FrOk <==> HasEntry(dp.fs.g, dp.chain, k))
    ensures res == FrOk ==> dp.At(k)
  {
    hide Geometry.WellFormed, FatBytes, TableOf, FreeCount, Overlay, Mirrored, Wrote, MediumOk, Fatfs.Valid,
      Fatfs.Logical, Fatfs.CopiesAgree, Linked, Locate, HasEntry, Full, CountOk, WriteOrderOk, Stretched;
    res := DirSdi(dp, 0);
    if res == FrIntErr { EntriesBelow(dp.fs.g, dp.chain, 0, k); }
    if res != FrOk { return; }
    var i: dword := 0;
    while i < k
      invariant i <= k && res == FrOk && dp.Valid() && !dp.BadStart() && dp.At(i)
      invariant dp.chain == old(dp.chain) && dp.fs.Logical() == old(dp.fs.Logical())
    {
      res := DirNext(dp, false);
      if res != FrOk {
        if res == FrNoFile { EntriesBelow(dp.fs.g, dp.chain, i + 1, k); }
        return;
      }
      i := i + 1;
    }
  }

  /** Entries have no gaps. */
  lemma EntriesBelow(g: Geometry, chain: Chain, i: int, k: int)
    requires SectorSize(g.ss) && ClusterSize(g.csize) && 0 <= i <= k && !HasEntry(g, chain, i)
    ensures !HasEntry(g, chain, k)
  {
  }

  // ---------- entries ----------

  /** The 32 bytes of entry k on a medium; nothing where there is no entry. */
  ghost function Entry(g: Geometry, chain: Chain, d: Medium, k: int): seq<byte>
    requires SectorSize(g.ss) && ClusterSize(g.csize)
  {
    if !HasEntry(g, chain, k) then []
    else
      var (_, s, o) := Locate(g, chain, k);
      if 0 <= s < |d| && 0 <= o && o + 32 <= |d[s]| then d[s][o..o + 32] else []
  }

  ghost predicate Free(g: Geometry, chain: Chain, d: Medium, k: int)
    requires SectorSize(g.ss) && ClusterSize(g.csize)
  {
    |Entry(g, chain, d, k)| == 32 && (Entry(g, chain, d, k)[0] == 0xE5 || Entry(g, chain, d, k)[0] == 0)
  }

  /** All entries of the table are where and what they were. */
  ghost predicate EntriesKept(g: Geometry, chain: Chain, chain': Chain, d: Medium, d': Medium)
    requires SectorSize(g.ss) && ClusterSize(g.csize)
  {
    forall k :: HasEntry(g, chain, k) ==>
      HasEntry(g, chain', k) && Locate(g, chain', k) == Locate(g, chain, k)
      && Entry(g, chain', d', k) == Entry(g, chain, d, k)
  }

  /** The n entries up to and including entry j are free. */
  ghost predicate FreeRun(g: Geometry, chain: Chain, d: Medium, j: int, n: int)
    requires SectorSize(g.ss) && ClusterSize(g.csize)
  {
    n <= j + 1 && forall i :: j - n < i <= j ==> Free(g, chain, d, i)
  }

  /** No run of n free entries ends before entry k. */
  ghost predicate NoRunBefore(g: Geometry, chain: Chain, d: Medium, k: int, n: int)
    requires SectorSize(g.ss) && ClusterSize(g.csize)
  {
    forall j :: 0 <= j < k ==> !FreeRun(g, chain, d, j, n)
  }

  /** Exactly the last n entries before entry k are free, and that is fewer than wanted. */
  ghost predicate Counting(g: Geometry, chain: Chain, d: Medium, k: int, n: int, wanted: int)
    requires SectorSize(g.ss) && ClusterSize(g.csize)
  {
    && 0 <= n <= k && n < wanted && NoRunBefore(g, chain, d, k, wanted)
    && (forall i :: k - n <= i < k ==> Free(g, chain, d, i))
    && (n < k ==> !Free(g, chain, d, k - n - 1))
  }

  lemma CountFree(g: Geometry, chain: Chain, d: Medium, k: int, n: int, wanted: int)
    requires SectorSize(g.ss) && ClusterSize(g.csize) && Counting(g, chain, d, k, n, wanted) && Free(g, chain, d, k)
    ensures n + 1 <= wanted
    ensures n + 1 == wanted ==> FreeRun(g, chain, d, k, wanted) && NoRunBefore(g, chain, d, k, wanted)
    ensures n + 1 < wanted ==> Counting(g, chain, d, k + 1, n + 1, wanted)
  {
    hide Free;
    if n < k {
      var before := Free(g, chain, d, k - n - 1);
      assert n + 1 < wanted ==> !FreeRun(g, chain, d, k, wanted);
    }
  }

  lemma CountUsed(g: Geometry, chain: Chain, d: Medium, k: int, n: int, wanted: int)
    requires SectorSize(g.ss) && ClusterSize(g.csize) && Counting(g, chain, d, k, n, wanted) && !Free(g, chain, d, k)
    ensures Counting(g, chain, d, k + 1, 0, wanted)
  {
    hide Free;
    assert !FreeRun(g, chain, d, k, wanted);
  }

  /** Outside the FAT, d' is d with the clusters that chain' adds to chain blank. */
  ghost predicate Grew(g: Geometry, chain: Chain, chain': Chain, d: Medium, d': Medium)
    requires ClusterSize(g.csize)
  {
    && chain <= chain' && |d'| == |d|
    && forall s :: 0 <= s < |d| && !g.InFat(s) ==>
         d'[s] == if InNew(g, chain, chain', s) then Blank(g.ss) else d[s]
  }

  ghost predicate InNew(g: Geometry, chain: Chain, chain': Chain, s: int)
    requires ClusterSize(g.csize) && chain <= chain'
  {
    g.InData(s) && g.ClusterOf(s) in chain'[|chain|..]
  }

  lemma GrewNot(g: Geometry, chain: Chain, d: Medium)
    requires ClusterSize(g.csize)
    ensures Grew(g, chain, chain, d, d)
  {
  }

  lemma GrewMore(g: Geometry, a: Chain, b: Chain, c: int, d: Medium, e: Medium, f: Medium)
    requires g.WellFormed() && Grew(g, a, b, d, e) && 0 <= c && g.IsCluster(c) && ClearedCluster(g, e, f, c)
    ensures Grew(g, a, b + [c], d, f)
  {
    var b' := b + [c as nat];
    assert b'[|a|..] == b[|a|..] + [c as nat];
    forall s | 0 <= s < |d| && !g.InFat(s) ensures f[s] == if InNew(g, a, b', s) then Blank(g.ss) else d[s] {
      SectorsOfCluster(g, c, s);
      assert e[s] == if InNew(g, a, b, s) then Blank(g.ss) else d[s];
    }
  }

  lemma SectorsOfCluster(g: Geometry, c: int, s: int)
    requires g.WellFormed() && g.IsCluster(c)
    ensures g.SectorOf(c, 0) <= s < g.SectorOf(c, 0) + g.csize <==> g.InData(s) && g.ClusterOf(s) == c
  {
    if g.InData(s) { g.ClusterInSector(s); }
    if g.SectorOf(c, 0) <= s < g.SectorOf(c, 0) + g.csize { g.SectorInCluster(c, s - g.SectorOf(c, 0)); }
  }

  /** A table without a chain, or with one that is among the chains of the volume. */
  ghost predicate TableChain(g: Geometry, t: Table, others: set<Chain>, chain: Chain, start: int) {
    chain != [] ==> Linked(g, t, others, chain, start)
  }

  /** Stretching keeps every existing entry. */
  lemma EntryKept(g: Geometry, t': Table, others: set<Chain>, chain: Chain, chain': Chain, start: int,
                  d: Medium, d': Medium, k: int)
    requires g.WellFormed() && TableChain(g, t', others, chain', start) && (chain == [] ==> chain' == [])
    requires Grew(g, chain, chain', d, d') && MediumOk(d, g) && HasEntry(g, chain, k)
    ensures HasEntry(g, chain', k) && Locate(g, chain', k) == Locate(g, chain, k)
    ensures Entry(g, chain', d', k) == Entry(g, chain, d, k) && |Entry(g, chain, d, k)| == 32
  {
    EntryInSector(k, g.ss);
    if chain == [] {
      StaticEntry(g, k);
      RootSector(g, d, k);
    } else {
      LongerTable(g, chain, chain', k);
      OldSector(g, t', others, chain, chain', start, d, EDiv(k, g.ss));
    }
  }

  lemma RootSector(g: Geometry, d: Medium, k: int)
    requires MediumOk(d, g) && 0 <= k < g.nRootdir
    ensures var s := g.dirbase + EDiv(k, g.ss);
            0 <= s < |d| && !g.InFat(s) && !g.InMirror(s) && !g.InData(s) && |d[s]| == g.ss
  {
  }

  /** A sector of the table before it grew is not in a new cluster. */
  lemma OldSector(g: Geometry, t': Table, others: set<Chain>, chain: Chain, chain': Chain, start: int, d: Medium,
      j: int)
    requires Linked(g, t', others, chain', start) && chain != [] && chain <= chain' && MediumOk(d, g)
    requires 0 <= j < Span(g, chain)
    ensures var s := SectorNo(g, chain, j);
            0 <= s < |d| && !g.InFat(s) && !g.InMirror(s) && !InNew(g, chain, chain', s) && |d[s]| == g.ss
  {
    hide Forest, IsChain, SectorNo, Span, Geometry.InData, Geometry.InFat, Geometry.InMirror;
    OldRange(g, chain, chain');
    SectorPlace(g, chain, j);
    OldApart(t', chain, chain', CDiv(j, g.csize));
    NotFat(g, d, SectorNo(g, chain, j));
  }

  lemma OldRange(g: Geometry, chain: Chain, chain': Chain)
    requires InRange(g, chain') && chain <= chain'
    ensures InRange(g, chain)
  {
  }

  lemma OldApart(t: Table, chain: Chain, chain': Chain, i: nat)
    requires IsChain(t, chain') && chain <= chain' && i < |chain|
    ensures chain[i] !in chain'[|chain|..]
  {
    if chain[i] in chain'[|chain|..] {
      var m :| 0 <= m < |chain'| - |chain| && chain'[|chain|..][m] == chain[i];
      NoRepeat(t, chain', i, |chain| + m);
    }
  }

  /** The count of free entries goes on when the table grows. */
  lemma CountingKept(g: Geometry, chain: Chain, chain': Chain, d: Medium, d': Medium, k: int, n: int, wanted: int)
    requires SectorSize(g.ss) && ClusterSize(g.csize) && Counting(g, chain, d, k, n, wanted)
    requires EntriesKept(g, chain, chain', d, d') && forall i :: 0 <= i < k ==> HasEntry(g, chain, i)
    ensures Counting(g, chain', d', k, n, wanted)
  {
    hide HasEntry, Locate, Entry;
    forall i | 0 <= i < k ensures Free(g, chain', d', i) == Free(g, chain, d, i) {
      assert HasEntry(g, chain, i);
    }
    hide Free;
    forall j | 0 <= j < k ensures !FreeRun(g, chain', d', j, wanted) {
      assert !FreeRun(g, chain, d, j, wanted);
    }
  }

  // ---------- dir_alloc ----------

  /** The sector of an entry of the table. */
  lemma EntrySector(g: Geometry, t: Table, others: set<Chain>, chain: Chain, start: int, d: Medium, k: int)
    requires MediumOk(d, g) && TableChain(g, t, others, chain, start) && HasEntry(g, chain, k)
    ensures var (_, s, o) := Locate(g, chain, k);
            0 <= s < |d| && !g.InMirror(s) && 0 <= o && o + 32 <= |d[s]| == g.ss
            && Entry(g, chain, d, k) == d[s][o..o + 32]
  {
    EntryInSector(k, g.ss);
    if chain == [] {
      StaticEntry(g, k);
      RootSector(g, d, k);
    } else {
      OldSector(g, t, others, chain, chain, start, d, EDiv(k, g.ss));
    }
  }

  /** Bring the entry at the cursor into the window and test whether it is free. */
  method LookAt(dp: Dir) returns (res: FResult, free: bool)
    requires dp.Valid() && !dp.BadStart() && dp.At(dp.index as int)
    modifies dp.fs`winsect, dp.fs`wflag, dp.fs.drive, dp.fs.win
    ensures SameDisk(dp.fs) && (res != FrOk ==> res == FrDiskErr && !dp.fs.drive.reliable)
    ensures res == FrOk ==>
      && dp.fs.winsect == dp.sect && dp.ofs + 32 <= dp.fs.win.Length
      && dp.fs.win[dp.ofs..dp.ofs + 32] == Entry(dp.fs.g, dp.chain, dp.fs.Logical(), dp.index as int)
      && (free <==> Free(dp.fs.g, dp.chain, dp.fs.Logical(), dp.index as int))
  {
    hide Geometry.WellFormed, FatBytes, TableOf, Overlay, Mirrored, Wrote, MediumOk, Fatfs.CopiesAgree, Linked,
      SectorNo, Span, EDiv, EMod, Locate, HasEntry;
    ChainOfTable(dp);
    EntrySector(dp.fs.g, dp.fs.Table(), dp.others, dp.chain, dp.Start(), dp.fs.Logical(), dp.index as int);
    free := false;
    res := dp.fs.MoveWindow(dp.sect);
    if res != FrOk { return; }
    free := dp.fs.win[dp.ofs] == DDEM || dp.fs.win[dp.ofs] == 0;
  }

  /** What dir_alloc keeps: the table may have grown by blank clusters, all entries are as they were, and so is the
      rest of the volume outside the FAT. */
  twostate predicate Reserving(dp: Dir)
    reads dp`chain, dp`others, dp.fs`winsect, dp.fs`wflag, dp.fs`freeClust, dp.fs.drive, dp.fs.win
  {
    && old(dp.Valid()) && dp.Valid() && dp.others == old(dp.others)
    && SectorSize(dp.fs.g.ss) && ClusterSize(dp.fs.g.csize)
    && (old(dp.chain) == [] ==> dp.chain == [])
    && Grew(dp.fs.g, old(dp.chain), dp.chain, old(dp.fs.Logical()), dp.fs.Logical())
    && Promises(dp.fs)
  }

  lemma AllKept(g: Geometry, t': Table, others: set<Chain>, chain: Chain, chain': Chain, start: int, d: Medium,
      d': Medium)
    requires g.WellFormed() && SectorSize(g.ss) && ClusterSize(g.csize)
    requires TableChain(g, t', others, chain', start) && (chain == [] ==> chain' == [])
    requires Grew(g, chain, chain', d, d') && MediumOk(d, g)
    ensures EntriesKept(g, chain, chain', d, d')
  {
    hide Locate, HasEntry, Entry, Grew, TableChain, MediumOk, Geometry.WellFormed;
    forall k | HasEntry(g, chain, k)
      ensures HasEntry(g, chain', k) && Locate(g, chain', k) == Locate(g, chain, k)
              && Entry(g, chain', d', k) == Entry(g, chain, d, k)
    {
      EntryKept(g, t', others, chain, chain', start, d, d', k);
    }
  }

  /** Step to the next entry and go on counting. */
  method NextToReserve(dp: Dir, ghost n: int, ghost wanted: int) returns (res: FResult)
    requires dp.Valid() && !dp.BadStart() && dp.At(dp.index as int)
    requires Counting(dp.fs.g, dp.chain, dp.fs.Logical(), dp.index + 1, n, wanted)
    modifies dp`index, dp`clust, dp`sect, dp`ofs, dp`chain, dp.fs, dp.fs.drive, dp.fs.win
    ensures res == FrOk || res == FrNoFile || res == FrDenied || (res == FrDiskErr && !dp.fs.drive.reliable)
    ensures res != FrDiskErr ==> Reserving(dp)
    ensures res == FrOk ==>
      && old(dp.index) < 0xFFFF && dp.index == old(dp.index) + 1 && dp.At(dp.index as int)
      && Counting(dp.fs.g, dp.chain, dp.fs.Logical(), dp.index as int, n, wanted)
    ensures res == FrNoFile || res == FrDenied ==>
      && dp.chain == old(dp.chain) && dp.fs.Logical() == old(dp.fs.Logical())
      && NothingReserved(dp, old(dp.index) + 1, wanted)
  {
    hide Geometry.WellFormed, FatBytes, TableOf, FreeCount, Overlay, Mirrored, Wrote, MediumOk, Fatfs.Valid,
      Fatfs.Logical, Fatfs.CopiesAgree, Linked, SectorNo, Span, EDiv, EMod, Locate, HasEntry, Full, CountOk,
      WriteOrderOk, Grew, Counting, EntriesKept, ClearedCluster, Zeroes, Taken, Cut, TableChain, NoRunBefore;
    ghost var g, d, chain, k := dp.fs.g, dp.fs.Logical(), dp.chain, dp.index as int;
    ChainOfTable(dp);
    GrewNot(g, chain, d);
    NoneYet(g, chain, d, k + 1, n, wanted);
    res := DirNext(dp, true);
    if res == FrDiskErr || res == FrNoFile || res == FrDenied { return; }
    if !HasEntry(g, chain, k + 1) { GrewMore(g, chain, chain, dp.chain[|dp.chain| - 1], d, d, dp.fs.Logical()); }
    IsTableChain(dp);
    AllKept(g, dp.fs.Table(), dp.others, chain, dp.chain, dp.Start(), d, dp.fs.Logical());
    AllBelow(g, chain, k);
    CountingKept(g, chain, dp.chain, d, dp.fs.Logical(), k + 1, n, wanted);
  }

  lemma NoneYet(g: Geometry, chain: Chain, d: Medium, k: int, n: int, wanted: int)
    requires SectorSize(g.ss) && ClusterSize(g.csize) && Counting(g, chain, d, k, n, wanted)
    ensures NoRunBefore(g, chain, d, k, wanted)
  {
  }

  lemma IsTableChain(dp: Dir)
    requires dp.Valid() && !dp.BadStart()
    ensures TableChain(dp.fs.g, dp.fs.Table(), dp.others, dp.chain, dp.Start())
  {
    ChainOfTable(dp);
  }

  lemma AllBelow(g: Geometry, chain: Chain, k: int)
    requires SectorSize(g.ss) && ClusterSize(g.csize) && HasEntry(g, chain, k)
    ensures forall i :: 0 <= i < k + 1 ==> HasEntry(g, chain, i)
  {
    forall i | 0 <= i < k + 1 ensures HasEntry(g, chain, i) {
      if !HasEntry(g, chain, i) { EntriesBelow(g, chain, i, k); }
    }
  }

  /** No run of free entries is long enough, and the table can grow no further: it has all the entries an index can
      name, it is static, or no cluster is free. */
  ghost predicate NothingReserved(dp: Dir, end: int, wanted: int)
    requires dp.fs.Valid()
    reads dp`chain, dp.fs`winsect, dp.fs`wflag, dp.fs.drive, dp.fs.win
  {
    && 0 < end <= 0x1_0000 && HasEntry(dp.fs.g, dp.chain, end - 1)
    && NoRunBefore(dp.fs.g, dp.chain, dp.fs.Logical(), end, wanted)
    && (end == 0x1_0000
        || (!HasEntry(dp.fs.g, dp.chain, end) && (dp.chain == [] || Full(dp.fs.Table()))))
  }

  /** Reserve nent consecutive entries: the cursor stops at the last entry of the first run of that many free ones,
      the table having been stretched if needed. */
  method DirAlloc(dp: Dir, nent: nat) returns (res: FResult)
    requires dp.Valid() && 1 <= nent
    modifies dp`index, dp`clust, dp`sect, dp`ofs, dp`chain, dp.fs, dp.fs.drive, dp.fs.win
    ensures res == FrOk || res == FrDenied || res == FrIntErr || (res == FrDiskErr && !dp.fs.drive.reliable)
    ensures res != FrDiskErr ==> Reserving(dp)
    ensures res != FrDiskErr ==> (res == FrIntErr <==> dp.BadStart() || !HasEntry(dp.fs.g, old(dp.chain), 0))
    ensures res == FrOk ==>
      && dp.At(dp.index as int)
      && FreeRun(dp.fs.g, dp.chain, dp.fs.Logical(), dp.index as int, nent)
      && NoRunBefore(dp.fs.g, dp.chain, dp.fs.Logical(), dp.index as int, nent)
      && dp.fs.winsect == dp.sect && dp.ofs + 32 <= dp.fs.win.Length
      && dp.fs.win[dp.ofs..dp.ofs + 32] == Entry(dp.fs.g, dp.chain, dp.fs.Logical(), dp.index as int)
    ensures res == FrDenied ==> exists end :: NothingReserved(dp, end, nent)
    ensures res != FrDiskErr && !dp.BadStart() ==>
      EntriesKept(dp.fs.g, old(dp.chain), dp.chain, old(dp.fs.Logical()), dp.fs.Logical())
  {
    hide Geometry.WellFormed, FatBytes, TableOf, FreeCount, Overlay, Mirrored, Wrote, MediumOk, Fatfs.Valid,
      Fatfs.Logical, Fatfs.CopiesAgree, Linked, SectorNo, Span, EDiv, EMod, Locate, HasEntry, Full, CountOk,
      WriteOrderOk, Grew, Counting, EntriesKept, FreeRun, NoRunBefore, Free, Entry, TableChain;
    ghost var g, chain, d := dp.fs.g, dp.chain, dp.fs.Logical();
    GrewNot(g, chain, d);
    res := DirSdi(dp, 0);
    if res == FrDiskErr { return; }
    SameDiskPromises(dp.fs);
    if res == FrOk {
      res := ReserveLoop(dp, nent);
    }
    if res == FrNoFile { res := FrDenied; }
    if res != FrDiskErr && !dp.BadStart() {
      IsTableChain(dp);
      AllKept(g, dp.fs.Table(), dp.others, chain, dp.chain, dp.Start(), d, dp.fs.Logical());
    }
  }

  lemma CountNothing(g: Geometry, chain: Chain, d: Medium, wanted: int)
    requires SectorSize(g.ss) && ClusterSize(g.csize) && 1 <= wanted
    ensures Counting(g, chain, d, 0, 0, wanted)
  {
  }

  lemma GrewAgain(g: Geometry, a: Chain, b: Chain, c: Chain, d: Medium, e: Medium, f: Medium)
    requires ClusterSize(g.csize) && Grew(g, a, b, d, e) && Grew(g, b, c, e, f)
    ensures Grew(g, a, c, d, f)
  {
    assert c[|a|..] == b[|a|..] + c[|b|..];
    forall s | 0 <= s < |d| && !g.InFat(s) ensures f[s] == if InNew(g, a, c, s) then Blank(g.ss) else d[s] {
      assert e[s] == if InNew(g, a, b, s) then Blank(g.ss) else d[s];
    }
  }

  /** One round: look at the current entry, stop if it completes a run, else move on. */
  method ReserveRound(dp: Dir, n0: nat, nent: nat) returns (res: FResult, done: bool, n: nat)
    requires dp.Valid() && !dp.BadStart() && dp.At(dp.index as int) && 1 <= nent
    requires Counting(dp.fs.g, dp.chain, dp.fs.Logical(), dp.index as int, n0, nent)
    modifies dp`index, dp`clust, dp`sect, dp`ofs, dp`chain, dp.fs, dp.fs.drive, dp.fs.win
    ensures res == FrOk || res == FrNoFile || res == FrDenied || (res == FrDiskErr && !dp.fs.drive.reliable)
    ensures res != FrDiskErr ==> Reserving(dp)
    ensures res == FrOk ==> dp.At(dp.index as int)
    ensures res == FrOk && done ==>
      && FreeRun(dp.fs.g, dp.chain, dp.fs.Logical(), dp.index as int, nent)
      && NoRunBefore(dp.fs.g, dp.chain, dp.fs.Logical(), dp.index as int, nent)
      && dp.fs.winsect == dp.sect && dp.ofs + 32 <= dp.fs.win.Length
      && dp.fs.win[dp.ofs..dp.ofs + 32] == Entry(dp.fs.g, dp.chain, dp.fs.Logical(), dp.index as int)
    ensures res == FrOk && !done ==>
      && old(dp.index) < 0xFFFF && dp.index == old(dp.index) + 1
      && Counting(dp.fs.g, dp.chain, dp.fs.Logical(), dp.index as int, n, nent)
    ensures res == FrNoFile || res == FrDenied ==> NothingReserved(dp, old(dp.index) + 1, nent)
  {
    hide Geometry.WellFormed, FatBytes, TableOf, FreeCount, Overlay, Mirrored, Wrote, MediumOk, Fatfs.Valid,
      Fatfs.Logical, Fatfs.CopiesAgree, Linked, SectorNo, Span, EDiv, EMod, Locate, HasEntry, Full, CountOk,
      WriteOrderOk, Grew, Counting, EntriesKept, FreeRun, NoRunBefore, Free, Entry, TableChain, NothingReserved;
    ghost var g, chain, d, k := dp.fs.g, dp.chain, dp.fs.Logical(), dp.index as int;
    GrewNot(g, chain, d);
    done, n := false, n0;
    var free;
    res, free := LookAt(dp);
    if res != FrOk { return; }
    SameDiskPromises(dp.fs);
    if free {
      CountFree(g, dp.chain, dp.fs.Logical(), k, n, nent);
      n := n + 1;
      if n == nent { done := true; return; }
    } else {
      CountUsed(g, dp.chain, dp.fs.Logical(), k, n, nent);
      n := 0;
    }
    res := NextToReserve(dp, n, nent);
  }

  /** The search loop of dir_alloc. */
  method ReserveLoop(dp: Dir, nent: nat) returns (res: FResult)
    requires dp.Valid() && !dp.BadStart() && dp.At(0) && 1 <= nent
    modifies dp`index, dp`clust, dp`sect, dp`ofs, dp`chain, dp.fs, dp.fs.drive, dp.fs.win
    ensures res == FrOk || res == FrNoFile || res == FrDenied || (res == FrDiskErr && !dp.fs.drive.reliable)
    ensures res != FrDiskErr ==> Reserving(dp)
    ensures res == FrOk ==>
      && dp.At(dp.index as int)
      && FreeRun(dp.fs.g, dp.chain, dp.fs.Logical(), dp.index as int, nent)
      && NoRunBefore(dp.fs.g, dp.chain, dp.fs.Logical(), dp.index as int, nent)
      && dp.fs.winsect == dp.sect && dp.ofs + 32 <= dp.fs.win.Length
      && dp.fs.win[dp.ofs..dp.ofs + 32] == Entry(dp.fs.g, dp.chain, dp.fs.Logical(), dp.index as int)
    ensures res == FrNoFile || res == FrDenied ==> exists end :: NothingReserved(dp, end, nent)
  {
    hide Geometry.WellFormed, FatBytes, TableOf, FreeCount, Overlay, Mirrored, Wrote, MediumOk, Fatfs.Valid,
      Fatfs.Logical, Fatfs.CopiesAgree, Linked, SectorNo, Span, EDiv, EMod, Locate, HasEntry, Full, CountOk,
      WriteOrderOk, Grew, Counting, EntriesKept, FreeRun, NoRunBefore, Free, Entry, TableChain, NothingReserved;
    ghost var g, chain, d := dp.fs.g, dp.chain, dp.fs.Logical();
    GrewNot(g, chain, d);
    CountNothing(g, chain, d, nent);
    NothingMoved(dp.fs);
    res := FrOk;
    var n: nat, done := 0, false;
    while !done
      invariant dp.At(dp.index as int) && !dp.BadStart() && Reserving(dp) && res == FrOk
      invariant !done ==> Counting(g, dp.chain, dp.fs.Logical(), dp.index as int, n, nent)
      invariant done ==>
        && FreeRun(g, dp.chain, dp.fs.Logical(), dp.index as int, nent)
        && NoRunBefore(g, dp.chain, dp.fs.Logical(), dp.index as int, nent)
        && dp.fs.winsect == dp.sect && dp.ofs + 32 <= dp.fs.win.Length
        && dp.fs.win[dp.ofs..dp.ofs + 32] == Entry(g, dp.chain, dp.fs.Logical(), dp.index as int)
      decreases !done, 0x1_0000 - dp.index
    {
      ghost var c, e := dp.chain, dp.fs.Logical();
      res, done, n := ReserveRound(dp, n, nent);
      if res != FrDiskErr { GrewAgain(g, chain, c, dp.chain, d, e, dp.fs.Logical()); }
      if res != FrOk { return; }
    }
  }
}
