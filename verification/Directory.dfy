/** The directory cursor: dir_sdi and dir_next. */
module Directory {
  import opened Bytes
  import opened Units
  import opened Layout
  import opened Disk
  import opened PackedTable
  import opened FatTable
  import opened LogicalDisk
  import opened Volume
  import opened FatAccess
  import opened Chains
  import opened Allocation
  import opened ClusterOps
  import opened FileData
  import opened FileCursor

  // ---------- where an entry lies ----------

  /** Entry k exists.  A table without a chain is the static root directory of FAT12/16. */
  ghost predicate HasEntry(g: Geometry, chain: Chain, k: int)
    requires SectorSize(g.ss) && ClusterSize(g.csize)
  {
    0 <= k && if chain == [] then k < g.nRootdir else EDiv(k, g.ss) < Span(g, chain)
  }

  /** Cluster, sector and offset in the sector of entry k. */
  ghost function Locate(g: Geometry, chain: Chain, k: int): (int, int, int)
    requires SectorSize(g.ss) && ClusterSize(g.csize) && HasEntry(g, chain, k)
  {
    EntryInSector(k, g.ss);
    var j := EDiv(k, g.ss);
    if chain == [] then (0, g.dirbase + j, 32 * EMod(k, g.ss))
    else
      SpanIndex(g, chain, j);
      (chain[CDiv(j, g.csize)], SectorNo(g, chain, j), 32 * EMod(k, g.ss))
  }

  lemma EntryInSector(k: int, ss: int)
    requires SectorSize(ss) && 0 <= k
    ensures 0 <= EDiv(k, ss) && 0 <= EMod(k, ss) && 32 * EMod(k, ss) + 32 <= ss
  {
  }

  /** The place of an entry in plain numbers: entry e of sector o of the i-th cluster of the table. */
  lemma PlaceIsPlain(g: Geometry, chain: Chain, k: nat, i: nat, o: nat, e: nat)
    requires SectorSize(g.ss) && ClusterSize(g.csize) && i < |chain| && o < g.csize && 32 * e + 32 <= g.ss
    requires 32 * k == (i * g.csize + o) * g.ss + 32 * e
    ensures HasEntry(g, chain, k)
    ensures Locate(g, chain, k) == (chain[i] as int, g.database + (chain[i] - 2) * g.csize + o, 32 * e)
  {
    var j := i * g.csize + o;
    ByUnitIsPlain(i, g.ss, g.csize);
    ByUnitIsPlain(j, g.ss, g.csize);
    ByUnitIsPlain(chain[i] as int - 2, g.ss, g.csize);
    EntrySlot(k, g.ss, j, e);
    hide SectorSize, EDiv, EMod, SMul;
    ClusterSplitUnique(j, g.csize, i, o);
    assert CMul(i + 1, g.csize) == CMul(i, g.csize) + g.csize;
    assert j < Span(g, chain);
  }

  /** The same for a static root directory: entry e of its sector o. */
  lemma RootPlaceIsPlain(g: Geometry, k: nat, o: nat, e: nat)
    requires SectorSize(g.ss) && ClusterSize(g.csize) && k < g.nRootdir && 32 * e + 32 <= g.ss
    requires 32 * k == o * g.ss + 32 * e
    ensures HasEntry(g, [], k) && Locate(g, [], k) == (0, g.dirbase + o, 32 * e)
  {
    ByUnitIsPlain(o, g.ss, g.csize);
    EntrySlot(k, g.ss, o, e);
    hide SectorSize, ClusterSize, EDiv, EMod, SMul;
  }

  lemma EntrySlot(k: nat, ss: int, j: nat, e: nat)
    requires SectorSize(ss) && 32 * e + 32 <= ss && 32 * k == SMul(j, ss) + 32 * e
    ensures EDiv(k, ss) == j && EMod(k, ss) == e
  {
  }

  /** How many entries there are, in plain numbers. */
  lemma EntriesArePlain(g: Geometry, chain: Chain, k: nat)
    requires SectorSize(g.ss) && ClusterSize(g.csize)
    ensures HasEntry(g, chain, k) <==> if chain == [] then k < g.nRootdir else 32 * k < |chain| * g.csize * g.ss
  {
    ByUnitIsPlain(|chain|, g.ss, g.csize);
    var n := |chain| * g.csize;
    ByUnitIsPlain(n, g.ss, g.csize);
    InSectors(k, n, g.ss);
    hide SectorSize, ClusterSize, EDiv, SMul, CMul;
  }

  lemma InSectors(k: nat, n: int, ss: int)
    requires SectorSize(ss)
    ensures EDiv(k, ss) < n <==> 32 * k < SMul(n, ss)
  {
  }

  /** The entry after entry k lies right behind it, or at the start of the next sector. */
  lemma NextEntry(k: int, ss: int)
    requires SectorSize(ss) && 0 <= k
    ensures 0 <= EMod(k + 1, ss)
    ensures if EMod(k + 1, ss) == 0 then EDiv(k + 1, ss) == EDiv(k, ss) + 1
            else EDiv(k + 1, ss) == EDiv(k, ss) && EMod(k + 1, ss) == EMod(k, ss) + 1
  {
  }

  /** A whole cluster of entries further on. */
  lemma ClusterOfEntries(k: int, ss: int, cs: int)
    requires SectorSize(ss) && ClusterSize(cs)
    ensures CMul(ss / 32, cs) > 0
    ensures EDiv(k - CMul(ss / 32, cs), ss) == EDiv(k, ss) - cs && EMod(k - CMul(ss / 32, cs), ss) == EMod(k, ss)
    ensures k < CMul(ss / 32, cs) <==> EDiv(k, ss) < cs
  {
    if cs <= 8 { FewSectors(k, ss, cs); } else { ManySectors(k, ss, cs); }
  }

  lemma FewSectors(k: int, ss: int, cs: int)
    requires SectorSize(ss) && ClusterSize(cs) && cs <= 8
    ensures CMul(ss / 32, cs) > 0
    ensures EDiv(k - CMul(ss / 32, cs), ss) == EDiv(k, ss) - cs && EMod(k - CMul(ss / 32, cs), ss) == EMod(k, ss)
    ensures k < CMul(ss / 32, cs) <==> EDiv(k, ss) < cs
  {
    if ss == 512 { } else if ss == 1024 { } else if ss == 2048 { } else { }
  }

  lemma ManySectors(k: int, ss: int, cs: int)
    requires SectorSize(ss) && ClusterSize(cs) && cs > 8
    ensures CMul(ss / 32, cs) > 0
    ensures EDiv(k - CMul(ss / 32, cs), ss) == EDiv(k, ss) - cs && EMod(k - CMul(ss / 32, cs), ss) == EMod(k, ss)
    ensures k < CMul(ss / 32, cs) <==> EDiv(k, ss) < cs
  {
    if ss == 512 { } else if ss == 1024 { } else if ss == 2048 { } else { }
  }

  // ---------- the cursor ----------

  class Dir {
    const fs: Fatfs
    /** Start cluster of the table, 0 for the root directory. */
    const sclust: dword
    var index: word
    var clust: dword
    var sect: dword
    /** Place of the entry in the window (the pointer dir of the source). */
    var ofs: nat
    /** The cluster chain of the table, empty for a static table, and the other chains of the volume. */
    ghost var chain: Chain
    ghost var others: set<Chain>

    /** Where the table starts: the root directory of FAT32 is an ordinary chain. */
    function Start(): dword {
      if sclust == 0 && fs.g.fsType == Fat32 then fs.g.dirbase else sclust
    }

    predicate BadStart() {
      sclust == 1 || sclust >= fs.g.nFatent
    }

    ghost predicate Valid()
      reads `chain, `others, fs`winsect, fs`wflag, fs.drive, fs.win
      ensures Valid() ==> fs.Valid()
    {
      && fs.Valid()
      && (if Start() == 0 then chain == []
          else !BadStart() ==> chain != [] && Linked(fs.g, fs.Table(), others, chain, Start()))
    }

    /** The cursor stands at entry k. */
    ghost predicate At(k: int)
      reads `clust, `sect, `ofs, `index, `chain
    {
      && SectorSize(fs.g.ss) && ClusterSize(fs.g.csize) && HasEntry(fs.g, chain, k)
      && index == k && (clust, sect, ofs) == Locate(fs.g, chain, k)
    }

    constructor (fs: Fatfs, sclust: dword, ghost chain: Chain, ghost others: set<Chain>)
      ensures this.fs == fs && this.sclust == sclust && this.chain == chain && this.others == others
    {
      this.fs, this.sclust := fs, sclust;
      this.index, this.clust, this.sect, this.ofs := 0, 0, 0, 0;
      this.chain, this.others := chain, others;
    }
  }

  /** Sector number j of the table, from its cluster. */
  lemma TableSector(g: Geometry, t: Table, others: set<Chain>, chain: Chain, start: int, i: int, o: int, clst: dword)
    requires g.WellFormed() && Linked(g, t, others, chain, start)
    requires 0 <= i < |chain| && clst == chain[i] && 0 <= o < g.csize
    ensures var j := CMul(i, g.csize) + o;
            && 0 <= j < Span(g, chain) && CDiv(j, g.csize) == i && SectorNo(g, chain, j) == g.ClustToSect(clst) + o
            && g.ClustToSect(clst) > 0 && g.InData(SectorNo(g, chain, j))
  {
    var j := CMul(i, g.csize) + o;
    ClusterSplitUnique(j, g.csize, i, o);
    assert CMul(i + 1, g.csize) == CMul(i, g.csize) + g.csize;
    assert j < Span(g, chain);
    SectorPlace(g, chain, j);
  }

  /** The walk of dir_sdi: cluster i, with left entries still to go. */
  ghost predicate Walking(g: Geometry, chain: Chain, i: int, clst: int, left: int, idx: int)
    requires SectorSize(g.ss) && ClusterSize(g.csize)
  {
    && 0 <= i < |chain| && clst == chain[i] && 0 <= left <= idx
    && EDiv(idx, g.ss) == CMul(i, g.csize) + EDiv(left, g.ss) && EMod(idx, g.ss) == EMod(left, g.ss)
  }

  lemma WalkStarts(g: Geometry, chain: Chain, idx: int)
    requires SectorSize(g.ss) && ClusterSize(g.csize) && chain != [] && 0 <= idx
    ensures Walking(g, chain, 0, chain[0], idx, idx)
  {
  }

  lemma WalkOn(g: Geometry, chain: Chain, i: int, clst: int, left: int, idx: int)
    requires SectorSize(g.ss) && ClusterSize(g.csize) && Walking(g, chain, i, clst, left, idx)
    requires left >= CMul(g.ss / 32, g.csize)
    ensures 0 < CMul(g.ss / 32, g.csize)
    ensures if i + 1 < |chain| then Walking(g, chain, i + 1, chain[i + 1], left - CMul(g.ss / 32, g.csize), idx)
            else !HasEntry(g, chain, idx)
  {
    ClusterOfEntries(left, g.ss, g.csize);
    var ic := CMul(g.ss / 32, g.csize);
    var a := CMul(i, g.csize);
    assert CMul(i + 1, g.csize) == a + g.csize;
    hide EDiv, EMod, CMul;
  }

  lemma WalkEnds(g: Geometry, t: Table, others: set<Chain>, chain: Chain, start: int,
                 i: int, clst: dword, left: int, idx: int)
    requires g.WellFormed() && Linked(g, t, others, chain, start) && Walking(g, chain, i, clst, left, idx)
    requires left < CMul(g.ss / 32, g.csize)
    ensures HasEntry(g, chain, idx)
    ensures Locate(g, chain, idx) == (clst as int, g.ClustToSect(clst) + EDiv(left, g.ss), 32 * EMod(left, g.ss))
    ensures g.ClustToSect(clst) > 0 && 0 <= EDiv(left, g.ss) && 0 <= EMod(left, g.ss)
    ensures g.ClustToSect(clst) + EDiv(left, g.ss) <= 0xFFFF_FFFF
  {
    hide EDiv, EMod, CMul, CDiv, CMod, SectorNo, Linked, Span, Geometry.ClustToSect;
    ClusterOfEntries(left, g.ss, g.csize);
    EntryInSector(left, g.ss);
    TableSector(g, t, others, chain, start, i, EDiv(left, g.ss), clst);
  }

  /** The walk of dir_sdi along the chain: the cluster of entry idx, and the entries left to go in it. */
  method WalkChain(dp: Dir, idx: dword) returns (res: FResult, clst: dword, left: dword, ghost i: int)
    requires dp.Valid() && !dp.BadStart() && dp.Start() != 0
    modifies dp.fs`winsect, dp.fs`wflag, dp.fs.drive, dp.fs.win
    ensures dp.Valid() && SameDisk(dp.fs)
    ensures res == FrOk || res == FrIntErr || (res == FrDiskErr && !dp.fs.drive.reliable)
    ensures res == FrIntErr ==> !HasEntry(dp.fs.g, dp.chain, idx)
    ensures res == FrOk ==>
      && Walking(dp.fs.g, dp.chain, i, clst, left, idx) && left < CMul(dp.fs.g.ss / 32, dp.fs.g.csize)
  {
    hide Geometry.WellFormed, FatBytes, TableOf, Overlay, Mirrored, Wrote, MediumOk, Fatfs.Valid, Fatfs.Logical,
      Fatfs.CopiesAgree, Linked, SectorNo, Span, CDiv, CMod, CMul, EDiv, EMod, Walking, Locate, Geometry.ClustToSect;
    ghost var g, t := dp.fs.g, dp.fs.Table();
    res, clst, left, i := FrOk, dp.Start(), idx, 0;
    WroteNothing(dp.fs.drive.history, g, {dp.fs.Fat()});
    var ic: int := CMul(dp.fs.g.ss / 32, dp.fs.g.csize);
    LinkedHead(g, t, dp.others, dp.chain, dp.Start());
    WalkStarts(g, dp.chain, idx);
    while left >= ic
      invariant dp.Valid() && SameDisk(dp.fs) && dp.fs.Table() == t && 0 <= i < |dp.chain| && res == FrOk
      invariant Walking(g, dp.chain, i, clst, left, idx)
      decreases |dp.chain| - i
    {
      WalkOn(g, dp.chain, i, clst, left, idx);
      WalkAt(g, dp.chain, i, clst, left, idx);
      LinkedNext(g, t, dp.others, dp.chain, dp.Start(), i);
      if i + 1 < |dp.chain| { LinkedNext(g, t, dp.others, dp.chain, dp.Start(), i + 1); }
      ghost var h := dp.fs.drive.history;
      clst := GetFat(dp.fs, clst);
      WroteThenWrote(old(dp.fs.drive.history), h, dp.fs.drive.history, g, {dp.fs.Fat()});
      if clst == DISK_ERROR { res := FrDiskErr; return; }
      if clst < 2 || clst >= dp.fs.g.nFatent { res := FrIntErr; return; }
      left := left - ic;
      i := i + 1;
    }
  }

  twostate lemma DiskAsBefore(fs: Fatfs)
    requires old(fs.Valid()) && fs.Valid() && fs.Logical() == old(fs.Logical())
    requires fs.drive.history == old(fs.drive.history) && (old(fs.CopiesAgree()) ==> fs.CopiesAgree())
    ensures SameDisk(fs)
  {
    hide Fatfs.Valid, Fatfs.Logical, Fatfs.CopiesAgree, FatBytes, Wrote, Overlay;
    WroteNothing(fs.drive.history, fs.g, {fs.Fat()});
  }

  /** Set the cursor to entry idx. */
  method DirSdi(dp: Dir, idx: dword) returns (res: FResult)
    requires dp.Valid()
    modifies dp`index, dp`clust, dp`sect, dp`ofs, dp.fs`winsect, dp.fs`wflag, dp.fs.drive, dp.fs.win
    ensures dp.Valid() && SameDisk(dp.fs) && dp.index == idx % 0x1_0000
    ensures res == FrDiskErr ==> !dp.fs.drive.reliable
    ensures dp.BadStart() ==> res == FrIntErr
    ensures res != FrDiskErr ==> res == if !dp.BadStart() && HasEntry(dp.fs.g, dp.chain, idx) then FrOk else FrIntErr
    ensures res == FrOk ==> (dp.clust as int, dp.sect as int, dp.ofs as int) == Locate(dp.fs.g, dp.chain, idx)
  {
    hide Geometry.WellFormed, FatBytes, TableOf, Overlay, Mirrored, Wrote, MediumOk, Fatfs.Valid, Fatfs.Logical,
      Fatfs.CopiesAgree, Linked, SectorNo, Span, CDiv, CMod, CMul, EDiv, EMod, Walking, Locate, HasEntry;
    dp.index := idx % 0x1_0000;
    res := PlaceCursor(dp, idx);
  }

  /** Find the cluster, the sector and the offset of entry idx. */
  method PlaceCursor(dp: Dir, idx: dword) returns (res: FResult)
    requires dp.Valid()
    modifies dp`clust, dp`sect, dp`ofs, dp.fs`winsect, dp.fs`wflag, dp.fs.drive, dp.fs.win
    ensures dp.Valid() && SameDisk(dp.fs)
    ensures res == FrDiskErr ==> !dp.fs.drive.reliable
    ensures dp.BadStart() ==> res == FrIntErr
    ensures res != FrDiskErr ==> res == if !dp.BadStart() && HasEntry(dp.fs.g, dp.chain, idx) then FrOk else FrIntErr
    ensures res == FrOk ==> (dp.clust as int, dp.sect as int, dp.ofs as int) == Locate(dp.fs.g, dp.chain, idx)
  {
    hide Geometry.WellFormed, FatBytes, TableOf, Overlay, Mirrored, Wrote, MediumOk, Fatfs.Valid, Fatfs.Logical,
      Fatfs.CopiesAgree, Linked, SectorNo, Span, CDiv, CMod, CMul, EDiv, EMod, Walking, Locate, HasEntry,
      Geometry.ClustToSect, SameDisk;
    ghost var g, t := dp.fs.g, dp.fs.Table();
    res := FrOk;
    DiskAsBefore(dp.fs);
    if dp.sclust == 1 || dp.sclust >= dp.fs.g.nFatent { res := FrIntErr; return; }
    var clst: dword := dp.Start();
    var sect: dword, left: dword := 0, idx;
    if clst == 0 {
      if idx >= dp.fs.g.nRootdir { StaticEnd(g, idx); res := FrIntErr; return; }
      StaticEntry(g, idx);
      sect := dp.fs.g.dirbase;
    } else {
      ghost var i;
      res, clst, left, i := WalkChain(dp, idx);
      if res != FrOk { return; }
      WalkEnds(g, t, dp.others, dp.chain, dp.Start(), i, clst, left, idx);
      sect := dp.fs.g.ClustToSect(clst);
    }
    dp.clust := clst;
    if sect == 0 { res := FrIntErr; return; }
    dp.sect := sect + EDiv(left, dp.fs.g.ss);
    dp.ofs := EMod(left, dp.fs.g.ss) * 32;
  }

  lemma WalkAt(g: Geometry, chain: Chain, i: int, clst: int, left: int, idx: int)
    requires SectorSize(g.ss) && ClusterSize(g.csize) && Walking(g, chain, i, clst, left, idx)
    ensures 0 <= i < |chain| && clst == chain[i]
  {
  }

  lemma StaticEntry(g: Geometry, k: int)
    requires g.WellFormed() && 0 <= k < g.nRootdir
    ensures HasEntry(g, [], k) && 0 < g.dirbase && 0 <= EDiv(k, g.ss) && 0 <= EMod(k, g.ss)
    ensures Locate(g, [], k) == (0, g.dirbase + EDiv(k, g.ss), 32 * EMod(k, g.ss))
    ensures g.dirbase + EDiv(k, g.ss) < g.database
  {
  }

  // ---------- stretching a table ----------

  /** e is d with n sectors from sect on blank. */
  ghost predicate Cleared(d: Medium, e: Medium, ss: nat, sect: int, n: int) {
    |e| == |d| && forall s :: 0 <= s < |d| ==> e[s] == if sect <= s < sect + n then Blank(ss) else d[s]
  }

  /** The medium as it shows while the window is clean, whatever the window holds. */
  ghost function Shown(g: Geometry, d: Medium): (r: Medium)
    ensures |r| == |d|
  {
    Overlay(g, d, 0, false, Blank(g.ss))
  }

  lemma CleanShows(g: Geometry, d: Medium, at: dword, w: Sector)
    ensures Overlay(g, d, at, false, w) == Shown(g, d)
  {
  }

  /** A blank window turned dirty over the next sector clears it on the logical disk, and no FAT byte. */
  lemma ClearNext(g: Geometry, d: Medium, e: Medium, sect: int, c: int, w: Sector)
    requires MediumOk(e, g) && w == Blank(g.ss) && Cleared(d, Shown(g, e), g.ss, sect, c)
    requires 0 <= c && g.InData(sect) && g.InData(sect + c)
    ensures 0 < sect + c < |e| && sect + c < 0xFFFF_FFFF && !g.InMirror(sect + c) && !g.InFat(sect + c)
    ensures var o := Overlay(g, e, sect + c, true, w);
            Cleared(d, o, g.ss, sect, c + 1) && MediumOk(o, g) && FatBytes(o, g) == FatBytes(e, g)
    ensures Mirrored(g, e, 0, false) ==> Mirrored(g, e, sect + c, true)
  {
    NotFat(g, e, sect + c);
    hide Geometry.WellFormed, FatBytes;
    SameFatSectors(e, Overlay(g, e, sect + c, true, w), g);
  }

  lemma NotFat(g: Geometry, e: Medium, s: int)
    requires MediumOk(e, g) && g.InData(s)
    ensures 0 < s < |e| && s < 0xFFFF_FFFF && !g.InMirror(s) && !g.InFat(s)
    ensures forall x :: g.InFat(x) ==> x != s && 0 <= x < |e| && !g.InMirror(x)
  {
  }

  lemma ClearedAll(g: Geometry, d: Medium, e: Medium, sect: int, n: int)
    requires MediumOk(e, g) && ClusterSize(g.csize) && 0 < n && g.InData(sect) && g.InData(sect + n - 1)
    requires Cleared(d, Shown(g, e), g.ss, sect, n)
    ensures sect + n <= |e| && forall s :: sect <= s < sect + n ==> e[s] == Blank(g.ss)
    ensures MediumOk(Shown(g, e), g) && FatBytes(Shown(g, e), g) == FatBytes(e, g)
  {
    NotFat(g, e, sect);
    NotFat(g, e, sect + n - 1);
    forall s | sect <= s < sect + n ensures e[s] == Blank(g.ss) {
      NotFat(g, e, s);
      assert Shown(g, e)[s] == e[s];
    }
    CleanFat(e, g, 0, Blank(g.ss));
  }

  /** Write the blank window over the c-th sector of the cluster. */
  method ClearSector(fs: Fatfs, ghost d: Medium, ghost sect: int, ghost c: int) returns (res: FResult)
    requires fs.drive.Valid() && fs.drive.ss == fs.g.ss && MediumOk(fs.drive.sectors, fs.g)
    requires fs.since < |fs.drive.history|
    requires fs.win.Length == fs.g.ss && fs.win[..] == Blank(fs.g.ss) && !fs.wflag && fs.winsect == sect + c && 0 <= c
    requires fs.g.InData(sect) && fs.g.InData(sect + c) && Cleared(d, Shown(fs.g, fs.drive.sectors), fs.g.ss, sect, c)
    modifies fs`wflag, fs.drive
    ensures fs.Valid() && (res != FrOk ==> res == FrDiskErr && !fs.drive.reliable)
    ensures res == FrOk ==>
      && !fs.wflag && |fs.drive.sectors| == |old(fs.drive.sectors)| && fs.winsect < 0xFFFF_FFFF
      && Cleared(d, Shown(fs.g, fs.drive.sectors), fs.g.ss, sect, c + 1)
      && FatBytes(fs.drive.sectors, fs.g) == old(FatBytes(fs.drive.sectors, fs.g))
      && Wrote(old(fs.drive.history), fs.drive.history, fs.g, {FatBytes(fs.drive.sectors, fs.g)})
    ensures fs.drive.reliable && old(Mirrored(fs.g, fs.drive.sectors, 0, false)) ==>
      fs.CopiesAgree() && (res == FrOk ==> Mirrored(fs.g, fs.drive.sectors, 0, false))
  {
    hide Geometry.WellFormed, FatBytes, TableOf, Overlay, Mirrored, Wrote, Cleared, Geometry.InData;
    ClearNext(fs.g, d, fs.drive.sectors, sect, c, fs.win[..]);
    fs.wflag := true;
    res := fs.SyncWindow();
    if res != FrOk { return; }
    CleanShows(fs.g, fs.drive.sectors, fs.winsect, fs.win[..]);
    CleanFat(fs.drive.sectors, fs.g, fs.winsect, fs.win[..]);
    SameMirror(fs.g, fs.drive.sectors, fs.winsect);
  }

  method ClearBuffer(win: array<byte>)
    modifies win
    ensures win[..] == Blank(win.Length)
  {
    MemSet(win, 0, win.Length);
  }

  /** The loop over the sectors of the cluster, the window already blank and on the first one. */
  method ClearSectors(fs: Fatfs, ghost d: Medium, ghost sect: int) returns (res: FResult)
    requires fs.drive.Valid() && fs.drive.ss == fs.g.ss && MediumOk(fs.drive.sectors, fs.g)
    requires fs.since < |fs.drive.history| && MediumOk(d, fs.g) && |fs.drive.sectors| == |d|
    requires fs.win.Length == fs.g.ss && fs.win[..] == Blank(fs.g.ss) && !fs.wflag && fs.winsect == sect
    requires fs.g.InData(sect) && fs.g.InData(sect + fs.g.csize - 1)
    requires Cleared(d, Shown(fs.g, fs.drive.sectors), fs.g.ss, sect, 0)
    requires FatBytes(fs.drive.sectors, fs.g) == FatBytes(d, fs.g)
    modifies fs`wflag, fs`winsect, fs.drive
    ensures res == FrOk || (res == FrDiskErr && !fs.drive.reliable && fs.Valid())
    ensures res == FrOk ==>
      && fs.drive.Valid() && MediumOk(fs.drive.sectors, fs.g) && |fs.drive.sectors| == |d|
      && fs.since < |fs.drive.history| && fs.winsect == sect + fs.g.csize && !fs.wflag
      && Cleared(d, Shown(fs.g, fs.drive.sectors), fs.g.ss, sect, fs.g.csize)
      && FatBytes(fs.drive.sectors, fs.g) == FatBytes(d, fs.g)
      && Wrote(old(fs.drive.history), fs.drive.history, fs.g, {FatBytes(d, fs.g)})
    ensures fs.drive.reliable && old(Mirrored(fs.g, fs.drive.sectors, 0, false)) ==>
      Mirrored(fs.g, fs.drive.sectors, 0, false)
  {
    hide Shown, Geometry.WellFormed, FatBytes, TableOf, Overlay, Mirrored, Wrote, Cleared, Geometry.InData;
    ghost var g, h := fs.g, fs.drive.history;
    res := FrOk;
    WroteNothing(h, g, {FatBytes(d, g)});
    var c: nat := 0;
    while c < fs.g.csize
      invariant res == FrOk && c <= g.csize && fs.winsect == sect + c && !fs.wflag && fs.win[..] == Blank(g.ss)
      invariant fs.drive.Valid() && MediumOk(fs.drive.sectors, g) && |fs.drive.sectors| == |d|
      invariant fs.since < |fs.drive.history|
      invariant Cleared(d, Shown(g, fs.drive.sectors), g.ss, sect, c)
      invariant FatBytes(fs.drive.sectors, g) == FatBytes(d, g)
      invariant Wrote(h, fs.drive.history, g, {FatBytes(d, g)})
      invariant fs.drive.reliable && old(Mirrored(g, fs.drive.sectors, 0, false)) ==>
        Mirrored(g, fs.drive.sectors, 0, false)
    {
      MidRun(g, sect, c);
      ghost var h1 := fs.drive.history;
      res := ClearSector(fs, d, sect, c);
      if res != FrOk { return; }
      WroteThenWrote(h, h1, fs.drive.history, g, {FatBytes(d, g)});
      fs.winsect := fs.winsect + 1;
      c := c + 1;
    }
  }

  /** Fill a new cluster with zeros through the window, and leave the window clean on its first sector. */
  method ClearCluster(fs: Fatfs, sect: dword) returns (res: FResult)
    requires fs.Valid() && !fs.wflag && fs.g.InData(sect) && fs.g.InData(sect + fs.g.csize - 1)
    modifies fs`winsect, fs`wflag, fs.drive, fs.win
    ensures fs.Valid() && (res != FrOk ==> res == FrDiskErr && !fs.drive.reliable)
    ensures res == FrOk ==>
      && !fs.wflag && fs.winsect == sect && fs.win[..] == Blank(fs.g.ss)
      && Cleared(old(fs.Logical()), fs.Logical(), fs.g.ss, sect, fs.g.csize)
      && sect + fs.g.csize <= |fs.drive.sectors|
      && (forall s :: sect <= s < sect + fs.g.csize ==> fs.drive.sectors[s] == Blank(fs.g.ss))
    ensures res == FrOk ==> fs.Fat() == old(fs.Fat())
    ensures res == FrOk ==> Wrote(old(fs.drive.history), fs.drive.history, fs.g, {fs.Fat()})
    ensures fs.drive.reliable && old(fs.CopiesAgree()) ==> fs.CopiesAgree()
  {
    hide Shown, Geometry.WellFormed, FatBytes, TableOf, Overlay, Mirrored, Wrote, Cleared, Geometry.InData;
    ghost var g, d := fs.g, fs.Logical();
    ClearedNone(g, fs.drive.sectors, fs.winsect, fs.win[..], sect);
    SameMirror(g, fs.drive.sectors, fs.winsect);
    ClearBuffer(fs.win);
    fs.winsect := sect;
    res := ClearSectors(fs, d, sect);
    if res != FrOk { return; }
    fs.winsect := fs.winsect - fs.g.csize;
    ClearedAll(g, d, fs.drive.sectors, sect, g.csize);
    MidRun(g, sect, 0);
    NotFat(g, fs.drive.sectors, sect);
    CleanShows(g, fs.drive.sectors, fs.winsect, fs.win[..]);
    SameMirror(g, fs.drive.sectors, fs.winsect);
  }

  lemma ClearedNone(g: Geometry, d: Medium, at: dword, w: Sector, sect: int)
    requires MediumOk(d, g)
    ensures Cleared(Overlay(g, d, at, false, w), Shown(g, d), g.ss, sect, 0)
    ensures FatBytes(d, g) == FatBytes(Overlay(g, d, at, false, w), g)
    ensures Mirrored(g, d, at, false) <==> Mirrored(g, d, 0, false)
  {
    CleanFat(d, g, at, w);
  }

  lemma SameMirror(g: Geometry, d: Medium, at: dword)
    ensures Mirrored(g, d, at, false) <==> Mirrored(g, d, 0, false)
  {
  }

  lemma MidRun(g: Geometry, sect: int, c: int)
    requires ClusterSize(g.csize) && g.InData(sect) && g.InData(sect + g.csize - 1) && 0 <= c < g.csize
    ensures g.InData(sect + c)
  {
  }

  /** The table has grown by one cluster that was free: it is linked at the end, every sector of it is zero on the
      medium, nothing else outside the FAT has changed, and the clean window stands on its first sector. */
  twostate predicate Stretched(dp: Dir)
    reads dp`chain, dp`others, dp.fs`winsect, dp.fs`wflag, dp.fs`freeClust, dp.fs.drive, dp.fs.win
  {
    && old(dp.fs.Valid()) && dp.fs.Valid() && dp.others == old(dp.others)
    && old(dp.chain) != [] && |dp.chain| == |old(dp.chain)| + 1
    && var c, last := dp.chain[|dp.chain| - 1], old(dp.chain)[|old(dp.chain)| - 1];
    && dp.chain == old(dp.chain) + [c]
    && dp.fs.g.IsCluster(c) && old(dp.fs.Table())[c] == 0 && dp.fs.g.IsCluster(last)
    && dp.fs.Table() == Taken(old(dp.fs.Table()), last, c, Cut(dp.fs.g.fsType, LAST_LINK))
    && ClearedCluster(dp.fs.g, old(dp.fs.Logical()), dp.fs.Logical(), c)
    && Zeroes(dp.fs.g, dp.fs.drive.sectors, c)
    && !dp.fs.wflag && dp.fs.winsect == dp.fs.g.SectorOf(c, 0) && dp.fs.win[..] == Blank(dp.fs.g.ss)
    && Promises(dp.fs)
  }

  /** Outside the FAT, e is d with cluster c blank. */
  ghost predicate ClearedCluster(g: Geometry, d: Medium, e: Medium, c: int)
    requires ClusterSize(g.csize)
  {
    && |e| == |d|
    && forall s :: 0 <= s < |d| && !g.InFat(s) ==>
         e[s] == if g.SectorOf(c, 0) <= s < g.SectorOf(c, 0) + g.csize then Blank(g.ss) else d[s]
  }

  /** Every sector of cluster c is zero on the medium. */
  ghost predicate Zeroes(g: Geometry, d: Medium, c: int)
    requires ClusterSize(g.csize)
  {
    forall s :: g.SectorOf(c, 0) <= s < g.SectorOf(c, 0) + g.csize ==> 0 <= s < |d| && d[s] == Blank(g.ss)
  }

  lemma ZeroesOn(g: Geometry, d: Medium, c: int)
    requires ClusterSize(g.csize) && 0 <= g.SectorOf(c, 0) && g.SectorOf(c, 0) + g.csize <= |d|
    requires forall s :: g.SectorOf(c, 0) <= s < g.SectorOf(c, 0) + g.csize ==> d[s] == Blank(g.ss)
    ensures Zeroes(g, d, c)
  {
  }

  lemma TakenThenCleared(g: Geometry, d: Medium, e: Medium, f: Medium, c: int)
    requires ClusterSize(g.csize) && SameOutsideFat(d, e, g) && Cleared(e, f, g.ss, g.SectorOf(c, 0), g.csize)
    ensures ClearedCluster(g, d, f, c)
  {
  }

  lemma NewTail(g: Geometry, t: Table, others: set<Chain>, chain: Chain, start: int, clst: nat, ncl: nat)
    requires g.WellFormed() && Linked(g, t, others, chain, start) && chain != []
    requires clst == chain[|chain| - 1] && g.IsCluster(ncl) && t[ncl] == 0
    ensures clst < |t| && ncl < |t| && chain + [ncl] != []
    ensures Linked(g, Taken(t, clst, ncl, Cut(g.fsType, LAST_LINK)), others, chain + [ncl], start)
    ensures InRange(g, chain + [ncl])
  {
    MarkIsLast(g);
    LinkedNext(g, t, others, chain, start, |chain| - 1);
    LinkedAppend(g, t, others, chain, start, ncl, Cut(g.fsType, LAST_LINK));
  }

  /** Link a free cluster to the end of the table; 0 when there is none. */
  method GrowTable(dp: Dir) returns (clst: dword)
    requires dp.Valid() && !dp.BadStart() && dp.chain != [] && dp.clust == dp.chain[|dp.chain| - 1]
    modifies dp.fs, dp.fs.drive, dp.fs.win
    ensures dp.fs.Valid() && (clst == DISK_ERROR ==> !dp.fs.drive.reliable)
    ensures clst == 0 ==> SameDisk(dp.fs) && Full(dp.fs.Table()) && Promises(dp.fs)
    ensures clst != 0 && clst != DISK_ERROR ==>
      && dp.fs.g.IsCluster(clst) && old(dp.fs.Table())[clst] == 0 && NeedsNew(old(dp.fs.Table()), dp.clust)
      && dp.fs.Table() == Taken(old(dp.fs.Table()), dp.clust, clst, Cut(dp.fs.g.fsType, LAST_LINK))
      && SameOutsideFat(old(dp.fs.Logical()), dp.fs.Logical(), dp.fs.g) && Promises(dp.fs)
  {
    hide Geometry.WellFormed, FatBytes, TableOf, FreeCount, Overlay, Mirrored, Wrote, MediumOk, Fatfs.Valid,
      Fatfs.Logical, Fatfs.CopiesAgree, Linked, Cut, Taken, FirstStop, NoLinkToFree, SafeHistory, CMul,
      SameOutsideFat, SearchStart;
    StartIsReal(dp);
    LinkedNoOnes(dp.fs.g, dp.fs.Table(), dp.others, dp.chain, dp.Start());
    LinkedNext(dp.fs.g, dp.fs.Table(), dp.others, dp.chain, dp.Start(), |dp.chain| - 1);
    clst := CreateChain(dp.fs, dp.clust);
  }

  /** Flush the window, then fill a cluster with zeros through it. */
  method FlushThenClear(fs: Fatfs, clst: dword) returns (res: FResult)
    requires fs.Valid() && fs.g.IsCluster(clst)
    modifies fs`winsect, fs`wflag, fs.drive, fs.win
    ensures fs.Valid() && (res != FrOk ==> res == FrDiskErr && !fs.drive.reliable)
    ensures res == FrOk ==>
      && !fs.wflag && fs.winsect == fs.g.SectorOf(clst, 0) && fs.win[..] == Blank(fs.g.ss)
      && Cleared(old(fs.Logical()), fs.Logical(), fs.g.ss, fs.g.SectorOf(clst, 0), fs.g.csize)
      && Zeroes(fs.g, fs.drive.sectors, clst) && fs.Table() == old(fs.Table()) && Promises(fs)
  {
    hide Geometry.WellFormed, FatBytes, TableOf, FreeCount, Overlay, Mirrored, Wrote, MediumOk, Fatfs.Valid,
      Fatfs.Logical, Fatfs.CopiesAgree, NoLinkToFree, SafeHistory, Cleared, Zeroes, CMul, Geometry.InData,
      Geometry.ClustToSect;
    ghost var g, d, h := fs.g, fs.Logical(), fs.drive.history;
    res := fs.SyncWindow();
    if res != FrOk { return; }
    g.SectorInCluster(clst, 0);
    ghost var h1 := fs.drive.history;
    res := ClearCluster(fs, fs.g.ClustToSect(clst));
    if res != FrOk { return; }
    SameBytesSameTable(d, fs.Logical(), g);
    WroteThenWrote(h, h1, fs.drive.history, g, {fs.Fat()});
    if g.fsType != Fat12 && old(WriteOrderOk(fs)) { StillSafe(h, fs.drive.history, g, d, fs.since); }
    ZeroesOn(g, fs.drive.sectors, clst);
  }

  /** Stretch the table by one cluster. */
  method StretchTable(dp: Dir) returns (res: FResult, clst: dword)
    requires dp.Valid() && !dp.BadStart() && dp.chain != [] && dp.clust == dp.chain[|dp.chain| - 1]
    modifies dp`chain, dp.fs, dp.fs.drive, dp.fs.win
    ensures res == FrOk || res == FrDenied || (res == FrDiskErr && !dp.fs.drive.reliable)
    ensures res == FrOk ==> dp.Valid() && Stretched(dp) && clst == dp.chain[|dp.chain| - 1]
    ensures res == FrDenied ==>
      dp.Valid() && SameDisk(dp.fs) && dp.chain == old(dp.chain) && Full(dp.fs.Table()) && Promises(dp.fs)
  {
    hide NeedsNew, SearchStart, Full, Geometry.WellFormed, FatBytes, TableOf, FreeCount, Overlay, Mirrored, Wrote,
      MediumOk, Fatfs.Valid, Fatfs.Logical, Fatfs.CopiesAgree, Linked, Cut, Taken, FirstStop, CountOk, WriteOrderOk,
      Cleared, Zeroes, ClearedCluster, CMul, Geometry.InData, Geometry.ClustToSect, SameOutsideFat;
    ghost var g, t, d := dp.fs.g, dp.fs.Table(), dp.fs.Logical();
    StartIsReal(dp);
    LinkedNext(g, t, dp.others, dp.chain, dp.Start(), |dp.chain| - 1);
    clst := GrowTable(dp);
    res := FrOk;
    if clst == 0 { res := FrDenied; return; }
    if clst == DISK_ERROR { res := FrDiskErr; return; }
    ghost var e := dp.fs.Logical();
    NewTail(g, t, dp.others, dp.chain, dp.Start(), dp.clust, clst);
    res := FlushThenClear(dp.fs, clst);
    if res != FrOk { return; }
    TakenThenCleared(g, d, e, dp.fs.Logical(), clst);
    dp.chain := dp.chain + [clst as nat];
  }

  lemma StartIsReal(dp: Dir)
    requires dp.Valid() && dp.chain != []
    ensures dp.Start() != 0
  {
  }

  // ---------- the next entry ----------

  /** The next sector of a table lies behind the last one, or starts the next cluster. */
  lemma NextSector(g: Geometry, chain: Chain, j: int)
    requires g.WellFormed() && InRange(g, chain) && 0 <= j < Span(g, chain)
    ensures 0 <= CDiv(j, g.csize) < |chain|
    ensures CMod(j + 1, g.csize) != 0 ==>
      j + 1 < Span(g, chain) && CDiv(j + 1, g.csize) == CDiv(j, g.csize)
      && SectorNo(g, chain, j + 1) == SectorNo(g, chain, j) + 1
    ensures CMod(j + 1, g.csize) == 0 ==>
      CDiv(j + 1, g.csize) == CDiv(j, g.csize) + 1
      && (j + 1 < Span(g, chain) <==> CDiv(j, g.csize) + 1 < |chain|)
    ensures CMod(j + 1, g.csize) == 0 && j + 1 < Span(g, chain) ==>
      SectorNo(g, chain, j + 1) == g.ClustToSect(chain[CDiv(j, g.csize) + 1])
    ensures g.InData(SectorNo(g, chain, j))
  {
    SpanIndex(g, chain, j);
    SectorPlace(g, chain, j);
    var i, o := CDiv(j, g.csize), CMod(j, g.csize);
    ClusterSplit(j, g.csize);
    var a := CMul(i, g.csize);
    assert CMul(i + 1, g.csize) == a + g.csize;
    if o + 1 < g.csize {
      NextInCluster(g, chain, j);
    } else {
      ClusterSplitUnique(j + 1, g.csize, i + 1, 0);
      AtClusterEnd(g, chain, i + 1);
    }
  }

  lemma NextInCluster(g: Geometry, chain: Chain, j: int)
    requires g.WellFormed() && ClusterSize(g.csize) && InRange(g, chain)
    requires 0 <= j < Span(g, chain) && CMod(j, g.csize) + 1 < g.csize
    ensures j + 1 < Span(g, chain) && CMod(j + 1, g.csize) != 0 && CDiv(j + 1, g.csize) == CDiv(j, g.csize)
    ensures SectorNo(g, chain, j + 1) == SectorNo(g, chain, j) + 1
  {
    hide Geometry.WellFormed, SectorNo, Span;
    RunPlace(g, chain, j, 2);
    ClusterSplit(j, g.csize);
    ClusterSplitUnique(j + 1, g.csize, CDiv(j, g.csize), CMod(j, g.csize) + 1);
  }

  lemma AtClusterEnd(g: Geometry, chain: Chain, i: int)
    requires g.WellFormed() && InRange(g, chain) && 0 < i <= |chain|
    ensures CMul(i, g.csize) < Span(g, chain) <==> i < |chain|
    ensures i < |chain| ==> SectorNo(g, chain, CMul(i, g.csize)) == g.ClustToSect(chain[i])
  {
    ClusterSplitUnique(CMul(i, g.csize), g.csize, i, 0);
    assert CMul(i, g.csize) < CMul(|chain|, g.csize) <==> i < |chain| by { CMulOrder(i, |chain|, g.csize); }
  }

  /** What the location of entry k says about the location of entry k + 1. */
  lemma AfterEntry(g: Geometry, chain: Chain, k: int)
    requires g.WellFormed() && HasEntry(g, chain, k) && InRange(g, chain)
    ensures var (c, s, o) := Locate(g, chain, k); var i := k + 1;
            && 0 <= s < 0xFFFF_FFFF && 0 <= EMod(i, g.ss)
            && (EMod(i, g.ss) != 0 ==> HasEntry(g, chain, i) && Locate(g, chain, i) == (c, s, 32 * EMod(i, g.ss)))
            && (EMod(i, g.ss) == 0 && chain == [] && i < g.nRootdir ==>
                  HasEntry(g, chain, i) && Locate(g, chain, i) == (c, s + 1, 32 * EMod(i, g.ss)))
            && (EMod(i, g.ss) == 0 && chain != [] && CMod(EDiv(i, g.ss), g.csize) != 0 ==>
                  HasEntry(g, chain, i) && Locate(g, chain, i) == (c, s + 1, 32 * EMod(i, g.ss)))
  {
    NextEntry(k, g.ss);
    EntryInSector(k, g.ss);
    EntryInSector(k + 1, g.ss);
    if chain == [] {
      StaticNext(g, k);
    } else {
      NextSector(g, chain, EDiv(k, g.ss));
    }
  }

  lemma StaticNext(g: Geometry, k: int)
    requires g.WellFormed() && 0 <= k < g.nRootdir
    ensures EMod(k + 1, g.ss) != 0 ==> k + 1 < g.nRootdir
    ensures EDiv(k, g.ss) < g.RootSectors()
  {
  }

  /** At the start of a cluster the next entry exists exactly if the chain goes on. */
  lemma AfterCluster(g: Geometry, chain: Chain, k: int)
    requires g.WellFormed() && chain != [] && HasEntry(g, chain, k) && InRange(g, chain)
    requires EMod(k + 1, g.ss) == 0 && CMod(EDiv(k + 1, g.ss), g.csize) == 0
    ensures var i := CDiv(EDiv(k, g.ss), g.csize);
            && 0 <= i < |chain| && Locate(g, chain, k).0 == chain[i]
            && (HasEntry(g, chain, k + 1) <==> i + 1 < |chain|)
            && (i + 1 < |chain| ==>
                  Locate(g, chain, k + 1) == (chain[i + 1], g.ClustToSect(chain[i + 1]) as int, 0))
  {
    NextEntry(k, g.ss);
    EntryInSector(k, g.ss);
    NextSector(g, chain, EDiv(k, g.ss));
    hide EDiv, CDiv, CMod, SectorNo, Span, Geometry.WellFormed, Geometry.ClustToSect;
  }

  lemma ChainOfTable(dp: Dir)
    requires dp.Valid() && !dp.BadStart()
    ensures dp.chain == [] <==> dp.Start() == 0
    ensures dp.chain != [] ==> Linked(dp.fs.g, dp.fs.Table(), dp.others, dp.chain, dp.Start())
    ensures InRange(dp.fs.g, dp.chain)
  {
  }

  /** A longer chain has the same entries first. */
  lemma LongerTable(g: Geometry, chain: Chain, chain': Chain, k: int)
    requires SectorSize(g.ss) && ClusterSize(g.csize) && chain != [] && chain <= chain' && HasEntry(g, chain, k)
    ensures HasEntry(g, chain', k) && Locate(g, chain', k) == Locate(g, chain, k)
  {
    EntryInSector(k, g.ss);
    SpanGrows(g, chain, chain');
    SamePlace(g, chain, chain', EDiv(k, g.ss));
    SpanIndex(g, chain, EDiv(k, g.ss));
  }

  /** The cluster after the current one, stretching the table at its end if asked to. */
  method NextTableCluster(dp: Dir, stretch: bool, ghost k: int) returns (res: FResult, clst: dword)
    requires dp.Valid() && !dp.BadStart() && dp.chain != [] && HasEntry(dp.fs.g, dp.chain, k)
    requires dp.clust as int == Locate(dp.fs.g, dp.chain, k).0
    requires EMod(k + 1, dp.fs.g.ss) == 0 && CMod(EDiv(k + 1, dp.fs.g.ss), dp.fs.g.csize) == 0
    modifies dp`chain, dp.fs, dp.fs.drive, dp.fs.win
    ensures res == FrOk || res == FrNoFile || res == FrDenied || (res == FrDiskErr && !dp.fs.drive.reliable)
    ensures res != FrDiskErr ==> dp.Valid() && Promises(dp.fs)
    ensures res == FrNoFile ==>
      SameDisk(dp.fs) && dp.chain == old(dp.chain) && !stretch && !HasEntry(dp.fs.g, dp.chain, k + 1)
    ensures res == FrDenied ==>
      && SameDisk(dp.fs) && dp.chain == old(dp.chain) && stretch && !HasEntry(dp.fs.g, dp.chain, k + 1)
      && Full(dp.fs.Table())
    ensures res == FrOk ==>
      && HasEntry(dp.fs.g, dp.chain, k + 1)
      && Locate(dp.fs.g, dp.chain, k + 1) == (clst as int, dp.fs.g.ClustToSect(clst) as int, 0)
    ensures res == FrOk && HasEntry(dp.fs.g, old(dp.chain), k + 1) ==> SameDisk(dp.fs) && dp.chain == old(dp.chain)
    ensures res == FrOk && !HasEntry(dp.fs.g, old(dp.chain), k + 1) ==> stretch && Stretched(dp)
  {
    hide Geometry.WellFormed, FatBytes, TableOf, FreeCount, Overlay, Mirrored, Wrote, MediumOk, Fatfs.Valid,
      Fatfs.Logical, Fatfs.CopiesAgree, Linked, SectorNo, Span, CDiv, CMod, CMul, EDiv, EMod, Locate, HasEntry, Full,
      Geometry.ClustToSect, CountOk, WriteOrderOk, ClearedCluster, Zeroes, Taken, Cut;
    ghost var g, t, chain := dp.fs.g, dp.fs.Table(), dp.chain;
    ChainOfTable(dp);
    AfterCluster(g, dp.chain, k);
    ghost var j := CDiv(EDiv(k, g.ss), g.csize);
    LinkedNext(g, t, dp.others, dp.chain, dp.Start(), j);
    if j + 1 < |dp.chain| { LinkedNext(g, t, dp.others, dp.chain, dp.Start(), j + 1); }
    LinkedNoOnes(g, t, dp.others, dp.chain, dp.Start());
    res := FrOk;
    clst := GetFat(dp.fs, dp.clust);
    if clst <= 1 { res := FrIntErr; return; }
    if clst == DISK_ERROR { res := FrDiskErr; return; }
    SameDiskPromises(dp.fs);
    if clst >= dp.fs.g.nFatent {
      if !stretch { res := FrNoFile; return; }
      ghost var h := dp.fs.drive.history;
      res, clst := StretchTable(dp);
      if res == FrDenied {
        WroteThenWrote(old(dp.fs.drive.history), h, dp.fs.drive.history, g, {dp.fs.Fat()});
      }
      if res != FrOk { return; }
      LongerTable(g, chain, dp.chain, k);
      ChainOfTable(dp);
      AfterCluster(g, dp.chain, k);
    }
  }

  /** At a sector boundary: move to the sector of the next entry, stretching the table if asked to. */
  method NextTableSector(dp: Dir, stretch: bool, i: word) returns (res: FResult)
    requires dp.Valid() && !dp.BadStart() && 0 < i && dp.At(i as int - 1) && dp.sect != 0
    requires EMod(i as int, dp.fs.g.ss) == 0
    modifies dp`clust, dp`sect, dp`chain, dp.fs, dp.fs.drive, dp.fs.win
    ensures res == FrOk || res == FrNoFile || res == FrDenied || (res == FrDiskErr && !dp.fs.drive.reliable)
    ensures res != FrDiskErr ==> dp.Valid() && Promises(dp.fs)
    ensures res == FrNoFile ==>
      && SameDisk(dp.fs) && dp.chain == old(dp.chain)
      && !HasEntry(dp.fs.g, dp.chain, i as int) && (!stretch || dp.chain == [])
    ensures res == FrDenied ==>
      && SameDisk(dp.fs) && dp.chain == old(dp.chain)
      && stretch && dp.chain != [] && !HasEntry(dp.fs.g, dp.chain, i as int) && Full(dp.fs.Table())
    ensures res == FrOk ==>
      HasEntry(dp.fs.g, dp.chain, i as int)
        && (dp.clust as int, dp.sect as int, 0) == Locate(dp.fs.g, dp.chain, i as int)
    ensures res == FrOk && HasEntry(dp.fs.g, old(dp.chain), i as int) ==> SameDisk(dp.fs) && dp.chain == old(dp.chain)
    ensures res == FrOk && !HasEntry(dp.fs.g, old(dp.chain), i as int) ==> stretch && Stretched(dp)
  {
    hide Forest, Dir.Valid, Geometry.WellFormed, FatBytes, TableOf, FreeCount, Overlay, Mirrored, Wrote,
      MediumOk, Fatfs.Valid, Fatfs.Logical, Fatfs.CopiesAgree, Linked, SectorNo, Span, CDiv, CMod, CMul, EDiv, EMod,
      Locate, HasEntry, Full, Geometry.ClustToSect, CountOk, WriteOrderOk, ClearedCluster, Zeroes, Taken, Cut;
    ghost var g, t, k := dp.fs.g, dp.fs.Table(), i as int - 1;
    ChainOfTable(dp);
    AfterEntry(g, dp.chain, k);
    res := FrOk;
    WroteNothing(dp.fs.drive.history, g, {dp.fs.Fat()});
    NothingMoved(dp.fs);
    dp.sect := dp.sect + 1;
    IsStatic(g, t, dp.others, dp.chain, dp.Start(), k);
    if dp.clust == 0 {
      if i as int >= dp.fs.g.nRootdir { StaticEnd(g, i as int); res := FrNoFile; }
    } else if CMod(EDiv(i as int, dp.fs.g.ss), dp.fs.g.csize) == 0 {
      var clst;
      res, clst := NextTableCluster(dp, stretch, k);
      if res != FrOk { return; }
      dp.clust := clst;
      dp.sect := dp.fs.g.ClustToSect(clst);
    }
  }

  /** Move the cursor to the next entry, stretching the table if asked to. */
  method DirNext(dp: Dir, stretch: bool) returns (res: FResult)
    requires dp.Valid() && !dp.BadStart() && dp.At(dp.index as int)
    modifies dp`index, dp`clust, dp`sect, dp`ofs, dp`chain, dp.fs, dp.fs.drive, dp.fs.win
    ensures res == FrOk || res == FrNoFile || res == FrDenied || (res == FrDiskErr && !dp.fs.drive.reliable)
    ensures res != FrDiskErr ==> dp.Valid() && Promises(dp.fs)
    ensures res == FrNoFile ==>
      && SameDisk(dp.fs) && dp.chain == old(dp.chain)
      && (old(dp.index) == 0xFFFF
          || (!HasEntry(dp.fs.g, dp.chain, old(dp.index) + 1) && (!stretch || dp.chain == [])))
    ensures res == FrDenied ==>
      && SameDisk(dp.fs) && dp.chain == old(dp.chain) && old(dp.index) < 0xFFFF
      && stretch && dp.chain != [] && !HasEntry(dp.fs.g, dp.chain, old(dp.index) + 1) && Full(dp.fs.Table())
    ensures res == FrOk ==> old(dp.index) < 0xFFFF && dp.At(old(dp.index) + 1)
    ensures res == FrOk && HasEntry(dp.fs.g, old(dp.chain), old(dp.index) + 1) ==>
      SameDisk(dp.fs) && dp.chain == old(dp.chain)
    ensures res == FrOk && !HasEntry(dp.fs.g, old(dp.chain), old(dp.index) + 1) ==> stretch && Stretched(dp)
  {
    hide Stretched, Forest, Dir.Valid, Geometry.WellFormed, FatBytes, TableOf, FreeCount, Overlay, Mirrored, Wrote,
      MediumOk, Fatfs.Valid, Fatfs.Logical, Fatfs.CopiesAgree, Linked, SectorNo, Span, CDiv, CMod, CMul, EDiv, EMod,
      Locate, HasEntry, Full, Geometry.ClustToSect, CountOk, WriteOrderOk, ClearedCluster, Zeroes, Taken, Cut;
    ghost var g, t, k := dp.fs.g, dp.fs.Table(), dp.index as int;
    ChainOfTable(dp);
    AfterEntry(g, dp.chain, k);
    res := FrOk;
    var i: int := dp.index as int + 1;
    WroteNothing(dp.fs.drive.history, g, {dp.fs.Fat()});
    NothingMoved(dp.fs);
    SectorIsReal(g, t, dp.others, dp.chain, dp.Start(), k);
    if i == 0x1_0000 || dp.sect == 0 { res := FrNoFile; return; }
    if EMod(i, dp.fs.g.ss) == 0 {
      res := NextTableSector(dp, stretch, i);
      if res != FrOk { return; }
    }
    dp.index := i;
    dp.ofs := EMod(i, dp.fs.g.ss) * 32;
  }

  lemma SectorIsReal(g: Geometry, t: Table, others: set<Chain>, chain: Chain, start: int, k: int)
    requires g.WellFormed() && HasEntry(g, chain, k) && (chain != [] ==> Linked(g, t, others, chain, start))
    ensures Locate(g, chain, k).1 != 0
  {
    if chain == [] {
      StaticEntry(g, k);
    } else {
      EntryInSector(k, g.ss);
      SectorPlace(g, chain, EDiv(k, g.ss));
    }
  }

  lemma IsStatic(g: Geometry, t: Table, others: set<Chain>, chain: Chain, start: int, k: int)
    requires g.WellFormed() && HasEntry(g, chain, k) && (chain != [] ==> Linked(g, t, others, chain, start))
    ensures Locate(g, chain, k).0 == 0 <==> chain == []
  {
    if chain != [] {
      EntryInSector(k, g.ss);
      SpanIndex(g, chain, EDiv(k, g.ss));
    }
  }

  lemma StaticEnd(g: Geometry, i: int)
    requires SectorSize(g.ss) && ClusterSize(g.csize) && g.nRootdir <= i
    ensures !HasEntry(g, [], i)
  {
  }
}
