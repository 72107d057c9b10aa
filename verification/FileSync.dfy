/** f_sync and sync_fs: what is on the medium after a file has been synchronized. */
module FileSync {
  import opened Bytes
  import opened Units
  import opened Layout
  import opened Disk
  import opened PackedTable
  import opened FatTable
  import opened LogicalDisk
  import opened Volume
  import opened FatAccess
  import opened Chains
  import opened Allocation
  import opened ClusterOps
  import opened DataAccess
  import opened LinkMap
  import opened FileData
  import opened FileCursor
  import opened Files
  import opened FileFrame
  import opened FileRead
  import opened FileWrite
  import BootSector

  const DIR_ATTR: nat := 11
  const DIR_LSTACCDATE: nat := 18
  const DIR_FSTCLUSHI: nat := 20
  const DIR_WRTTIME: nat := 22
  const DIR_FSTCLUSLO: nat := 26
  const DIR_FILESIZE: nat := 28

  // ---------- sync_fs ----------

  /** On FAT32 the FSINFO sector lies in the reserved area, before the FAT. */
  predicate InfoPlace(g: Geometry) {
    g.fsType == Fat32 ==> g.volbase + 1 < g.fatbase
  }

  /** Does sync_fs have to write the FSINFO sector? */
  predicate InfoDue(fs: Fatfs)
    reads fs`fsiFlag
  {
    fs.g.fsType == Fat32 && fs.fsiFlag == 1
  }

  /** FSINFO holds the allocation hints: the three signatures, the free count and the last cluster taken. */
  predicate InfoHolds(w: Sector, free: dword, last: dword) {
    && |w| >= 512 && w[510..512] == [0x55, 0xAA] && w[..4] == [0x52, 0x52, 0x61, 0x41]
    && w[484..488] == [0x72, 0x72, 0x41, 0x61] && LdDword(w, 488) == free && LdDword(w, 492) == last
  }

  method PutInfo(win: array<byte>, free: dword, last: dword)
    requires win.Length >= 512
    modifies win
    ensures InfoHolds(win[..], free, last)
  {
    MemSet(win, 0, win.Length);
    Put16(win, BootSector.BS_55AA, BootSector.SIGNATURE);
    Put32(win, BootSector.FSI_LEADSIG, 0x41615252);
    Put32(win, BootSector.FSI_STRUCSIG, 0x61417272);
    Put32(win, BootSector.FSI_FREE_COUNT, free);
    Put32(win, BootSector.FSI_NXT_FREE, last);
    InfoIsRead(win, free, last);
  }

  lemma InfoIsRead(win: array<byte>, free: dword, last: dword)
    requires win.Length >= 512 && Has16(win, BootSector.BS_55AA, BootSector.SIGNATURE)
    requires Has32(win, BootSector.FSI_LEADSIG, 0x41615252) && Has32(win, BootSector.FSI_STRUCSIG, 0x61417272)
    requires Has32(win, BootSector.FSI_FREE_COUNT, free) && Has32(win, BootSector.FSI_NXT_FREE, last)
    ensures InfoHolds(win[..], free, last)
  {
    hide Has16, Has32;
    Load16(win, BootSector.BS_55AA, BootSector.SIGNATURE);
    Load32(win, BootSector.FSI_LEADSIG, 0x41615252);
    Load32(win, BootSector.FSI_STRUCSIG, 0x61417272);
    Load32(win, BootSector.FSI_FREE_COUNT, free);
    Load32(win, BootSector.FSI_NXT_FREE, last);
  }

  /** A sector outside the FAT, written on a medium with a clean window. */
  lemma PlainWritten(g: Geometry, d: Medium, at: dword, w: Sector, s: int, w': Sector)
    requires MediumOk(d, g) && 0 <= s < |d| && !g.InFat(s) && !g.InMirror(s) && |w'| == g.ss
    ensures MediumOk(d[s := w'], g)
    ensures Overlay(g, d[s := w'], s, false, w') == Overlay(g, d, at, false, w)[s := w']
    ensures FatBytes(d[s := w'], g) == FatBytes(d, g)
    ensures Mirrored(g, d, at, false) ==> Mirrored(g, d[s := w'], s, false)
  {
    FatInRange(d, g);
    hide Geometry.WellFormed, FatBytes;
    SameFatSectors(d[s := w'], d, g);
  }

  lemma InfoSector(g: Geometry, d: Medium)
    requires MediumOk(d, g) && g.volbase + 1 < g.fatbase
    ensures g.volbase + 1 < |d| && !g.InFat(g.volbase + 1) && !g.InMirror(g.volbase + 1) && g.volbase + 1 < 0xFFFF_FFFF
    ensures 512 <= g.ss
  {
  }

  /** The logical disk after sync_fs: the FSINFO sector, if it was due, and nothing else. */
  twostate predicate InfoDueKept(fs: Fatfs)
    reads fs
    reads fs.drive, fs.win
  {
    && old(fs.Valid()) && fs.Valid() && |fs.Logical()| == |old(fs.Logical())|
    && (old(InfoDue(fs)) ==>
          fs.g.volbase + 1 < |fs.Logical()|
          && InfoHolds(fs.Logical()[fs.g.volbase + 1], fs.freeClust, fs.lastClust))
    && forall s :: 0 <= s < |fs.Logical()| && !(old(InfoDue(fs)) && s == fs.g.volbase + 1) ==>
         fs.Logical()[s] == old(fs.Logical())[s]
  }

  /** Write the hints into the FSINFO sector; a write error is ignored. */
  method WriteInfo(fs: Fatfs)
    requires fs.Valid() && !fs.wflag && fs.g.volbase + 1 < fs.g.fatbase
    modifies fs`winsect, fs`fsiFlag, fs.drive, fs.win
    ensures fs.drive.reliable ==>
      && fs.Valid() && Promises(fs) && fs.Table() == old(fs.Table())
      && fs.g.volbase + 1 < |old(fs.Logical())| && fs.win.Length == fs.g.ss
      && fs.Logical() == old(fs.Logical())[fs.g.volbase + 1 := fs.win[..]]
      && InfoHolds(fs.win[..], fs.freeClust, fs.lastClust)
    ensures fs.winsect == fs.g.volbase + 1
  {
    hide Geometry.WellFormed, FatBytes, TableOf, FreeCount, Overlay, Mirrored, NoLinkToFree, SafeHistory, InfoHolds;
    ghost var g, m, at, w, h, d := fs.g, fs.drive.sectors, fs.winsect, fs.win[..], fs.drive.history, fs.Logical();
    InfoSector(g, m);
    CleanFat(m, g, at, w);
    PutInfo(fs.win, fs.freeClust, fs.lastClust);
    PlainWritten(g, m, at, w, g.volbase + 1, fs.win[..]);
    fs.winsect := fs.g.volbase + 1;
    var ok := fs.drive.WriteSector(fs.win, fs.winsect);
    fs.fsiFlag := 0;
    if fs.drive.reliable {
      CleanFat(fs.drive.sectors, g, fs.winsect, fs.win[..]);
      SameBytesSameTable(fs.Logical(), d, g);
      if old(WriteOrderOk(fs)) { HistoryGrowsBy(h, fs.drive.sectors, g, d, fs.since); }
    }
  }

  /** Write the window back, and on FAT32 the FSINFO sector if the allocation has changed. */
  method SyncFs(fs: Fatfs) returns (res: FResult)
    requires fs.Valid() && InfoPlace(fs.g)
    modifies fs, fs.drive, fs.win
    ensures fs.drive.reliable ==> res == FrOk
    ensures fs.winsect == old(fs.winsect) || (fs.g.fsType == Fat32 && fs.winsect == fs.g.volbase + 1)
    ensures fs.drive.reliable ==>
      && fs.Valid() && !fs.wflag && Promises(fs) && fs.Table() == old(fs.Table())
      && fs.freeClust == old(fs.freeClust) && fs.lastClust == old(fs.lastClust)
      && InfoDueKept(fs)
  {
    hide Geometry.WellFormed, FatBytes, TableOf, FreeCount, Overlay, Mirrored, Wrote, NoLinkToFree, SafeHistory,
      InfoHolds, Fatfs.Valid, Fatfs.Logical, Fatfs.CopiesAgree, MediumOk;
    ghost var g, d, h := fs.g, fs.Logical(), fs.drive.history;
    res := fs.SyncWindow();
    if fs.drive.reliable && g.fsType != Fat12 && old(WriteOrderOk(fs)) {
      StillSafe(h, fs.drive.history, g, d, fs.since);
    }
    if res != FrOk { return; }
    if fs.g.fsType == Fat32 && fs.fsiFlag == 1 { WriteInfo(fs); }
  }

  lemma HistoryGrowsBy(h: seq<Medium>, m: Medium, g: Geometry, d: Medium, since: nat)
    requires SafeHistory(h, g, since) && MediumOk(m, g) && MediumOk(d, g) && FatBytes(m, g) == FatBytes(d, g)
    requires NoLinkToFree(TableOf(d, g))
    ensures SafeHistory(h + [m], g, since)
  {
    hide Geometry.WellFormed, FatBytes, NoLinkToFree, TableOf;
    SameBytesSameTable(m, d, g);
  }

  // ---------- the directory entry ----------

  /** Start cluster of an entry (ld_clust on FAT32). */
  function EntryCluster(w: Sector, ofs: nat): dword
    requires ofs + 32 <= |w|
  {
    (LdWord(w, ofs + DIR_FSTCLUSHI) as int) * 0x1_0000 + LdWord(w, ofs + DIR_FSTCLUSLO) as int
  }

  /** b with the archive bit, 0x20. */
  function WithArchive(b: byte): (r: byte)
    ensures r / 0x20 % 2 == 1 && r % 0x20 == b % 0x20 && r / 0x40 == b / 0x40
  {
    if b / 0x20 % 2 == 0 then b + 0x20 else b
  }

  /** The 32 bytes of an entry name a file of this size and start cluster. */
  predicate Names(e: seq<byte>, fsize: dword, sclust: dword) {
    && |e| == 32
    && e[26] as int + e[27] as int * 0x100 + e[20] as int * 0x1_0000 + e[21] as int * 0x100_0000 == sclust
    && e[28] as int + e[29] as int * 0x100 + e[30] as int * 0x1_0000 + e[31] as int * 0x100_0000 == fsize
  }

  lemma UpdatedNames(was: Sector, w: Sector, ofs: nat, fsize: dword, sclust: dword, time: dword)
    requires EntryUpdated(was, w, ofs, fsize, sclust, time)
    ensures Names(w[ofs..ofs + 32], fsize, sclust)
    ensures w[ofs + 11] / 0x20 % 2 == 1 && w[ofs + 11] % 0x20 == was[ofs + 11] % 0x20
      && w[ofs + 11] / 0x40 == was[ofs + 11] / 0x40
  {
    var e := w[ofs..ofs + 32];
    LittleEndian(w, ofs + 20);
    LittleEndian(w, ofs + 26);
    LittleEndian(w, ofs + 28);
    hide LdWord, LdDword;
  }

  /** What an entry names, read the way an open reads it. */
  lemma NamesRead(w: Sector, ofs: nat, fsize: dword, sclust: dword)
    requires ofs + 32 <= |w|
    ensures Names(w[ofs..ofs + 32], fsize, sclust)
            <==> LdDword(w, ofs + DIR_FILESIZE) == fsize && EntryCluster(w, ofs) == sclust
  {
    var e := w[ofs..ofs + 32];
    LittleEndian(w, ofs + 20);
    LittleEndian(w, ofs + 26);
    LittleEndian(w, ofs + 28);
    hide LdWord, LdDword;
  }

  /** w is was with the entry at ofs updated: archive bit, access date 0, start cluster, write time and size; its name,
      its creation time and all other entries as before. */
  ghost predicate EntryUpdated(was: Sector, w: Sector, ofs: nat, fsize: dword, sclust: dword, time: dword) {
    && |w| == |was| && ofs + 32 <= |w|
    && LdDword(w, ofs + 28) == fsize && LdWord(w, ofs + 26) as int + LdWord(w, ofs + 20) as int * 0x1_0000 == sclust
    && LdDword(w, ofs + 22) == time && LdWord(w, ofs + 18) == 0
    && w[ofs + 11] / 0x20 % 2 == 1 && w[ofs + 11] % 0x20 == was[ofs + 11] % 0x20
    && w[ofs + 11] / 0x40 == was[ofs + 11] / 0x40
    && (forall j :: 0 <= j < |w| && !(j == ofs + 11 || ofs + 18 <= j < ofs + 32) ==> w[j] == was[j])
  }

  method StoreEntry(win: array<byte>, ofs: nat, fsize: dword, sclust: dword, time: dword)
    requires ofs + 32 <= win.Length
    modifies win
    ensures EntryUpdated(old(win[..]), win[..], ofs, fsize, sclust, time)
  {
    Put8(win, ofs + DIR_ATTR, WithArchive(win[ofs + DIR_ATTR]));
    Put32(win, ofs + DIR_FILESIZE, fsize);
    StoreCluster(win, ofs, sclust);
    Put32(win, ofs + DIR_WRTTIME, time);
    Put16(win, ofs + DIR_LSTACCDATE, 0);
    EntryIsRead(win, ofs, fsize, sclust);
    Load32(win, ofs + DIR_WRTTIME, time);
    Load16(win, ofs + DIR_LSTACCDATE, 0);
  }

  /** st_clust */
  method StoreCluster(win: array<byte>, ofs: nat, cl: dword)
    requires ofs + 32 <= win.Length
    modifies win
    ensures Has16(win, ofs + DIR_FSTCLUSLO, cl) && Has16(win, ofs + DIR_FSTCLUSHI, cl / 0x1_0000)
    ensures forall j :: 0 <= j < win.Length && !(20 <= j - ofs < 22) && !(26 <= j - ofs < 28) ==> win[j] == old(win[j])
  {
    Put16(win, ofs + DIR_FSTCLUSLO, cl);
    Put16(win, ofs + DIR_FSTCLUSHI, cl / 0x1_0000);
  }

  lemma EntryIsRead(win: array<byte>, ofs: nat, fsize: dword, sclust: dword)
    requires ofs + 32 <= win.Length && Has32(win, ofs + DIR_FILESIZE, fsize)
    requires Has16(win, ofs + DIR_FSTCLUSLO, sclust) && Has16(win, ofs + DIR_FSTCLUSHI, sclust / 0x1_0000)
    ensures LdDword(win[..], ofs + DIR_FILESIZE) == fsize && EntryCluster(win[..], ofs) == sclust
  {
    Load32(win, ofs + DIR_FILESIZE, fsize);
    LowHalf(win, ofs + DIR_FSTCLUSLO, sclust);
    Load16(win, ofs + DIR_FSTCLUSHI, sclust / 0x1_0000);
    hide LdDword, LdWord, Has16, Has32;
  }

  lemma LowHalf(win: array<byte>, i: nat, v: dword)
    requires i + 1 < win.Length && Has16(win, i, v)
    ensures LdWord(win[..], i) as int == v % 0x1_0000
  {
    assert v % 0x1_0000 == v / 0x100 % 0x100 * 0x100 + v % 0x100;
  }

  /** Update a directory entry in the window. */
  method UpdateEntry(fs: Fatfs, sect: dword, ofs: nat, fsize: dword, sclust: dword, time: dword) returns (res: FResult)
    requires fs.Valid() && sect < |fs.drive.sectors| && !fs.g.InMirror(sect) && !fs.g.InFat(sect) && ofs + 32 <= fs.g.ss
    modifies fs`winsect, fs`wflag, fs.drive, fs.win
    ensures res != FrOk ==> !fs.drive.reliable
    ensures res == FrOk ==>
      && fs.Valid() && Promises(fs) && fs.Table() == old(fs.Table()) && fs.winsect == sect
      && sect < |old(fs.Logical())| && fs.Logical() == old(fs.Logical())[sect := fs.win[..]]
      && EntryUpdated(old(fs.Logical())[sect], fs.win[..], ofs, fsize, sclust, time)
    ensures res == FrOk ==>
      && ofs + 32 <= |old(fs.Logical())[sect]| && ofs + 32 <= fs.win.Length
      && fs.win[ofs + 11] / 0x20 % 2 == 1 && fs.win[ofs + 11] % 0x20 == old(fs.Logical())[sect][ofs + 11] % 0x20
      && fs.win[ofs + 11] / 0x40 == old(fs.Logical())[sect][ofs + 11] / 0x40
      && Names(fs.win[ofs..ofs + 32], fsize, sclust)
  {
    hide Geometry.WellFormed, FatBytes, TableOf, FreeCount, Overlay, Mirrored, Wrote, NoLinkToFree, SafeHistory,
      EntryUpdated;
    ghost var g, d, h := fs.g, fs.Logical(), fs.drive.history;
    res := fs.MoveWindow(sect);
    if res != FrOk { return; }
    if g.fsType != Fat12 && old(WriteOrderOk(fs)) { StillSafe(h, fs.drive.history, g, d, fs.since); }
    ghost var w, dirty := fs.win[..], fs.wflag;
    StoreEntry(fs.win, ofs, fsize, sclust, time);
    UpdatedNames(d[sect], fs.win[..], ofs, fsize, sclust, time);
    assert fs.win[..][ofs..ofs + 32] == fs.win[ofs..ofs + 32];
    OverlayStored(g, fs.drive.sectors, sect, dirty, w, fs.win[..]);
    fs.wflag := true;
    SameFat(g, d, fs.Logical(), sect, fs.win[..]);
    SameBytesSameTable(d, fs.Logical(), g);
    MirrorOff(g, fs.drive.sectors, sect, dirty);
  }

  lemma SameFat(g: Geometry, d: Medium, e: Medium, s: int, w: Sector)
    requires MediumOk(d, g) && MediumOk(e, g) && 0 <= s < |d| && e == d[s := w] && !g.InFat(s)
    ensures FatBytes(e, g) == FatBytes(d, g)
  {
    FatInRange(d, g);
    hide Geometry.WellFormed, FatBytes;
    SameFatSectors(d, e, g);
  }

  lemma MirrorOff(g: Geometry, d: Medium, s: int, dirty: bool)
    requires !g.InFat(s) && 0 <= s <= 0xFFFF_FFFF
    ensures Mirrored(g, d, s, dirty) ==> Mirrored(g, d, s, true)
  {
  }

  // ---------- f_sync ----------

  /** Sectors that are not the file's own may change under it. */
  lemma SameView(g: Geometry, t: Table, others: set<Chain>, chain: Chain, sclust: int, d: Medium, e: Medium,
                 dirty: bool, dsect: int, b: Sector)
    requires g.WellFormed() && Linked(g, t, others, chain, sclust) && InRange(g, chain)
    requires g.DataEnd() <= |d| && |e| == |d| && forall s :: 0 <= s < |d| && Own(g, others, s) ==> e[s] == d[s]
    ensures View(g, chain, e, dirty, dsect, b) == View(g, chain, d, dirty, dsect, b)
  {
    hide Geometry.WellFormed, Linked, SectorNo, Span, Own, Geometry.DataEnd;
    var v, w := View(g, chain, d, dirty, dsect, b), View(g, chain, e, dirty, dsect, b);
    forall k | 0 <= k < |v| ensures w[k] == v[k] {
      LinkedSector(g, t, others, chain, sclust, k);
    }
  }

  /** Where the directory entry of the file lies: outside the FAT and every data sector the file could own. */
  ghost predicate EntryPlace(fp: Fil, sect: int, ofs: nat)
    requires fp.fs.Valid()
    reads fp`others, fp.fs`winsect, fp.fs`wflag, fp.fs.drive, fp.fs.win
  {
    && 0 <= sect < |fp.fs.drive.sectors| && !fp.fs.g.InMirror(sect) && !fp.fs.g.InFat(sect)
    && !Own(fp.fs.g, fp.others, sect) && ofs + 32 <= fp.fs.g.ss
    && InfoPlace(fp.fs.g) && (fp.fs.g.fsType == Fat32 ==> sect != fp.fs.g.volbase + 1)
  }

  /** The medium itself holds the file: its FAT, its bytes, and the directory entry with size and start cluster. */
  ghost predicate OnMedium(fp: Fil, sect: int, ofs: nat)
    requires fp.Shell()
    reads fp`fsize, fp`dirty, fp`sclust, fp`dsect, fp`chain, fp`others, fp.buf,
          fp.fs`winsect, fp.fs`wflag, fp.fs.drive, fp.fs.win
  {
    var d, g := fp.fs.drive.sectors, fp.fs.g;
    && MediumOk(d, g) && InRange(g, fp.chain) && g.WellFormed() && g.DataEnd() <= |d|
    && TableOf(d, g) == fp.fs.Table()
    && View(g, fp.chain, d, false, 0, fp.buf[..]) == fp.Sectors()
    && 0 <= sect < |d| && ofs + 32 <= |d[sect]|
    && Names(d[sect][ofs..ofs + 32], fp.fsize, fp.sclust)
  }

  /** The FSINFO sector on the medium holds the allocation hints. */
  ghost predicate InfoOnMedium(fs: Fatfs)
    reads fs`freeClust, fs`lastClust, fs.drive
  {
    && fs.g.volbase + 1 < |fs.drive.sectors|
    && InfoHolds(fs.drive.sectors[fs.g.volbase + 1], fs.freeClust, fs.lastClust)
  }

  /** With nothing dirty the medium is what the file object sees. */
  lemma CleanMedium(fp: Fil)
    requires fp.Shell() && !fp.dirty && !fp.fs.wflag
    ensures var d, g := fp.fs.drive.sectors, fp.fs.g;
            && MediumOk(d, g) && InRange(g, fp.chain) && g.WellFormed() && g.DataEnd() <= |d|
            && TableOf(d, g) == fp.fs.Table() && View(g, fp.chain, d, false, 0, fp.buf[..]) == fp.Sectors()
    ensures |fp.fs.drive.sectors| == |fp.fs.Logical()|
    ensures forall s :: 0 <= s < |fp.fs.drive.sectors| && !fp.fs.g.InMirror(s) ==>
      fp.fs.drive.sectors[s] == fp.fs.Logical()[s]
  {
    ghost var d, g, fs := fp.fs.drive.sectors, fp.fs.g, fp.fs;
    CleanFat(d, g, fs.winsect, fs.win[..]);
    SameBytesSameTable(d, fs.Logical(), g);
    OwnReadable(g, fp.others);
    hide Geometry.WellFormed, FatBytes, TableOf, Own, Linked;
    SameView(g, fp.fs.Table(), fp.others, fp.chain, fp.sclust, fs.Logical(), d, false, 0, fp.buf[..]);
    CleanView(g, fp.chain, fs.Logical(), 0, fp.buf[..], fp.dsect, fp.buf[..]);
  }

  lemma OwnReadable(g: Geometry, others: set<Chain>)
    requires g.WellFormed()
    ensures forall s :: Own(g, others, s) ==> !g.InMirror(s)
  {
  }

  lemma InfoNotOwn(g: Geometry, others: set<Chain>)
    requires g.WellFormed() && InfoPlace(g)
    ensures g.fsType == Fat32 ==> !Own(g, others, g.volbase + 1) && !g.InMirror(g.volbase + 1)
  {
  }

  /** The entry survives the write of the FSINFO sector. */
  lemma EntryStands(fs: Fatfs, sect: int, w: Sector, ofs: nat, fsize: dword, sclust: dword, time: dword, was: Sector,
      d: Medium)
    requires fs.Valid() && 0 <= sect < |d| && d[sect] == w && EntryUpdated(was, w, ofs, fsize, sclust, time)
    requires |fs.Logical()| == |d| && fs.Logical()[sect] == d[sect]
    ensures ofs + 32 <= |fs.Logical()[sect]|
    ensures Names(fs.Logical()[sect][ofs..ofs + 32], fsize, sclust)
    ensures var a := fs.Logical()[sect][ofs + 11];
            a / 0x20 % 2 == 1 && a % 0x20 == was[ofs + 11] % 0x20 && a / 0x40 == was[ofs + 11] / 0x40
  {
    UpdatedNames(was, w, ofs, fsize, sclust, time);
    hide EntryUpdated, Names;
  }

  /** Write entry and window for a file whose buffer is clean. */
  method SyncEntry(fp: Fil, sect: dword, ofs: nat, time: dword) returns (res: FResult)
    requires fp.Base() && !fp.dirty && EntryPlace(fp, sect, ofs)
    modifies fp`written, fp.fs, fp.fs.drive, fp.fs.win
    ensures fp.fs.drive.reliable ==> res == FrOk
    ensures fp.fs.drive.reliable ==>
      && fp.Base() && fp.Sectors() == old(fp.Sectors()) && Promises(fp.fs) && fp.fs.Table() == old(fp.fs.Table())
      && OnMedium(fp, sect, ofs) && !fp.fs.wflag && !fp.written
    ensures fp.fs.drive.reliable ==>
      && sect < |old(fp.fs.Logical())| && ofs + 32 <= |old(fp.fs.Logical())[sect]|
      && sect < |fp.fs.drive.sectors| && ofs + 32 <= |fp.fs.drive.sectors[sect]|
      && var a, was := fp.fs.drive.sectors[sect][ofs + 11], old(fp.fs.Logical())[sect][ofs + 11];
      a / 0x20 % 2 == 1 && a % 0x20 == was % 0x20 && a / 0x40 == was / 0x40
    ensures fp.fs.drive.reliable && old(InfoDue(fp.fs)) ==> InfoOnMedium(fp.fs)
  {
    hide Geometry.WellFormed, FatBytes, TableOf, FreeCount, Overlay, Mirrored, Wrote, MediumOk, Fatfs.Valid,
      Fatfs.Logical, Fatfs.CopiesAgree, View, Linked, SectorNo, Span, Own, CountOk, WriteOrderOk, EntryUpdated,
      LdDword, EntryCluster, InfoHolds, Names, Geometry.InMirror, Geometry.InFat;
    ghost var g, d, t := fp.fs.g, fp.fs.Logical(), fp.fs.Table();
    InfoNotOwn(g, fp.others);
    NothingMoved(fp.fs);
    res := UpdateEntry(fp.fs, sect, ofs, fp.fsize, fp.sclust, time);
    if res != FrOk { return; }
    ghost var e, w := fp.fs.Logical(), fp.fs.win[..];
    fp.written := false;
    res := SyncFs(fp.fs);
    if fp.fs.drive.reliable {
      ghost var f := fp.fs.Logical();
      EntryStands(fp.fs, sect, w, ofs, fp.fsize, fp.sclust, time, d[sect], e);
      SameView(g, t, fp.others, fp.chain, fp.sclust, d, f, fp.dirty, fp.dsect, fp.buf[..]);
      CleanMedium(fp);
    }
  }

  /** Write everything back.  Afterwards a file that had been written is on the medium as the file object sees it. */
  method FSync(fp: Fil, sect: dword, ofs: nat, time: dword) returns (res: FResult)
    requires fp.Placed() && EntryPlace(fp, sect, ofs)
    modifies fp`dirty, fp`written, fp.fs, fp.fs.drive, fp.fs.win
    ensures !old(fp.written) ==> res == FrOk && unchanged(fp, fp.fs, fp.fs.drive, fp.fs.win)
    ensures fp.fs.drive.reliable ==>
      && res == FrOk && fp.Placed() && (old(fp.Valid()) ==> fp.Valid()) && fp.Bytes() == old(fp.Bytes())
      && Promises(fp.fs)
      && fp.fs.Table() == old(fp.fs.Table())
    ensures fp.fs.drive.reliable && old(fp.written) ==>
      OnMedium(fp, sect, ofs) && !fp.dirty && !fp.written && !fp.fs.wflag
    ensures fp.fs.drive.reliable && old(fp.written) ==>
      && sect < |old(fp.fs.Logical())| && ofs + 32 <= |old(fp.fs.Logical())[sect]|
      && sect < |fp.fs.drive.sectors| && ofs + 32 <= |fp.fs.drive.sectors[sect]|
      && var a, was := fp.fs.drive.sectors[sect][ofs + 11], old(fp.fs.Logical())[sect][ofs + 11];
      a / 0x20 % 2 == 1 && a % 0x20 == was % 0x20 && a / 0x40 == was / 0x40
    ensures fp.fs.drive.reliable && old(fp.written) && old(InfoDue(fp.fs)) ==> InfoOnMedium(fp.fs)
  {
    hide Geometry.WellFormed, FatBytes, TableOf, FreeCount, Overlay, Mirrored, Wrote, MediumOk, Fatfs.Valid,
      Fatfs.Logical, Fatfs.CopiesAgree, View, Linked, SectorNo, Span, Own, CountOk, WriteOrderOk, CursorOk, Capacity,
      Maps, Content, OnMedium, Untouched;
    res := FrOk;
    NothingMoved(fp.fs);
    if fp.written {
      ghost var d := fp.fs.Logical();
      var ok := FlushBuffer(fp);
      if !ok { res := FrDiskErr; return; }
      SameSize(fp.fs.g, fp.others, fp.chain, d, fp.fs.Logical(), sect);
      res := SyncEntry(fp, sect, ofs, time);
    }
  }

  lemma SameSize(g: Geometry, others: set<Chain>, chain: Chain, d: Medium, e: Medium, s: int)
    requires Untouched(g, others, chain, chain, d, e)
    ensures |d| == |e| && (0 <= s < |d| && !g.InFat(s) && ClusterSize(g.csize) && !Own(g, others, s) ==> e[s] == d[s])
  {
  }
}
