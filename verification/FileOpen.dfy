/** The parts of f_open that turn a directory entry into an open file. */
module FileOpen {
  import opened Bytes
  import opened Units
  import opened Layout
  import opened Disk
  import opened PackedTable
  import opened FatTable
  import opened LogicalDisk
  import opened Volume
  import opened FatAccess
  import opened Chains
  import opened Allocation
  import opened ClusterOps
  import opened Reuse
  import opened FileData
  import opened FileCursor
  import opened Files
  import opened FileFrame
  import opened FileRead
  import opened FileSync

  const DIR_CRTTIME: nat := 14

  /** ld_clust: the high word counts on FAT32 only. */
  function LoadCluster(fmt: FatType, w: Sector, ofs: nat): dword
    requires ofs + 32 <= |w|
  {
    if fmt == Fat32 then EntryCluster(w, ofs) else LdWord(w, ofs + DIR_FSTCLUSLO)
  }

  /** Size and start cluster in the bytes of the entry. */
  lemma EntryBytes(fmt: FatType, w: Sector, ofs: nat)
    requires ofs + 32 <= |w|
    ensures var e := w[ofs..ofs + 32];
            && LdDword(w, ofs + DIR_FILESIZE) as int
               == e[28] as int + e[29] as int * 0x100 + e[30] as int * 0x1_0000 + e[31] as int * 0x100_0000
            && LoadCluster(fmt, w, ofs) as int
               == e[26] as int + e[27] as int * 0x100
                  + if fmt == Fat32 then e[20] as int * 0x1_0000 + e[21] as int * 0x100_0000 else 0
  {
    LittleEndian(w, ofs + 20);
    LittleEndian(w, ofs + 26);
    LittleEndian(w, ofs + 28);
    hide LdWord, LdDword;
  }

  // ---------- an overwriting open ----------

  /** w is was with the entry at ofs emptied: creation time set, no attributes, size 0, no cluster; all else as
      before. */
  ghost predicate EntryEmptied(was: Sector, w: Sector, ofs: nat, time: dword) {
    && |w| == |was| && ofs + 32 <= |w|
    && LdDword(w, ofs + 14) == time && w[ofs + 11] == 0 && LdDword(w, ofs + 28) == 0
    && w[ofs + 20..ofs + 22] == [0, 0] && w[ofs + 26..ofs + 28] == [0, 0]
    && forall j :: 0 <= j < |w| && !EmptiedByte(j - ofs) ==> w[j] == was[j]
  }

  predicate EmptiedByte(k: int) {
    k == 11 || 14 <= k < 18 || 20 <= k < 22 || 26 <= k < 32
  }

  method EmptyEntry(win: array<byte>, ofs: nat, time: dword)
    requires ofs + 32 <= win.Length
    modifies win
    ensures EntryEmptied(old(win[..]), win[..], ofs, time)
  {
    Put32(win, ofs + DIR_CRTTIME, time);
    Put8(win, ofs + DIR_ATTR, 0);
    Put32(win, ofs + DIR_FILESIZE, 0);
    StoreCluster(win, ofs, 0);
    EntryIsRead(win, ofs, 0, 0);
    Load32(win, ofs + DIR_CRTTIME, time);
  }

  /** Empty the entry in the window, in the cache only. */
  method EmptyInWindow(fs: Fatfs, ofs: nat, time: dword)
    requires fs.Valid() && fs.winsect != NO_SECTOR && !fs.g.InFat(fs.winsect) && ofs + 32 <= fs.g.ss
    modifies fs`wflag, fs.win
    ensures fs.Valid() && Promises(fs) && fs.Table() == old(fs.Table())
    ensures fs.winsect < |old(fs.Logical())| && fs.Logical() == old(fs.Logical())[fs.winsect := fs.win[..]]
    ensures EntryEmptied(old(fs.Logical())[fs.winsect], fs.win[..], ofs, time)
  {
    hide Geometry.WellFormed, FatBytes, TableOf, FreeCount, Overlay, Mirrored, Wrote, NoLinkToFree, SafeHistory,
      EntryEmptied;
    ghost var g, d, w, dirty := fs.g, fs.Logical(), fs.win[..], fs.wflag;
    EmptyEntry(fs.win, ofs, time);
    OverlayStored(g, fs.drive.sectors, fs.winsect, dirty, w, fs.win[..]);
    fs.wflag := true;
    SameFat(g, d, fs.Logical(), fs.winsect, fs.win[..]);
    SameBytesSameTable(d, fs.Logical(), g);
    MirrorOff(g, fs.drive.sectors, fs.winsect, dirty);
  }

  /** Overwrite the file whose entry is in the window: the entry is emptied, exactly the file's chain is freed, nothing
      else changes, and the window is at the entry again. */
  method OverwriteFile(fs: Fatfs, ofs: nat, time: dword, ghost cs: set<Chain>, ghost s: Chain) returns (res: FResult)
    requires fs.Valid() && fs.winsect != NO_SECTOR && !fs.g.InFat(fs.winsect) && ofs + 32 <= fs.g.ss
    requires Forest(fs.Table(), cs) && fs.winsect < |fs.Logical()|
    requires var cl := LoadCluster(fs.g.fsType, fs.win[..], ofs); cl != 0 ==> s in cs && |s| > 0 && s[0] == cl
    modifies fs, fs.drive, fs.win
    ensures fs.Valid() && (res != FrOk ==> !fs.drive.reliable)
    ensures res == FrOk ==>
      var at, cl := old(fs.winsect), LoadCluster(fs.g.fsType, old(fs.win[..]), ofs);
      && fs.winsect == at && |fs.Logical()| == |old(fs.Logical())| && Promises(fs)
      && EntryEmptied(old(fs.Logical())[at], fs.Logical()[at], ofs, time)
      && (forall x :: 0 <= x < |fs.Logical()| && x != at && !fs.g.InFat(x) ==> fs.Logical()[x] == old(fs.Logical())[x])
      && (cl == 0 ==> fs.Table() == old(fs.Table()) && fs.lastClust == old(fs.lastClust))
      && (cl != 0 ==>
           fs.Table() == Zeroed(old(fs.Table()), s) && Forest(fs.Table(), cs - {s}) && fs.lastClust == cl - 1)
  {
    hide Geometry.WellFormed, FatBytes, TableOf, FreeCount, Overlay, Mirrored, Wrote, NoLinkToFree, SafeHistory,
      EntryEmptied, Fatfs.Valid, Fatfs.Logical, Fatfs.CopiesAgree, Forest, Zeroed, LdDword, LdWord;
    WindowSize(fs);
    res := FrOk;
    var cl := LoadCluster(fs.g.fsType, fs.win[..], ofs);
    EmptyInWindow(fs, ofs, time);
    if cl != 0 {
      res := DropContents(fs, cl, cs, s);
    }
  }

  lemma WindowSize(fs: Fatfs)
    requires fs.Valid()
    ensures fs.win.Length == fs.g.ss
  {
  }

  // ---------- opening ----------

  /** Where the entry of a file lies. */
  ghost predicate HoldsEntry(fs: Fatfs, others: set<Chain>, sect: int, ofs: nat)
    requires fs.Valid()
    reads fs`winsect, fs`wflag, fs.drive, fs.win
  {
    && 0 <= sect < |fs.Logical()| && !fs.g.InMirror(sect) && ofs + 32 <= |fs.Logical()[sect]| == fs.g.ss
    && !Own(fs.g, others, sect)
  }

  /** Open the file that an entry names. */
  method OpenFile(fs: Fatfs, sect: dword, ofs: nat, canRead: bool, canWrite: bool,
                  ghost chain: Chain, ghost others: set<Chain>) returns (res: FResult, fp: Fil?)
    requires fs.Valid() && HoldsEntry(fs, others, sect, ofs)
    requires var w := fs.Logical()[sect];
             && Linked(fs.g, fs.Table(), others, chain, LoadCluster(fs.g.fsType, w, ofs))
             && LdDword(w, ofs + DIR_FILESIZE) <= Capacity(fs.g, chain)
    modifies fs`winsect, fs`wflag, fs.drive, fs.win
    ensures SameDisk(fs) && (res != FrOk ==> !fs.drive.reliable && fp == null)
    ensures res == FrOk ==>
      && fp != null && fresh(fp) && fresh(fp.buf) && fp.fs == fs && fp.Valid() && fp.err == FrOk && fp.cltbl == null
      && !fp.dirty && !fp.written && fp.dsect == 0 && fp.fptr == 0 && fp.chain == chain && fp.others == others
      && fp.sclust == LoadCluster(fs.g.fsType, old(fs.Logical())[sect], ofs)
      && fp.fsize == LdDword(old(fs.Logical())[sect], ofs + DIR_FILESIZE)
      && fp.canRead == canRead && fp.canWrite == canWrite
    ensures res == FrOk ==>
      var e := old(fs.Logical())[sect][ofs..ofs + 32];
      && fp.fsize as int == e[28] as int + e[29] as int * 0x100 + e[30] as int * 0x1_0000 + e[31] as int * 0x100_0000
      && fp.sclust as int == e[26] as int + e[27] as int * 0x100
                             + if fs.g.fsType == Fat32 then e[20] as int * 0x1_0000 + e[21] as int * 0x100_0000 else 0
  {
    hide Geometry.WellFormed, FatBytes, TableOf, Overlay, Mirrored, Wrote, MediumOk, Fatfs.Valid, Fatfs.Logical,
      Fatfs.CopiesAgree, Linked, Capacity, LdDword, LdWord, Own, LoadCluster;
    EntryBytes(fs.g.fsType, fs.Logical()[sect], ofs);
    fp := null;
    res := fs.MoveWindow(sect);
    if res != FrOk { return; }
    fp := new Fil(fs, canRead, canWrite, LoadCluster(fs.g.fsType, fs.win[..], ofs),
                  LdDword(fs.win[..], ofs + DIR_FILESIZE), chain, others);
  }

  /** Synchronize a file and open it again by its entry: it holds the same bytes. */
  method SyncThenOpen(fp: Fil, sect: dword, ofs: nat, time: dword) returns (res: FResult, again: Fil?)
    requires fp.Valid() && EntryPlace(fp, sect, ofs) && fp.written && fp.fs.drive.reliable
    modifies fp`dirty, fp`written, fp.fs, fp.fs.drive, fp.fs.win
    ensures res == FrOk && again != null && fresh(again) && again.Valid() && again.fptr == 0
    ensures fp.Valid() && again.Bytes() == fp.Bytes() == old(fp.Bytes())
  {
    hide Geometry.WellFormed, FatBytes, TableOf, Overlay, Mirrored, Wrote, MediumOk, Fatfs.Valid, Fatfs.Logical,
      Fatfs.CopiesAgree, Linked, Capacity, LdDword, LdWord, Own, View, Content, SectorNo, CursorOk;
    res := FSync(fp, sect, ofs, time);
    EntryIsShown(fp, sect, ofs);
    ghost var d, b := fp.fs.Logical(), fp.Bytes();
    res, again := OpenFile(fp.fs, sect, ofs, fp.canRead, fp.canWrite, fp.chain, fp.others);
    SameAsSeen(fp, again);
  }

  /** The entry on the medium is the entry as seen, and names the file. */
  lemma EntryIsShown(fp: Fil, sect: dword, ofs: nat)
    requires fp.Valid() && EntryPlace(fp, sect, ofs) && OnMedium(fp, sect, ofs) && !fp.dirty && !fp.fs.wflag
    ensures HoldsEntry(fp.fs, fp.others, sect, ofs)
    ensures LdDword(fp.fs.Logical()[sect], ofs + DIR_FILESIZE) == fp.fsize
    ensures LoadCluster(fp.fs.g.fsType, fp.fs.Logical()[sect], ofs) == fp.sclust
  {
    hide FatBytes, TableOf, Geometry.FatBytes, View, CursorOk, SectorNo, Linked, Capacity, Content, LdDword, LdWord,
      Geometry.WellFormed, Fatfs.Logical, Fil.Sectors, Fil.Bytes, Names;
    NamesRead(fp.fs.drive.sectors[sect], ofs, fp.fsize, fp.sclust);
    WindowSize(fp.fs);
    CleanMedium(fp);
    LinkedHead(fp.fs.g, fp.fs.Table(), fp.others, fp.chain, fp.sclust);
    SmallCluster(fp.fs.g, fp.chain);
  }

  lemma SmallCluster(g: Geometry, chain: Chain)
    requires g.WellFormed() && InRange(g, chain)
    ensures g.fsType != Fat32 ==> g.nFatent <= 0xFFFF && forall i :: 0 <= i < |chain| ==> chain[i] <= 0xFFFF
  {
  }

  /** Two clean file objects with the same chain and size show the same bytes. */
  lemma SameAsSeen(fp: Fil, again: Fil)
    requires fp.Valid() && again.Valid() && fp.fs == again.fs && fp.chain == again.chain && fp.fsize == again.fsize
    requires !fp.dirty && !again.dirty
    ensures again.Bytes() == fp.Bytes()
  {
    hide FatBytes, TableOf, Linked, CursorOk, SectorNo, Overlay, Geometry.WellFormed;
    CleanView(fp.fs.g, fp.chain, fp.fs.Logical(), fp.dsect, fp.buf[..], again.dsect, again.buf[..]);
  }
}
