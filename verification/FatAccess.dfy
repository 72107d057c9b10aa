/** get_fat and put_fat: the FAT entries behind the window. */
module FatAccess {
  import opened Bytes
  import opened Units
  import opened Layout
  import opened Disk
  import opened PackedTable
  import opened FatTable
  import opened LogicalDisk
  import opened Volume

  // ---------- where an entry lies ----------

  lemma BytePlace(d: Medium, g: Geometry, o: int)
    requires MediumOk(d, g) && 0 <= o < SMul(g.fsize, g.ss)
    ensures 0 <= SDiv(o, g.ss) < g.fsize && 0 <= SMod(o, g.ss) < g.ss
    ensures g.fatbase + SDiv(o, g.ss) < |d| && !g.InMirror(g.fatbase + SDiv(o, g.ss))
    ensures FatBytes(d, g)[o] == d[g.fatbase + SDiv(o, g.ss)][SMod(o, g.ss)]
  {
    SectorSplit(o, g.ss);
  }

  lemma EntryInTable(d: Medium, g: Geometry, c: nat)
    requires MediumOk(d, g) && c < g.nFatent
    ensures Fits(g.fsType, FatBytes(d, g), c)
    ensures EntryOfs(g.fsType, c) + EntryLen(g.fsType) <= SMul(g.fsize, g.ss) == |FatBytes(d, g)|
    ensures TableOf(d, g)[c] == Entry(g.fsType, FatBytes(d, g), c)
    ensures g.fsType == Fat12 ==> c < 4087
  {
    EntryFits(g, c);
  }

  lemma Place16(d: Medium, g: Geometry, c: nat)
    requires MediumOk(d, g) && c < g.nFatent && g.fsType == Fat16
    ensures var at, p := g.fatbase + HDiv(c, g.ss), SMod(c * 2, g.ss);
            && 0 <= at < |d| && g.InFat(at) && !g.InMirror(at) && 0 <= p && p + 1 < g.ss
            && LdWord(d[at], p) == TableOf(d, g)[c]
  {
    hide Geometry.WellFormed, FatBytes, TableOf, SDiv, SMod, HDiv, SMul;
    EntryInTable(d, g, c);
    BytePlace(d, g, 2 * c);
    BytePlace(d, g, 2 * c + 1);
    ItemInSector(c, g.ss);
  }

  lemma Place32(d: Medium, g: Geometry, c: nat)
    requires MediumOk(d, g) && c < g.nFatent && g.fsType == Fat32
    ensures var at, p := g.fatbase + QDiv(c, g.ss), SMod(c * 4, g.ss);
            && 0 <= at < |d| && g.InFat(at) && !g.InMirror(at) && 0 <= p && p + 3 < g.ss
            && Fits(Fat32, FatBytes(d, g), c)
            && LdDword(d[at], p) == Raw(Fat32, FatBytes(d, g), c)
            && LdDword(d[at], p) % 0x1000_0000 == TableOf(d, g)[c]
  {
    hide Geometry.WellFormed, FatBytes, TableOf, SDiv, SMod, QDiv, SMul;
    EntryInTable(d, g, c);
    BytePlace(d, g, 4 * c);
    BytePlace(d, g, 4 * c + 1);
    BytePlace(d, g, 4 * c + 2);
    BytePlace(d, g, 4 * c + 3);
    ItemInSector(c, g.ss);
  }

  // ---------- reading ----------

  /** Move the window to the sector of FAT byte o; p is the byte's place in the window. */
  method MoveToByte(fs: Fatfs, o: dword) returns (res: FResult, p: nat)
    requires fs.Valid() && o < |fs.Fat()|
    modifies fs`winsect, fs`wflag, fs.drive, fs.win
    ensures SameDisk(fs)
    ensures res == FrOk ==> InWindow(fs, o, p) && p < fs.win.Length && fs.win[p] == fs.Fat()[o]
    ensures res == FrOk ==>
      fs.winsect < |fs.Logical()| && fs.win[..] == fs.Logical()[fs.winsect] && fs.g.InFat(fs.winsect)
    ensures res != FrOk ==> res == FrDiskErr && !fs.drive.reliable
  {
    hide Geometry.WellFormed, Overlay, Mirrored, SDiv, SMod, SMul;
    TableRegion(fs.Logical(), fs.g);
    BytePlace(fs.Logical(), fs.g, o);
    p := SMod(o, fs.g.ss);
    res := fs.MoveWindow(fs.g.fatbase + SDiv(o, fs.g.ss));
  }

  ghost predicate InWindow(fs: Fatfs, o: nat, p: nat)
    reads fs
  {
    SectorSize(fs.g.ss) && p == SMod(o, fs.g.ss) && p < fs.g.ss && fs.winsect == fs.g.fatbase + SDiv(o, fs.g.ss)
  }

  /** Read an entry: 1 for an invalid cluster number, DISK_ERROR for a failed read. */
  method GetFat(fs: Fatfs, clst: dword) returns (val: dword)
    requires fs.Valid()
    modifies fs`winsect, fs`wflag, fs.drive, fs.win
    ensures SameDisk(fs)
    ensures !fs.g.IsCluster(clst) ==> val == 1 && fs.winsect == old(fs.winsect)
    ensures fs.g.IsCluster(clst) && val != 0xFFFF_FFFF ==>
      val == fs.Table()[clst] && fs.g.InFat(fs.winsect)
    ensures val == 0xFFFF_FFFF ==> !fs.drive.reliable
  {
    hide Geometry.WellFormed, FatBytes, TableOf, Overlay, Mirrored, SDiv, SMod, HDiv, QDiv, SMul;
    var g := fs.g;
    if clst < 2 || clst >= g.nFatent {
      val := 1;
    } else {
      val := DISK_ERROR;
      match g.fsType {
        case Fat12 => {
          val := GetFat12(fs, clst);
        }
        case Fat16 => {
          Place16(fs.Logical(), g, clst);
          var res := fs.MoveWindow(g.fatbase + HDiv(clst, g.ss));
          if res == FrOk {
            val := LdWord(fs.win[..], SMod(clst * 2, g.ss));
          }
        }
        case Fat32 => {
          Place32(fs.Logical(), g, clst);
          var res := fs.MoveWindow(g.fatbase + QDiv(clst, g.ss));
          if res == FrOk {
            val := LdDword(fs.win[..], SMod(clst * 4, g.ss)) % 0x1000_0000;
          }
        }
      }
    }
  }

  /** The two bytes of a FAT12 entry may lie in different sectors. */
  method GetFat12(fs: Fatfs, clst: dword) returns (val: dword)
    requires fs.Valid() && fs.g.fsType == Fat12 && fs.g.IsCluster(clst)
    modifies fs`winsect, fs`wflag, fs.drive, fs.win
    ensures SameDisk(fs)
    ensures val != 0xFFFF_FFFF ==> val == fs.Table()[clst] && fs.g.InFat(fs.winsect)
    ensures val == 0xFFFF_FFFF ==> !fs.drive.reliable
  {
    hide Geometry.WellFormed, FatBytes, TableOf, Overlay, Mirrored, SDiv, SMod, SMul, InWindow;
    EntryInTable(fs.Logical(), fs.g, clst);
    val := DISK_ERROR;
    var bc := clst + clst / 2;
    var res, p := MoveToByte(fs, bc);
    if res == FrOk {
      var wc: int := fs.win[p];
      bc := bc + 1;
      ghost var h := fs.drive.history;
      res, p := MoveToByte(fs, bc);
      WroteThenWrote(old(fs.drive.history), h, fs.drive.history, fs.g, {fs.Fat()});
      if res == FrOk {
        wc := wc + (fs.win[p] as int) * 0x100;
        val := if clst % 2 == 1 then wc / 0x10 else wc % 0x1000;
      }
    }
  }

  // ---------- storing ----------

  /** The logical disk after the bytes of the window have been replaced. */
  lemma OverlayStored(g: Geometry, d: Medium, at: dword, dirty: bool, w: Sector, w': Sector)
    requires MediumOk(d, g) && at < |d| && !g.InMirror(at)
    ensures Overlay(g, d, at, true, w') == Overlay(g, d, at, dirty, w)[at := w']
  {
    hide Geometry.WellFormed;
  }

  /** The window held sector winsect; now its bytes are w and it is dirty. */
  twostate predicate Stored(fs: Fatfs, w: Sector)
    reads fs`winsect, fs`wflag, fs.drive, fs.win
  {
    && old(fs.Valid()) && fs.Valid() && fs.winsect < |old(fs.Logical())|
    && fs.Logical() == old(fs.Logical())[fs.winsect := w]
    && (old(fs.CopiesAgree()) ==> fs.CopiesAgree())
  }

  method StoreWord(fs: Fatfs, p: nat, v: dword)
    requires fs.Valid() && fs.winsect != NO_SECTOR && p + 1 < fs.g.ss
    modifies fs`wflag, fs.win
    ensures Stored(fs, PutWord(old(fs.win[..]), p, v))
  {
    hide Geometry.WellFormed, FatBytes, Overlay;
    ghost var w := fs.win[..];
    StWord(fs.win, p, v);
    OverlayStored(fs.g, fs.drive.sectors, fs.winsect, fs.wflag, w, fs.win[..]);
    fs.wflag := true;
  }

  method StoreDword(fs: Fatfs, p: nat, v: dword)
    requires fs.Valid() && fs.winsect != NO_SECTOR && p + 3 < fs.g.ss
    modifies fs`wflag, fs.win
    ensures Stored(fs, PutDword(old(fs.win[..]), p, v))
  {
    hide Geometry.WellFormed, FatBytes, Overlay;
    ghost var w := fs.win[..];
    StDword(fs.win, p, v);
    OverlayStored(fs.g, fs.drive.sectors, fs.winsect, fs.wflag, w, fs.win[..]);
    fs.wflag := true;
  }

  method StoreByte(fs: Fatfs, p: nat, v: byte)
    requires fs.Valid() && fs.winsect != NO_SECTOR && p < fs.g.ss
    modifies fs`wflag, fs.win
    ensures Stored(fs, old(fs.win[..])[p := v])
  {
    hide Geometry.WellFormed, FatBytes, Overlay;
    ghost var w := fs.win[..];
    fs.win[p] := v;
    assert fs.win[..] == w[p := v];
    OverlayStored(fs.g, fs.drive.sectors, fs.winsect, fs.wflag, w, fs.win[..]);
    fs.wflag := true;
  }

  /** Replacing len bytes inside one FAT sector replaces them in the table's byte string. */
  lemma StoreInFat(d: Medium, g: Geometry, o: int, len: nat, w: Sector)
    requires MediumOk(d, g) && 0 <= o && 0 < len && o + len <= SMul(g.fsize, g.ss)
    requires SMod(o, g.ss) + len <= g.ss && |w| == g.ss
    requires var at := g.fatbase + SDiv(o, g.ss);
             0 <= at < |d| && forall j :: 0 <= j < g.ss && !(SMod(o, g.ss) <= j < SMod(o, g.ss) + len) ==>
               w[j] == d[at][j]
    ensures var e := d[g.fatbase + SDiv(o, g.ss) := w];
            && MediumOk(e, g) && SameOutsideFat(d, e, g)
            && |FatBytes(e, g)| == |FatBytes(d, g)|
            && forall p :: 0 <= p < |FatBytes(d, g)| ==>
              FatBytes(e, g)[p] == if o <= p < o + len then w[p - o + SMod(o, g.ss)] else FatBytes(d, g)[p]
  {
    hide SDiv, SMod, Geometry.WellFormed;
    TableRegion(d, g);
    SectorSplit(o, g.ss);
    StoreInSector(d, g.fatbase, g.fsize, g.ss, o, len, w);
  }

  lemma Store16(d: Medium, g: Geometry, c: nat, v: dword)
    requires MediumOk(d, g) && g.IsCluster(c) && g.fsType == Fat16
    ensures var at, p := g.fatbase + HDiv(c, g.ss), SMod(c * 2, g.ss);
            && 0 <= at < |d| && 0 <= p && p + 1 < g.ss && Fits(Fat16, FatBytes(d, g), c)
            && var e := d[at := PutWord(d[at], p, v)];
              MediumOk(e, g) && SameOutsideFat(d, e, g) && FatBytes(e, g) == PutEntry(Fat16, FatBytes(d, g), c, v)
  {
    hide Geometry.WellFormed, FatBytes, TableOf, SDiv, SMod, HDiv, SMul;
    EntryInTable(d, g, c);
    Place16(d, g, c);
    ItemInSector(c, g.ss);
    StoreInFat(d, g, 2 * c, 2, PutWord(d[g.fatbase + HDiv(c, g.ss)], SMod(c * 2, g.ss), v));
  }

  lemma Store32(d: Medium, g: Geometry, c: nat, v: dword)
    requires MediumOk(d, g) && g.IsCluster(c) && g.fsType == Fat32
    ensures var at, p := g.fatbase + QDiv(c, g.ss), SMod(c * 4, g.ss);
            && 0 <= at < |d| && 0 <= p && p + 3 < g.ss && Fits(Fat32, FatBytes(d, g), c)
            && var e := d[at := PutDword(d[at], p, Merge32(LdDword(d[at], p), v))];
              MediumOk(e, g) && SameOutsideFat(d, e, g) && FatBytes(e, g) == PutEntry(Fat32, FatBytes(d, g), c, v)
  {
    hide Geometry.WellFormed, FatBytes, TableOf, SDiv, SMod, QDiv, SMul, Merge32;
    EntryInTable(d, g, c);
    Place32(d, g, c);
    ItemInSector(c, g.ss);
    var at, p := g.fatbase + QDiv(c, g.ss), SMod(c * 4, g.ss);
    StoreInFat(d, g, 4 * c, 4, PutDword(d[at], p, Merge32(LdDword(d[at], p), v)));
  }

  lemma StoreByteInFat(d: Medium, g: Geometry, o: nat, v: byte)
    requires MediumOk(d, g) && o < |FatBytes(d, g)|
    ensures var at, p := g.fatbase + SDiv(o, g.ss), SMod(o, g.ss);
            && 0 <= at < |d| && 0 <= p < g.ss
            && var w: Sector := d[at][p := v];
              var e := d[at := w];
              MediumOk(e, g) && SameOutsideFat(d, e, g) && FatBytes(e, g) == FatBytes(d, g)[o := v]
  {
    TableRegion(d, g);
    hide Geometry.WellFormed, TableOf, SDiv, SMod;
    BytePlace(d, g, o);
    var w: Sector := d[g.fatbase + SDiv(o, g.ss)][SMod(o, g.ss) := v];
    StoreInFat(d, g, o, 1, w);
  }

  /** A store to an entry, seen on the FAT bytes and on the rest of the logical disk. */
  twostate predicate EntryStored(fs: Fatfs, clst: dword, val: dword)
    reads fs`winsect, fs`wflag, fs.drive, fs.win
  {
    && old(fs.Valid()) && fs.Valid() && fs.g.IsCluster(clst)
    && Fits(fs.g.fsType, old(fs.Fat()), clst)
    && fs.Fat() == PutEntry(fs.g.fsType, old(fs.Fat()), clst, val)
    && fs.Table() == old(fs.Table())[clst := Cut(fs.g.fsType, val)]
    && SameOutsideFat(old(fs.Logical()), fs.Logical(), fs.g)
    && fs.g.InFat(fs.winsect)
  }

  /** The two bytes of a FAT16 entry lie in one sector. */
  method PutFat16(fs: Fatfs, clst: dword, val: dword) returns (res: FResult)
    requires fs.Valid() && fs.g.fsType == Fat16 && fs.g.IsCluster(clst)
    modifies fs`winsect, fs`wflag, fs.drive, fs.win
    ensures fs.Valid()
    ensures res == FrOk ==> EntryStored(fs, clst, val)
    ensures res != FrOk ==> res == FrDiskErr && !fs.drive.reliable && SameDisk(fs)
    ensures Wrote(old(fs.drive.history), fs.drive.history, fs.g, {old(fs.Fat())})
    ensures fs.drive.reliable && old(fs.CopiesAgree()) ==> fs.CopiesAgree()
  {
    hide Geometry.WellFormed, FatBytes, TableOf, Overlay, Mirrored, SDiv, SMod, HDiv, QDiv, SMul, PutEntry, Merge32,
      Fits;
    ghost var g, d := fs.g, fs.Logical();
    Place16(d, g, clst);
    res := fs.MoveWindow(fs.g.fatbase + HDiv(clst, fs.g.ss));
    if res == FrOk {
      Store16(d, g, clst, val);
      StoreWord(fs, SMod(clst * 2, fs.g.ss), val);
      StoredTable(d, fs.Logical(), g, clst, val);
    }
  }

  /** So do the four bytes of a FAT32 entry, whose top bits stay. */
  method PutFat32(fs: Fatfs, clst: dword, val: dword) returns (res: FResult)
    requires fs.Valid() && fs.g.fsType == Fat32 && fs.g.IsCluster(clst)
    modifies fs`winsect, fs`wflag, fs.drive, fs.win
    ensures fs.Valid()
    ensures res == FrOk ==> EntryStored(fs, clst, val)
    ensures res != FrOk ==> res == FrDiskErr && !fs.drive.reliable && SameDisk(fs)
    ensures Wrote(old(fs.drive.history), fs.drive.history, fs.g, {old(fs.Fat())})
    ensures fs.drive.reliable && old(fs.CopiesAgree()) ==> fs.CopiesAgree()
  {
    hide Geometry.WellFormed, FatBytes, TableOf, Overlay, Mirrored, SDiv, SMod, HDiv, QDiv, SMul, PutEntry, Merge32,
      Fits;
    ghost var g, d := fs.g, fs.Logical();
    Place32(d, g, clst);
    res := fs.MoveWindow(fs.g.fatbase + QDiv(clst, fs.g.ss));
    if res == FrOk {
      Store32(d, g, clst, val);
      var p := SMod(clst * 4, fs.g.ss);
      StoreDword(fs, p, Merge32(LdDword(fs.win[..], p), val));
      StoredTable(d, fs.Logical(), g, clst, val);
    }
  }

  /** Change an entry.  A failed access may leave a FAT12 entry half changed, never another entry. */
  method PutFat(fs: Fatfs, clst: dword, val: dword) returns (res: FResult)
    requires fs.Valid()
    modifies fs`winsect, fs`wflag, fs.drive, fs.win
    ensures fs.Valid()
    ensures !fs.g.IsCluster(clst) ==> res == FrIntErr && SameDisk(fs)
    ensures res == FrOk ==> EntryStored(fs, clst, val)
    ensures fs.g.IsCluster(clst) && res != FrOk ==> res == FrDiskErr && !fs.drive.reliable
    ensures fs.g.fsType != Fat12 && res != FrOk ==> SameDisk(fs)
    ensures fs.g.fsType != Fat12 ==> Wrote(old(fs.drive.history), fs.drive.history, fs.g, {old(fs.Fat())})
    ensures fs.drive.reliable && old(fs.CopiesAgree()) ==> fs.CopiesAgree()
  {
    hide EntryStored, Geometry.WellFormed, FatBytes, TableOf, Overlay, Mirrored, PutEntry, Fits;
    if clst < 2 || clst >= fs.g.nFatent {
      res := FrIntErr;
    } else {
      match fs.g.fsType {
        case Fat12 => { res := PutFat12(fs, clst, val); }
        case Fat16 => { res := PutFat16(fs, clst, val); }
        case Fat32 => { res := PutFat32(fs, clst, val); }
      }
    }
  }

  lemma PutEntry12(b: seq<byte>, c: nat, v: dword)
    requires c + c / 2 + 1 < |b|
    ensures var o := c + c / 2;
            && Fits(Fat12, b, c)
            && PutEntry(Fat12, b, c, v) == b[o := Low12(c, b[o], v)][o + 1 := High12(c, b[o + 1], v)]
  {
  }

  method StoreFatByte(fs: Fatfs, ghost o: nat, p: nat, v: byte)
    requires fs.Valid() && o < |fs.Fat()| && InWindow(fs, o, p) && fs.winsect < |fs.Logical()|
      && fs.win[..] == fs.Logical()[fs.winsect]
    modifies fs`wflag, fs.win
    ensures fs.Valid() && fs.Fat() == old(fs.Fat())[o := v]
    ensures SameOutsideFat(old(fs.Logical()), fs.Logical(), fs.g)
    ensures old(fs.CopiesAgree()) ==> fs.CopiesAgree()
  {
    hide Geometry.WellFormed, FatBytes, Overlay, Mirrored, SDiv, SMod, SMul;
    StoreByteInFat(fs.Logical(), fs.g, o, v);
    StoreByte(fs, p, v);
  }

  method PutFat12(fs: Fatfs, clst: dword, val: dword) returns (res: FResult)
    requires fs.Valid() && fs.g.fsType == Fat12 && fs.g.IsCluster(clst)
    modifies fs`winsect, fs`wflag, fs.drive, fs.win
    ensures fs.Valid()
    ensures res == FrOk ==> EntryStored(fs, clst, val)
    ensures res != FrOk ==> res == FrDiskErr && !fs.drive.reliable
    ensures fs.drive.reliable && old(fs.CopiesAgree()) ==> fs.CopiesAgree()
  {
    hide Geometry.WellFormed, FatBytes, TableOf, Overlay, Mirrored, SDiv, SMod, SMul, InWindow, Low12, High12, Fits,
      PutEntry, Entry;
    EntryInTable(fs.Logical(), fs.g, clst);
    PutEntry12(fs.Fat(), clst, val);
    var bc := clst + clst / 2;
    var p;
    res, p := MoveToByte(fs, bc);
    if res == FrOk {
      StoreFatByte(fs, bc, p, Low12(clst, fs.win[p], val));
      bc := bc + 1;
      res, p := MoveToByte(fs, bc);
      if res == FrOk {
        StoreFatByte(fs, bc, p, High12(clst, fs.win[p], val));
        StoredTable(old(fs.Logical()), fs.Logical(), fs.g, clst, val);
      }
    }
  }
}
