/** The logical disk: the physical sectors seen through the one-sector window.

    The second FAT copy is written but never read, so the logical disk shows it blank. */
module LogicalDisk {
  import opened Bytes
  import opened Units
  import opened Layout
  import opened Disk
  import opened PackedTable
  import opened FatTable

  function Blank(ss: nat): (r: Sector)
    ensures |r| == ss
  {
    seq(ss, _ => 0)
  }

  lemma BlankIsZero(ss: nat)
    ensures forall i :: 0 <= i < ss ==> Blank(ss)[i] == 0
  {
  }

  function Overlay(g: Geometry, d: Medium, at: dword, dirty: bool, w: Sector): (r: Medium)
    ensures |r| == |d|
    ensures forall s :: 0 <= s < |d| ==>
      r[s] == if g.InMirror(s) then Blank(g.ss) else if dirty && s == at then w else d[s]
  {
    seq(|d|, s requires 0 <= s < |d| =>
      if g.InMirror(s) then Blank(g.ss) else if dirty && s == at then w else d[s])
  }

  lemma SameFatSectors(d: Medium, e: Medium, g: Geometry)
    requires MediumOk(d, g) && MediumOk(e, g)
    requires forall s :: g.InFat(s) ==> d[s] == e[s]
    ensures FatBytes(d, g) == FatBytes(e, g)
  {
    var b := FatBytes(d, g);
    forall o | 0 <= o < |b| ensures b[o] == FatBytes(e, g)[o] {
      SectorSplit(o, g.ss);
      assert g.InFat(g.fatbase + SDiv(o, g.ss));
    }
  }

  /** Writing a sector of the second copy shows in no part of the logical disk. */
  lemma CopyIsInvisible(d: Medium, e: Medium, g: Geometry, s: int, at: dword, w: Sector)
    requires MediumOk(d, g) && |w| == g.ss && g.InFat(s) && g.nFats == 2
    requires s + g.fsize < |d| && e == d[s + g.fsize := w]
    ensures MediumOk(e, g) && Overlay(g, e, at, false, w) == Overlay(g, d, at, false, w)
    ensures g.InMirror(s + g.fsize)
  {
    assert g.InMirror(s + g.fsize);
  }

  lemma FatAreaTest(d: Medium, g: Geometry, s: dword)
    requires MediumOk(d, g) && s < |d|
    ensures Sub32(s, g.fatbase) < g.fsize <==> g.InFat(s)
  {
  }

  lemma CopyInRange(d: Medium, g: Geometry, s: int)
    requires MediumOk(d, g) && g.InFat(s)
    ensures g.nFats == 1 || (g.nFats == 2 && s + g.fsize < |d|)
  {
  }

  /** A medium and its logical view agree on the FAT while the window is clean. */
  lemma CleanFat(d: Medium, g: Geometry, at: dword, w: Sector)
    requires MediumOk(d, g)
    ensures MediumOk(Overlay(g, d, at, false, w), g)
    ensures FatBytes(d, g) == FatBytes(Overlay(g, d, at, false, w), g)
  {
    SameFatSectors(d, Overlay(g, d, at, false, w), g);
  }

  /** Every medium state written since h0 holds in its first copy one of the FATs in bs. */
  ghost predicate Wrote(h0: seq<Medium>, h1: seq<Medium>, g: Geometry, bs: set<seq<byte>>) {
    && |h0| <= |h1| && h1[..|h0|] == h0
    && forall i :: |h0| <= i < |h1| ==> MediumOk(h1[i], g) && FatBytes(h1[i], g) in bs
  }

  lemma WroteNothing(h: seq<Medium>, g: Geometry, bs: set<seq<byte>>)
    ensures Wrote(h, h, g, bs)
  {
  }

  lemma WroteThenWrote(h0: seq<Medium>, h1: seq<Medium>, h2: seq<Medium>, g: Geometry, bs: set<seq<byte>>)
    requires Wrote(h0, h1, g, bs) && Wrote(h1, h2, g, bs)
    ensures Wrote(h0, h2, g, bs)
  {
    assert h2[..|h0|] == h2[..|h1|][..|h0|];
    forall i | |h0| <= i < |h2| ensures MediumOk(h2[i], g) && FatBytes(h2[i], g) in bs {
      if i < |h1| {
        assert h2[i] == h2[..|h1|][i];
      }
    }
  }

  /** The two FAT copies agree, except for a sector still dirty in the window. */
  ghost predicate Mirrored(g: Geometry, d: Medium, at: dword, dirty: bool) {
    g.nFats == 2 ==>
      forall s :: g.InFat(s) && s + g.fsize < |d| && !(dirty && s == at) ==> d[s] == d[s + g.fsize]
  }

  /** Writing the dirty window to its own sector changes nothing in the logical disk. */
  lemma Flushed(g: Geometry, d: Medium, at: dword, w: Sector)
    requires MediumOk(d, g) && at < |d| && |w| == g.ss && !g.InMirror(at)
    ensures var e := d[at := w];
            && MediumOk(e, g)
            && Overlay(g, e, at, false, w) == Overlay(g, d, at, true, w)
            && FatBytes(e, g) == FatBytes(Overlay(g, e, at, false, w), g)
            && (Mirrored(g, d, at, true) ==> Mirrored(g, e, at, g.InFat(at)))
  {
    CleanFat(d[at := w], g, at, w);
  }
}

/** The sector window of the file system object. */
module Volume {
  import opened Bytes
  import opened Units
  import opened Layout
  import opened Disk
  import opened PackedTable
  import opened FatTable
  import opened LogicalDisk

  const NO_SECTOR: dword := 0xFFFF_FFFF

  class Fatfs {
    const g: Geometry
    const drive: Drive
    const win: array<byte>
    var winsect: dword
    var wflag: bool
    var fsiFlag: byte
    var lastClust: dword
    var freeClust: dword
    /** Number of the medium's state in which the volume was mounted. */
    ghost const since: nat

    ghost predicate Valid()
      reads `winsect, `wflag, drive, win
      ensures Valid() ==> g.WellFormed() && SectorSize(g.ss) && ClusterSize(g.csize) && 3 <= g.nFatent <= LAST_LINK
    {
      && drive.Valid() && drive.ss == g.ss && MediumOk(drive.sectors, g) && since < |drive.history|
      && win.Length == g.ss
      && (winsect != NO_SECTOR ==> winsect < |drive.sectors| && !g.InMirror(winsect))
      && (winsect == NO_SECTOR ==> !wflag)
      && (winsect != NO_SECTOR && !wflag ==> win[..] == drive.sectors[winsect])
    }

    ghost function Logical(): (d: Medium)
      requires Valid()
      reads `winsect, `wflag, drive, win
      ensures MediumOk(d, g) && |d| == |drive.sectors|
    {
      Overlay(g, drive.sectors, winsect, wflag, win[..])
    }

    ghost function Fat(): (b: seq<byte>)
      requires Valid()
      reads `winsect, `wflag, drive, win
    {
      FatBytes(Logical(), g)
    }

    ghost function Table(): (t: Table)
      requires Valid()
      ensures |t| == g.nFatent
      reads `winsect, `wflag, drive, win
    {
      TableOf(Logical(), g)
    }

    ghost predicate CopiesAgree()
      reads `winsect, `wflag, drive
    {
      Mirrored(g, drive.sectors, winsect, wflag)
    }

    /** A volume as a mount leaves it: the window is invalid, the allocation hints and the state of FSINFO
        are given. */
    constructor (g: Geometry, drive: Drive, lastClust: dword, freeClust: dword, fsiFlag: byte)
      requires drive.Valid() && drive.ss == g.ss && MediumOk(drive.sectors, g)
      ensures Valid() && fresh(win) && !wflag && winsect == NO_SECTOR
      ensures this.g == g && this.drive == drive && since + 1 == |drive.history|
      ensures this.lastClust == lastClust && this.freeClust == freeClust && this.fsiFlag == fsiFlag
    {
      this.g := g;
      this.drive := drive;
      this.win := new byte[g.ss](_ => 0);
      this.winsect := NO_SECTOR;
      this.wflag := false;
      this.fsiFlag := fsiFlag;
      this.lastClust := lastClust;
      this.freeClust := freeClust;
      this.since := |drive.history| - 1;
    }

    /** Write the window back if it is dirty, and reflect a FAT sector to the other copies. */
    method SyncWindow() returns (res: FResult)
      requires Valid()
      modifies this`wflag, drive
      ensures Valid() && Logical() == old(Logical())
      ensures res == FrOk ==> !wflag
      ensures res != FrOk ==> res == FrDiskErr && !drive.reliable
      ensures res != FrOk ==> wflag == old(wflag) && drive.sectors == old(drive.sectors)
      ensures Wrote(old(drive.history), drive.history, g, {Fat()})
      ensures drive.reliable && old(CopiesAgree()) ==> CopiesAgree()
    {
      hide Mirrored, Geometry.WellFormed, FatBytes, Overlay;
      res := FrOk;
      if wflag {
        var wsect := winsect;
        var ok := drive.WriteSector(win, wsect);
        if !ok {
          res := FrDiskErr;
        } else {
          Flushed(g, old(drive.sectors), winsect, win[..]);
          wflag := false;
          FatAreaTest(drive.sectors, g, wsect);
          if Sub32(wsect, g.fatbase) < g.fsize {
            Reflect(wsect);
          }
        }
      }
    }

    /** Copy a FAT sector just written to the other FAT copies; their write errors are ignored. */
    method Reflect(sector: dword)
      requires Valid() && !wflag && winsect == sector && g.InFat(sector)
      modifies drive
      ensures Valid() && Logical() == old(Logical())
      ensures Wrote(old(drive.history), drive.history, g, {Fat()})
      ensures drive.reliable && old(Mirrored(g, drive.sectors, winsect, true)) ==> CopiesAgree()
    {
      hide MediumOk, Geometry.WellFormed, FatBytes, Overlay;
      CopyInRange(drive.sectors, g, sector);
      var wsect := sector;
      var nf := g.nFats;
      while nf >= 2
        invariant 1 <= nf <= g.nFats
        invariant Valid() && Logical() == old(Logical())
        invariant nf == g.nFats ==> wsect == sector && drive.sectors == old(drive.sectors)
        invariant Wrote(old(drive.history), drive.history, g, {Fat()})
        invariant nf == 1 && drive.reliable && old(Mirrored(g, drive.sectors, winsect, true)) ==> CopiesAgree()
      {
        wsect := wsect + g.fsize;
        CopyIsInvisible(drive.sectors, drive.sectors[wsect := win[..]], g, sector, winsect, win[..]);
        var _ := drive.WriteSector(win, wsect);
        CleanFat(drive.sectors, g, winsect, win[..]);
        nf := nf - 1;
      }
    }

    /** Bring a sector into the window. */
    method MoveWindow(sector: dword) returns (res: FResult)
      requires Valid() && sector < |drive.sectors| && !g.InMirror(sector)
      modifies this`wflag, this`winsect, drive, win
      ensures Valid() && Logical() == old(Logical())
      ensures res == FrOk ==> winsect == sector && win[..] == Logical()[sector]
      ensures res != FrOk ==> res == FrDiskErr && !drive.reliable
      ensures Wrote(old(drive.history), drive.history, g, {Fat()})
      ensures drive.reliable && old(CopiesAgree()) ==> CopiesAgree()
    {
      hide Geometry.WellFormed, FatBytes;
      res := FrOk;
      var at := sector;
      if sector != winsect {
        res := SyncWindow();
        if res == FrOk {
          var ok := drive.ReadSector(win, sector);
          if !ok {
            at := NO_SECTOR;
            res := FrDiskErr;
          }
          winsect := at;
        }
      }
    }
  }

  /** The window may have moved and been flushed; the disk it presents is the same. */
  twostate predicate SameDisk(fs: Fatfs)
    reads fs`winsect, fs`wflag, fs.drive, fs.win
  {
    && old(fs.Valid()) && fs.Valid()
    && fs.Logical() == old(fs.Logical())
    && Wrote(old(fs.drive.history), fs.drive.history, fs.g, {fs.Fat()})
    && (fs.drive.reliable && old(fs.CopiesAgree()) ==> fs.CopiesAgree())
  }
}
