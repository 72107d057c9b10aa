/** From a bare drive to a mounted volume, and from there to the first file. */
module Mounting {
  import opened Bytes
  import opened Units
  import opened Layout
  import opened Disk
  import opened PackedTable
  import opened FatTable
  import opened LogicalDisk
  import opened Volume
  import opened Chains
  import opened Allocation
  import opened ClusterOps
  import opened Reuse
  import opened BootSector
  import opened FileSync
  import FileCursor
  import FileData
  import FileRuns
  import FileSeek
  import Files
  import Format

  /** A volume that is mounted lies on the drive, and no sum of its boot sector wraps. */
  ghost predicate MountsSoundly(d: Medium, ss: nat) {
    Readable(d, ss) && (Mount(d, ss).Done? ==> MediumOk(d, Mount(d, ss).m.g))
  }

  /** The object is the volume that the mount found. */
  ghost predicate IsMounted(fs: Fatfs, m: Mounted)
    reads fs, fs.drive, fs.win
  {
    && fs.Valid() && fs.g == m.g && !fs.wflag && fs.winsect == NO_SECTOR
    && fs.freeClust == m.freeClust && fs.lastClust == m.lastClust && fs.fsiFlag == m.fsiFlag
    && MediumOk(fs.drive.sectors, fs.g) && fs.Table() == TableOf(fs.drive.sectors, fs.g)
    && fs.since + 1 == |fs.drive.history|
  }

  /** Find a volume and initialize the file system object with it. */
  method MountVolume(drive: Drive) returns (res: FResult, fs: Fatfs?)
    requires drive.Valid() && drive.reliable && MountsSoundly(drive.sectors, drive.ss)
    ensures match Mount(drive.sectors, drive.ss)
            case Failed(e) => res == e && fs == null
            case Done(m) =>
              && res == FrOk && fs != null && fresh(fs) && fresh(fs.win) && fs.drive == drive
              && IsMounted(fs, m)
  {
    hide Mount, Fatfs.Valid, Fatfs.Logical, MediumOk, TableOf, FatBytes, Overlay, Geometry.WellFormed;
    var win := new byte[drive.ss](_ => 0);
    var r := FindVolume(drive, win);
    fs := null;
    match r {
      case Failed(e) => res := e;
      case Done(m) =>
        res := FrOk;
        fs := new Fatfs(m.g, drive, m.lastClust, m.freeClust, m.fsiFlag);
        NewTable(fs);
    }
  }

  lemma NewTable(fs: Fatfs)
    requires fs.Valid() && !fs.wflag
    ensures MediumOk(fs.drive.sectors, fs.g) && fs.Table() == TableOf(fs.drive.sectors, fs.g)
  {
    hide FatBytes, Overlay, Geometry.WellFormed;
    CleanFat(fs.drive.sectors, fs.g, fs.winsect, fs.win[..]);
    SameBytesSameTable(fs.drive.sectors, fs.Logical(), fs.g);
  }

  /** A fresh volume as mounted: the window is empty, the table is a forest with every cluster free but the root of
      FAT32, the cached count is right, no link leads to a free cluster on the medium, and on FAT32 FSINFO is in use. */
  ghost predicate FreshVolume(fs: Fatfs, p: Format.Plan)
    reads fs, fs.drive, fs.win
  {
    && fs.Valid() && fs.g.fsType == p.fmt && fs.g.nFatent == p.nClst + 2 && !fs.wflag && fs.winsect == NO_SECTOR
    && WriteOrderOk(fs) && Forest(fs.Table(), Format.FreshChains(p.fmt)) && CountOk(fs)
    && FreeCount(fs.Table()) == p.nClst - (if p.fmt == Fat32 then 1 else 0)
    && (p.fmt == Fat32 ==> fs.fsiFlag == 0 && fs.lastClust == 2 && fs.freeClust == FreeCount(fs.Table()))
  }

  /** Format, then mount. */
  method FormatAndMount(drive: Drive, tbl: array<byte>, minSs: nat, sfd: bool, request: dword, block: dword,
      time: dword)
    returns (res: FResult, p: Format.Plan, fs: Fatfs?)
    requires drive.Valid() && drive.reliable && tbl.Length == drive.ss && SectorSize(minSs) && minSs <= drive.ss
    requires var j := Format.Job(drive.ss, minSs, |drive.sectors|, sfd, request, block);
             Format.PlanOf(j).0 == FrOk ==> j.nDisk >= 128 && j.Small28()
    modifies drive, tbl
    ensures var j := Format.Job(drive.ss, minSs, |old(drive.sectors)|, sfd, request, block);
      && p == Format.PlanOf(j).1
      && (fs != null <==> res == FrOk)
           && (fs != null ==> fresh(fs) && fresh(fs.win) && fs.drive == drive && FreshVolume(fs, p))
      && (res == FrOk <==> Format.PlanOf(j).0 == FrOk && j.HasRoom())
  {
    hide Mount, Fatfs.Valid, Fatfs.Logical, MediumOk, TableOf, FatBytes, Overlay, Geometry.WellFormed, Forest,
      FreeCount, Format.GeometryOf, Format.Sound, Format.PlanOf, Format.Job.HasRoom, Format.Job.First,
      Format.PowerOfTwo;
    ghost var j := Format.Job(drive.ss, minSs, |drive.sectors|, sfd, request, block);
    res, p := Format.FMkfs(drive, tbl, minSs, sfd, request, block, time);
    fs := null;
    if res != FrOk {
      if Format.PlanOf(j).0 == FrOk { RoomIsWritable(j); }
      return;
    }
    if j.HasRoom() {
      MadeIsSound(drive.sectors, p, drive.ss);
      if p.fmt != Fat32 { NoHints(drive.sectors, drive.ss); }
    }
    res, fs := MountVolume(drive);
    if fs != null { SafeStart(fs, Format.FreshChains(p.fmt)); }
  }

  /** The file object of a new file on a fresh volume, as f_open leaves it: without clusters. */
  method NewFile(fs: Fatfs, ghost p: Format.Plan) returns (fp: Files.Fil)
    requires FreshVolume(fs, p)
    ensures fresh(fp) && fresh(fp.buf) && fp.fs == fs && FileRuns.Ready(fp) && fp.cltbl == null
    ensures fp.canRead && fp.canWrite && fp.Bytes() == [] && fp.fptr == 0 && fp.chain == []
  {
    hide Fatfs.Valid, Fatfs.Logical, MediumOk, TableOf, FatBytes, Overlay, Geometry.WellFormed, FreeCount,
      FileCursor.CursorOk, FileData.View, WriteOrderOk;
    NoFileYet(fs.g, fs.Table(), Format.FreshChains(p.fmt));
    fp := new Files.Fil(fs, true, true, 0, 0, [], Format.FreshChains(p.fmt));
  }

  lemma NoFileYet(g: Geometry, t: Table, cs: set<Chain>)
    requires g.WellFormed() && |t| == g.nFatent && Forest(t, cs) && [] !in cs
    ensures FileCursor.Linked(g, t, cs, [], 0) && !FileData.Own(g, cs, NO_SECTOR)
  {
    hide Forest;
    assert FileCursor.Whole(cs, []) == cs;
  }

  /** The outcome of a run of calls on the first file of a fresh volume. */
  ghost predicate RanOnFresh(fp: Files.Fil, p: Format.Plan, calls: seq<FileRuns.Call>, answers: seq<FileRuns.Answer>,
                             trace: seq<FileRuns.ByteFile>)
    reads fp, fp.buf, fp.cltbl, fp.fs`winsect, fp.fs`wflag, fp.fs`freeClust, fp.fs.drive, fp.fs.win
  {
    && FileRuns.Ready(fp) && fp.fs.g.fsType == p.fmt && fp.cltbl == null && fp.canRead && fp.canWrite
    && FileRuns.IsRun(calls, trace, answers, FileRuns.ModeOf(fp)) && trace[|calls|] == FileRuns.AbstractFile(fp)
    && trace[0]
         == FileRuns.ByteFile([], 0, FileSeek.ClusterStart(fp.fs.g, p.nClst - if p.fmt == Fat32 then 1 else 0), false)
    && CountOk(fp.fs) && (fp.fs.g.fsType != Fat12 ==> WriteOrderOk(fp.fs))
  }

  /** Open a new file on a fresh volume and make any sequence of calls on it. */
  method RunOnFresh(fs: Fatfs, calls: seq<FileRuns.Call>, ghost p: Format.Plan)
    returns (fp: Files.Fil, answers: seq<FileRuns.Answer>, ghost trace: seq<FileRuns.ByteFile>)
    requires FreshVolume(fs, p) && fs.drive.reliable
    requires forall i :: 0 <= i < |calls| && calls[i].Write? ==> |calls[i].data| <= 0xFFFF_FFFF
    modifies fs, fs.drive, fs.win
    ensures fp.fs == fs && RanOnFresh(fp, p, calls, answers, trace)
  {
    hide Fatfs.Valid, Fatfs.Logical, MediumOk, TableOf, FatBytes, Overlay, Geometry.WellFormed, Forest, FreeCount,
      WriteOrderOk, CountOk, FileRuns.IsRun, FileRuns.AllSendable, Files.Fil.Base, Files.Fil.Shell, Files.Fil.Cursor,
      FileRuns.MapUsable, FileSeek.ClusterStart, FileCursor.Capacity;
    fp := NewFile(fs, p);
    FileRuns.UncutRuns(calls, FileRuns.AbstractFile(fp), FileRuns.ModeOf(fp));
    answers, trace := FileRuns.Run(fp, calls);
  }

  /** Format a drive, mount it, open a new file and make any sequence of calls on it: a byte string that starts empty
      and can grow to exactly the bytes of the free clusters.  Throughout, the cached count is right and, on FAT16/32,
      no state of the medium since the mount has a link to a free cluster. */
  method FormatAndRun(drive: Drive, tbl: array<byte>, minSs: nat, sfd: bool, request: dword, block: dword, time: dword,
                      calls: seq<FileRuns.Call>)
    returns (res: FResult, fp: Files.Fil?, answers: seq<FileRuns.Answer>, ghost trace: seq<FileRuns.ByteFile>)
    requires drive.Valid() && drive.reliable && tbl.Length == drive.ss && SectorSize(minSs) && minSs <= drive.ss
    requires var j := Format.Job(drive.ss, minSs, |drive.sectors|, sfd, request, block);
             Format.PlanOf(j).0 == FrOk ==> j.nDisk >= 128 && j.Small28()
    requires forall i :: 0 <= i < |calls| && calls[i].Write? ==> |calls[i].data| <= 0xFFFF_FFFF
    modifies drive, tbl
    ensures var j := Format.Job(drive.ss, minSs, |old(drive.sectors)|, sfd, request, block);
      && (res == FrOk <==> Format.PlanOf(j).0 == FrOk && j.HasRoom()) && (fp != null <==> res == FrOk)
      && (fp != null ==> RanOnFresh(fp, Format.PlanOf(j).1, calls, answers, trace))
  {
    hide FreshVolume, RanOnFresh, Format.PlanOf, Format.Job.HasRoom, Format.Job.First;
    fp, answers, trace := null, [], [];
    var p, fs;
    res, p, fs := FormatAndMount(drive, tbl, minSs, sfd, request, block, time);
    if fs == null { return; }
    fp, answers, trace := RunOnFresh(fs, calls, p);
  }

  lemma RoomIsWritable(j: Format.Job)
    requires j.Valid() && j.nDisk >= 128 && j.Small28() && Format.PlanOf(j).0 == FrOk
    ensures j.HasRoom() ==> Format.WritesFit(Format.PlanOf(j).1, j.nDisk)
  {
    hide Format.PlanOf, Format.Job.HasRoom, Format.Job.First, Format.Sound;
    Format.PlanIsWorth(j);
  }

  lemma MadeIsSound(d: Medium, p: Format.Plan, ss: nat)
    requires Format.Made(d, p, ss)
    ensures MountsSoundly(d, ss) && Mount(d, ss).Done?
    ensures var g := Mount(d, ss).m.g;
            && MediumOk(d, g) && g.fsType == p.fmt && g.nFatent == p.nClst + 2
            && Forest(TableOf(d, g), Format.FreshChains(p.fmt))
            && FreeCount(TableOf(d, g)) == p.nClst - (if p.fmt == Fat32 then 1 else 0)
  {
    hide Mount, MediumOk, TableOf, Forest, FreeCount, Format.Sound, Format.GeometryOf;
    Format.GeometryNumbers(p, ss);
  }

  /** Without FSINFO the number of free clusters is unknown. */
  lemma NoHints(d: Medium, ss: nat)
    requires Readable(d, ss) && Mount(d, ss).Done? && Mount(d, ss).m.g.fsType != Fat32
    ensures Mount(d, ss).m.freeClust == UNKNOWN && Mount(d, ss).m.fsiFlag == 0x80
  {
    hide Analyse, ReadBpb, VolumeOf, FsInfoValid;
  }

  /** Take a cluster and synchronize: on FAT32 the new count and hint are in FSINFO on the medium. */
  method TakeAndSync(fs: Fatfs, clst: dword) returns (ncl: dword)
    requires fs.Valid() && fs.drive.reliable && InfoPlace(fs.g) && NeedsNew(fs.Table(), clst)
    requires fs.g.fsType == Fat32 && fs.fsiFlag == 0 && fs.freeClust != UNKNOWN
    modifies fs, fs.drive, fs.win
    ensures fs.Valid() && !fs.wflag
    ensures ncl >= 2 ==>
      && fs.g.IsCluster(ncl) && clst < fs.g.nFatent
      && fs.freeClust == Dec32(old(fs.freeClust)) && fs.lastClust == ncl && InfoOnMedium(fs)
      && fs.Table() == Taken(old(fs.Table()), clst, ncl, Cut(fs.g.fsType, LAST_LINK))
    ensures ncl < 2 ==> fs.Table() == old(fs.Table()) && fs.freeClust == old(fs.freeClust)
  {
    hide Fatfs.Valid, Fatfs.Logical, MediumOk, TableOf, FatBytes, Overlay, Geometry.WellFormed, FreeCount, InfoHolds,
      Taken, FirstStop, SafeHistory, NoLinkToFree, Wrote, Mirrored;
    ncl := ClusterOps.CreateChain(fs, clst);
    var res := SyncFs(fs);
    CleanIsShown(fs);
  }

  /** A clean window shows the medium, the second FAT copy apart. */
  lemma CleanIsShown(fs: Fatfs)
    requires fs.Valid() && !fs.wflag
    ensures |fs.drive.sectors| == |fs.Logical()|
    ensures fs.g.fsType == Fat32 && InfoPlace(fs.g) && fs.g.volbase + 1 < |fs.Logical()| ==>
      fs.drive.sectors[fs.g.volbase + 1] == fs.Logical()[fs.g.volbase + 1]
  {
    hide FatBytes;
  }
}
