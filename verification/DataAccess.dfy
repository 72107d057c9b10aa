/** Direct transfers between data sectors and a caller's buffer, past the window. */
module DataAccess {
  import opened Bytes
  import opened Units
  import opened Layout
  import opened Disk
  import opened PackedTable
  import opened FatTable
  import opened LogicalDisk
  import opened Volume
  import opened Chains
  import opened Allocation
  import opened ClusterOps

  /** The run of sectors lies in the data area and the window holds none of it. */
  ghost predicate ClearRun(fs: Fatfs, sect: int, cc: int)
    requires fs.Valid()
    reads fs`winsect, fs`wflag, fs.drive, fs.win
  {
    && 0 < cc && fs.g.InData(sect) && fs.g.InData(sect + cc - 1)
    && !(sect <= fs.winsect < sect + cc)
  }

  lemma DataSectors(d: Medium, g: Geometry, sect: int, cc: int)
    requires MediumOk(d, g) && 0 < cc && g.InData(sect) && g.InData(sect + cc - 1)
    ensures 0 < sect && sect + cc <= |d|
    ensures forall s :: sect <= s < sect + cc ==> !g.InFat(s) && !g.InMirror(s)
  {
  }

  /** Replacing data sectors on the medium replaces them on the logical disk, and touches no FAT. */
  lemma DataWritten(g: Geometry, d: Medium, e: Medium, at: dword, dirty: bool, w: Sector, sect: int, cc: int)
    requires MediumOk(d, g) && MediumOk(e, g) && |e| == |d| && |w| == g.ss
    requires 0 < cc && g.InData(sect) && g.InData(sect + cc - 1) && !(sect <= at < sect + cc)
    requires forall s :: 0 <= s < |d| && !(sect <= s < sect + cc) ==> e[s] == d[s]
    ensures var a, b := Overlay(g, d, at, dirty, w), Overlay(g, e, at, dirty, w);
            && MediumOk(a, g) && MediumOk(b, g)
            && (forall s :: 0 <= s < |d| ==> b[s] == if sect <= s < sect + cc then e[s] else a[s])
            && FatBytes(b, g) == FatBytes(a, g)
    ensures FatBytes(e, g) == FatBytes(d, g)
    ensures Mirrored(g, d, at, dirty) ==> Mirrored(g, e, at, dirty)
  {
    hide Geometry.WellFormed, FatBytes;
    DataSectors(d, g, sect, cc);
    var a, b := Overlay(g, d, at, dirty, w), Overlay(g, e, at, dirty, w);
    FatInRange(d, g);
    SameFatSectors(a, b, g);
    SameFatSectors(e, d, g);
  }

  lemma SectorWritten(g: Geometry, d: Medium, at: dword, dirty: bool, w: Sector, sect: int, data: Sector)
    requires MediumOk(d, g) && |w| == g.ss && |data| == g.ss && g.InData(sect) && sect != at
    ensures 0 < sect < |d| && MediumOk(d[sect := data], g) && MediumOk(Overlay(g, d, at, dirty, w), g)
    ensures Overlay(g, d[sect := data], at, dirty, w) == Overlay(g, d, at, dirty, w)[sect := data]
    ensures FatBytes(Overlay(g, d[sect := data], at, dirty, w), g) == FatBytes(Overlay(g, d, at, dirty, w), g)
    ensures FatBytes(d[sect := data], g) == FatBytes(d, g)
    ensures Mirrored(g, d, at, dirty) ==> Mirrored(g, d[sect := data], at, dirty)
  {
    hide Geometry.WellFormed, FatBytes;
    DataSectors(d, g, sect, 1);
    DataWritten(g, d, d[sect := data], at, dirty, w, sect, 1);
  }

  lemma RunWritten(g: Geometry, d: Medium, at: dword, dirty: bool, w: Sector, sect: int, data: seq<byte>, cc: nat)
    requires MediumOk(d, g) && |w| == g.ss && SMul(cc, g.ss) <= |data|
    requires 0 < cc && g.InData(sect) && g.InData(sect + cc - 1) && !(sect <= at < sect + cc)
    ensures 0 < sect && sect + cc <= |d| && MediumOk(Overlay(g, d, at, dirty, w), g)
    ensures var e := PutRun(d, g.ss, sect, data, cc);
            && MediumOk(e, g)
            && Overlay(g, e, at, dirty, w) == PutRun(Overlay(g, d, at, dirty, w), g.ss, sect, data, cc)
            && FatBytes(Overlay(g, e, at, dirty, w), g) == FatBytes(Overlay(g, d, at, dirty, w), g)
            && FatBytes(e, g) == FatBytes(d, g)
            && (Mirrored(g, d, at, dirty) ==> Mirrored(g, e, at, dirty))
  {
    hide Geometry.WellFormed, FatBytes;
    DataSectors(d, g, sect, cc);
    DataWritten(g, d, PutRun(d, g.ss, sect, data, cc), at, dirty, w, sect, cc);
  }

  lemma FatInRange(d: Medium, g: Geometry)
    requires MediumOk(d, g)
    ensures forall s :: g.InFat(s) ==> 0 <= s < |d| && !g.InMirror(s)
  {
  }

  /** What a data write keeps: the table and every promise about it. */
  twostate predicate FatKept(fs: Fatfs)
    reads fs`winsect, fs`wflag, fs`freeClust, fs.drive, fs.win
  {
    && old(fs.Valid()) && fs.Valid()
    && fs.Fat() == old(fs.Fat()) && fs.Table() == old(fs.Table())
    && |fs.Logical()| == |old(fs.Logical())|
    && (old(CountOk(fs)) ==> CountOk(fs))
    && (old(WriteOrderOk(fs)) ==> WriteOrderOk(fs))
    && (old(fs.CopiesAgree()) ==> fs.CopiesAgree())
  }

  /** One more medium state with the FAT of the last one. */
  lemma HistoryGrows(h: seq<Medium>, m: Medium, g: Geometry, since: nat)
    requires since < |h| && SafeHistory(h, g, since) && MediumOk(m, g) && FatBytes(m, g) == FatBytes(h[|h| - 1], g)
    ensures SafeHistory(h + [m], g, since)
  {
    hide Geometry.WellFormed, FatBytes, NoLinkToFree, TableOf;
    SameBytesSameTable(m, h[|h| - 1], g);
  }

  method ReadData(fs: Fatfs, dst: array<byte>, sect: dword) returns (ok: bool)
    requires fs.Valid() && ClearRun(fs, sect, 1) && dst.Length == fs.g.ss && dst != fs.win
    modifies dst
    ensures ok ==> dst[..] == fs.Logical()[sect]
    ensures fs.drive.reliable ==> ok
  {
    DataSectors(fs.drive.sectors, fs.g, sect, 1);
    hide Geometry.WellFormed;
    ok := fs.drive.ReadSector(dst, sect);
  }

  method ReadDataRun(fs: Fatfs, dst: array<byte>, ofs: nat, sect: dword, cc: nat) returns (ok: bool)
    requires fs.Valid() && ClearRun(fs, sect, cc) && dst != fs.win
    requires ofs + SMul(cc, fs.g.ss) <= dst.Length
    modifies dst
    ensures ok ==> forall i :: ofs <= i < ofs + SMul(cc, fs.g.ss) ==>
      dst[i] == fs.Logical()[sect + SDiv(i - ofs, fs.g.ss)][SMod(i - ofs, fs.g.ss)]
    ensures forall i :: 0 <= i < dst.Length && !(ofs <= i < ofs + SMul(cc, fs.g.ss)) ==> dst[i] == old(dst[i])
    ensures fs.drive.reliable ==> ok
  {
    hide Geometry.WellFormed;
    DataSectors(fs.drive.sectors, fs.g, sect, cc);
    ok := fs.drive.ReadSectors(dst, ofs, sect, cc);
    forall i | ok && ofs <= i < ofs + SMul(cc, fs.g.ss)
      ensures dst[i] == fs.Logical()[sect + SDiv(i - ofs, fs.g.ss)][SMod(i - ofs, fs.g.ss)]
    {
      SectorSplit(i - ofs, fs.g.ss);
      assert sect <= sect + SDiv(i - ofs, fs.g.ss) < sect + cc;
    }
  }

  method WriteData(fs: Fatfs, src: array<byte>, sect: dword) returns (ok: bool)
    requires fs.Valid() && ClearRun(fs, sect, 1) && src.Length == fs.g.ss
    modifies fs.drive
    ensures FatKept(fs)
    ensures ok ==> sect < |old(fs.Logical())| && fs.Logical() == old(fs.Logical())[sect := src[..]]
    ensures !ok ==> fs.Logical() == old(fs.Logical())
    ensures fs.drive.reliable ==> ok
  {
    hide Geometry.WellFormed, FatBytes, TableOf, SafeHistory, NoLinkToFree, Overlay, Mirrored, FreeCount;
    ghost var d, h := fs.drive.sectors, fs.drive.history;
    SectorWritten(fs.g, d, fs.winsect, fs.wflag, fs.win[..], sect, src[..]);
    ok := fs.drive.WriteSector(src, sect);
    if ok {
      SameBytesSameTable(fs.Logical(), old(fs.Logical()), fs.g);
      if SafeHistory(h, fs.g, fs.since) { HistoryGrows(h, fs.drive.sectors, fs.g, fs.since); }
    }
  }

  method WriteDataRun(fs: Fatfs, src: array<byte>, ofs: nat, sect: dword, cc: nat) returns (ok: bool)
    requires fs.Valid() && ClearRun(fs, sect, cc)
    requires ofs + SMul(cc, fs.g.ss) <= src.Length
    modifies fs.drive
    ensures FatKept(fs)
    ensures ok ==> sect + cc <= |old(fs.Logical())|
                   && fs.Logical() == PutRun(old(fs.Logical()), fs.g.ss, sect, src[ofs..ofs + SMul(cc, fs.g.ss)], cc)
    ensures !ok ==> fs.Logical() == old(fs.Logical())
    ensures fs.drive.reliable ==> ok
  {
    hide Geometry.WellFormed, FatBytes, TableOf, SafeHistory, NoLinkToFree, Overlay, Mirrored, FreeCount;
    ghost var d, h := fs.drive.sectors, fs.drive.history;
    RunWritten(fs.g, d, fs.winsect, fs.wflag, fs.win[..], sect, src[ofs..ofs + SMul(cc, fs.g.ss)], cc);
    ok := fs.drive.WriteSectors(src, ofs, sect, cc);
    if ok {
      SameBytesSameTable(fs.Logical(), old(fs.Logical()), fs.g);
      if SafeHistory(h, fs.g, fs.since) { HistoryGrows(h, fs.drive.sectors, fs.g, fs.since); }
    }
  }
}
