/** dir_register and dir_read: long names in a directory on the disk. */
module DirectoryNames {
  import opened Bytes
  import opened Units
  import opened Layout
  import opened Disk
  import opened PackedTable
  import opened FatTable
  import opened LogicalDisk
  import opened Volume
  import opened FatAccess
  import opened Chains
  import opened Allocation
  import opened ClusterOps
  import opened FileData
  import opened FileCursor
  import opened Directory
  import opened DirectoryAlloc
  import opened LongName
  import FileSync

  // ---------- the directory as a sequence of entries ----------

  /** Entries in n sectors. */
  function EntriesIn(n: int, ss: int): int
    requires SectorSize(ss)
  {
    if ss == 512 then n * 16 else if ss == 1024 then n * 32 else if ss == 2048 then n * 64 else n * 128
  }

  /** Entries of a table. */
  ghost function TableLen(g: Geometry, chain: Chain): (n: int)
    requires SectorSize(g.ss) && ClusterSize(g.csize)
    ensures n >= 0
  {
    if chain == [] then g.nRootdir else EntriesIn(Span(g, chain), g.ss)
  }

  lemma TableLenIs(g: Geometry, chain: Chain, k: int)
    requires SectorSize(g.ss) && ClusterSize(g.csize) && 0 <= k
    ensures HasEntry(g, chain, k) <==> k < TableLen(g, chain)
  {
    hide Span;
  }

  /** The entries of a table that an index can name. */
  ghost function Listing(g: Geometry, chain: Chain, d: Medium): (t: seq<Direntry>)
    requires SectorSize(g.ss) && ClusterSize(g.csize)
    ensures |t| == if TableLen(g, chain) < 0x1_0000 then TableLen(g, chain) else 0x1_0000
    ensures forall k :: 0 <= k < |t| ==> t[k] == DirectoryAlloc.Entry(g, chain, d, k)
  {
    var n: nat := if TableLen(g, chain) < 0x1_0000 then TableLen(g, chain) else 0x1_0000;
    seq(n, k requires 0 <= k < n => DirectoryAlloc.Entry(g, chain, d, k))
  }

  lemma ListingHas(g: Geometry, chain: Chain, d: Medium, k: int)
    requires SectorSize(g.ss) && ClusterSize(g.csize) && 0 <= k <= 0xFFFF
    ensures HasEntry(g, chain, k) <==> k < |Listing(g, chain, d)|
    ensures HasEntry(g, chain, k) ==> Listing(g, chain, d)[k] == DirectoryAlloc.Entry(g, chain, d, k)
  {
    hide TableLen, HasEntry, DirectoryAlloc.Entry;
    TableLenIs(g, chain, k);
  }

  /** The listing is what the disk holds: entry e of sector o of the i-th cluster of the table, or of sector o of the
      static root directory, at byte 32 * e of that sector. */
  lemma EntryOnDisk(dp: Dir, k: nat, i: nat, o: nat, e: nat)
    requires dp.Valid() && !dp.BadStart() && k <= 0xFFFF && 32 * e + 32 <= dp.fs.g.ss
    requires if dp.chain == [] then k < dp.fs.g.nRootdir && 32 * k == o * dp.fs.g.ss + 32 * e
             else i < |dp.chain| && o < dp.fs.g.csize && 32 * k == (i * dp.fs.g.csize + o) * dp.fs.g.ss + 32 * e
    ensures var g, d, l := dp.fs.g, dp.fs.Logical(), Listing(dp.fs.g, dp.chain, dp.fs.Logical());
            var s := if dp.chain == [] then g.dirbase + o else g.database + (dp.chain[i] - 2) * g.csize + o;
            && k < |l| && 0 <= s < |d| && |d[s]| == g.ss && l[k] == d[s][32 * e..32 * e + 32]
  {
    hide SectorSize, ClusterSize, Geometry.WellFormed, FatBytes, TableOf, Overlay, Mirrored, MediumOk, Fatfs.Valid,
      Fatfs.Logical, Linked, Locate, HasEntry, DirectoryAlloc.Entry, Listing, TableLen, Dir.Valid;
    if dp.chain == [] {
      RootPlaceIsPlain(dp.fs.g, k, o, e);
    } else {
      PlaceIsPlain(dp.fs.g, dp.chain, k, i, o, e);
    }
    IsTableChain(dp);
    EntrySector(dp.fs.g, dp.fs.Table(), dp.others, dp.chain, dp.Start(), dp.fs.Logical(), k);
    ListingHas(dp.fs.g, dp.chain, dp.fs.Logical(), k);
  }

  /** How long the listing is: the root entries of the volume, or what the clusters hold, but no more than an index can
      name. */
  lemma ListingIsWhole(dp: Dir)
    requires dp.Valid() && !dp.BadStart()
    ensures var g := dp.fs.g;
            var n := if dp.chain == [] then g.nRootdir * 32 else |dp.chain| * g.csize * g.ss;
            |Listing(g, dp.chain, dp.fs.Logical())| * 32 == if n < 0x20_0000 then n else 0x20_0000
  {
    hide Geometry.WellFormed, FatBytes, TableOf, Overlay, Mirrored, MediumOk, Fatfs.Valid, Fatfs.Logical, Linked,
      Dir.Valid, DirectoryAlloc.Entry, Listing;
    ByUnitIsPlain(|dp.chain|, dp.fs.g.ss, dp.fs.g.csize);
    ByUnitIsPlain(|dp.chain| * dp.fs.g.csize, dp.fs.g.ss, dp.fs.g.csize);
    EntriesInSectors(|dp.chain| * dp.fs.g.csize, dp.fs.g.ss);
    hide SectorSize, ClusterSize, EntriesIn, SMul, CMul;
  }

  lemma EntriesInSectors(n: int, ss: int)
    requires SectorSize(ss)
    ensures EntriesIn(n, ss) * 32 == SMul(n, ss)
  {
  }

  lemma ListingSized(g: Geometry, t: Table, others: set<Chain>, chain: Chain, start: int, d: Medium)
    requires MediumOk(d, g) && TableChain(g, t, others, chain, start)
    ensures Sized(Listing(g, chain, d))
  {
    hide TableLen, HasEntry, DirectoryAlloc.Entry, Geometry.WellFormed, TableChain, Locate;
    var l := Listing(g, chain, d);
    forall k | 0 <= k < |l| ensures |l[k]| == 32 {
      ListingHas(g, chain, d, k);
      EntrySector(g, t, others, chain, start, d, k);
    }
  }

  /** Different entries do not overlap. */
  lemma EntriesApart(g: Geometry, t: Table, others: set<Chain>, chain: Chain, start: int, j: int, k: int)
    requires g.WellFormed() && TableChain(g, t, others, chain, start)
    requires HasEntry(g, chain, j) && HasEntry(g, chain, k) && j != k
    ensures var (_, s, o) := Locate(g, chain, j);
            var (_, s', o') := Locate(g, chain, k);
            s == s' ==> o + 32 <= o' || o' + 32 <= o
  {
    if Locate(g, chain, j).1 == Locate(g, chain, k).1 {
      if chain != [] { SectorNoInjective(g, t, chain, EDiv(j, g.ss), EDiv(k, g.ss)); }
      EntrySplit(j, k, g.ss);
    }
  }

  lemma EntrySplit(j: int, k: int, ss: int)
    requires SectorSize(ss) && j != k && EDiv(j, ss) == EDiv(k, ss)
    ensures EMod(j, ss) != EMod(k, ss)
  {
  }

  /** The sector of an entry is neither a FAT sector nor a copy of one. */
  lemma EntryOutside(g: Geometry, t: Table, others: set<Chain>, chain: Chain, start: int, d: Medium, k: int)
    requires MediumOk(d, g) && TableChain(g, t, others, chain, start) && HasEntry(g, chain, k)
    ensures !g.InFat(Locate(g, chain, k).1) && InTableArea(g, chain, Locate(g, chain, k).1)
  {
    if chain == [] {
      StaticEntry(g, k);
      RootSector(g, d, k);
    } else {
      OldSector(g, t, others, chain, chain, start, d, EDiv(k, g.ss));
      SectorPlace(g, chain, EDiv(k, g.ss));
    }
  }

  /** The sectors of a table. */
  ghost predicate InTableArea(g: Geometry, chain: Chain, s: int)
    requires SectorSize(g.ss) && ClusterSize(g.csize)
  {
    if chain == [] then g.dirbase <= s < g.database else g.InData(s) && g.ClusterOf(s) in chain
  }

  /** Storing 32 bytes at the place of entry k replaces exactly that entry. */
  lemma StoredInListing(g: Geometry, t: Table, others: set<Chain>, chain: Chain, start: int, d: Medium, k: int,
                        e: Direntry, w: Sector)
    requires MediumOk(d, g) && TableChain(g, t, others, chain, start)
    requires 0 <= k < |Listing(g, chain, d)| && HasEntry(g, chain, k) && |e| == 32
    requires var (_, s, o) := Locate(g, chain, k);
             0 <= s < |d| && 0 <= o && o + 32 <= |d[s]| && w == d[s][..o] + e + d[s][o + 32..]
    ensures var s := Locate(g, chain, k).1; Listing(g, chain, d[s := w]) == Listing(g, chain, d)[k := e]
  {
    hide TableLen, Geometry.WellFormed, HasEntry, Locate, TableChain;
    var (_, s, o) := Locate(g, chain, k);
    var d' := d[s := w];
    var l, l' := Listing(g, chain, d), Listing(g, chain, d');
    forall j | 0 <= j < |l| ensures l'[j] == if j == k then e else l[j] {
      ListingHas(g, chain, d, j);
      ListingHas(g, chain, d', j);
      EntrySector(g, t, others, chain, start, d, j);
      if j != k { EntriesApart(g, t, others, chain, start, j, k); }
      EntryStored(g, chain, d, j, s, o, e, w);
    }
  }

  /** One entry after a store of 32 bytes at o in sector s. */
  lemma EntryStored(g: Geometry, chain: Chain, d: Medium, j: int, s: int, o: int, e: Direntry, w: Sector)
    requires SectorSize(g.ss) && ClusterSize(g.csize) && HasEntry(g, chain, j)
    requires 0 <= s < |d| && 0 <= o && o + 32 <= |d[s]| && |e| == 32 && w == d[s][..o] + e + d[s][o + 32..]
    requires var (_, x, y) := Locate(g, chain, j); 0 <= x < |d| && 0 <= y && y + 32 <= |d[x]|
    requires var (_, x, y) := Locate(g, chain, j); x == s ==> y == o || y + 32 <= o || o + 32 <= y
    ensures var (_, x, y) := Locate(g, chain, j);
            DirectoryAlloc.Entry(g, chain, d[s := w], j)
            == if x == s && y == o then e else DirectoryAlloc.Entry(g, chain, d, j)
  {
    hide Locate, HasEntry;
    var (_, x, y) := Locate(g, chain, j);
    if x == s {
      SplicedSlice(d[s], o, e, w, y);
    }
  }

  lemma SplicedSlice(was: seq<byte>, o: nat, e: seq<byte>, w: seq<byte>, y: nat)
    requires o + 32 <= |was| && |e| == 32 && w == was[..o] + e + was[o + 32..] && y + 32 <= |was|
    requires y == o || y + 32 <= o || o + 32 <= y
    ensures |w| == |was| && w[y..y + 32] == if y == o then e else was[y..y + 32]
  {
  }

  // ---------- one entry through the window ----------

  /** What a change of entries keeps: the table of the volume and its promises, and every sector outside the FAT that is
      not the directory's own. */
  twostate predicate OnlyEntries(dp: Dir)
    reads dp`chain, dp`others, dp.fs`winsect, dp.fs`wflag, dp.fs`freeClust, dp.fs.drive, dp.fs.win
  {
    && old(dp.Valid()) && dp.Valid() && dp.others == old(dp.others) && dp.chain == old(dp.chain)
    && SectorSize(dp.fs.g.ss) && ClusterSize(dp.fs.g.csize)
    && dp.fs.Table() == old(dp.fs.Table()) && Promises(dp.fs)
    && OutsideKept(dp.fs.g, dp.chain, old(dp.fs.Logical()), dp.fs.Logical())
  }

  ghost predicate OutsideKept(g: Geometry, chain: Chain, d: Medium, e: Medium)
    requires SectorSize(g.ss) && ClusterSize(g.csize)
  {
    |e| == |d| && forall s :: 0 <= s < |d| && !g.InFat(s) && !InTableArea(g, chain, s) ==> e[s] == d[s]
  }

  lemma OutsideAgain(g: Geometry, chain: Chain, d: Medium, e: Medium, f: Medium)
    requires SectorSize(g.ss) && ClusterSize(g.csize) && OutsideKept(g, chain, d, e) && OutsideKept(g, chain, e, f)
    ensures OutsideKept(g, chain, d, f)
  {
    hide InTableArea;
  }

  /** Bring the sector of the current entry into the window. */
  method EnterWindow(dp: Dir) returns (res: FResult)
    requires dp.Valid() && !dp.BadStart() && dp.At(dp.index as int)
    modifies dp.fs`winsect, dp.fs`wflag, dp.fs.drive, dp.fs.win
    ensures SameDisk(dp.fs) && dp.Valid() && (res != FrOk ==> res == FrDiskErr && !dp.fs.drive.reliable)
    ensures res == FrOk ==>
      && dp.fs.winsect == dp.sect && dp.ofs + 32 <= dp.fs.win.Length
      && dp.index < |Listing(dp.fs.g, dp.chain, dp.fs.Logical())|
      && dp.fs.win[dp.ofs..dp.ofs + 32] == Listing(dp.fs.g, dp.chain, dp.fs.Logical())[dp.index]
  {
    hide Geometry.WellFormed, FatBytes, TableOf, Overlay, Mirrored, Wrote, MediumOk, Fatfs.CopiesAgree, Fatfs.Valid,
      Fatfs.Logical, Linked, SectorNo, Span, EDiv, EMod, Locate, HasEntry, DirectoryAlloc.Entry, Free, Listing,
      TableLen;
    var free;
    res, free := LookAt(dp);
    ListingHas(dp.fs.g, dp.chain, dp.fs.Logical(), dp.index as int);
  }

  /** Store the current entry in the window, which is on its sector. */
  method PutInWindow(dp: Dir, e: array<byte>)
    requires dp.Valid() && !dp.BadStart() && dp.At(dp.index as int) && e.Length == 32 && e != dp.fs.win
    requires dp.fs.winsect == dp.sect && dp.ofs + 32 <= dp.fs.win.Length
    modifies dp.fs`wflag, dp.fs.win
    ensures OnlyEntries(dp)
    ensures dp.index < |old(Listing(dp.fs.g, dp.chain, dp.fs.Logical()))|
    ensures Listing(dp.fs.g, dp.chain, dp.fs.Logical())
            == old(Listing(dp.fs.g, dp.chain, dp.fs.Logical()))[dp.index := e[..]]
  {
    hide Geometry.WellFormed, FatBytes, TableOf, FreeCount, Overlay, Mirrored, Wrote, NoLinkToFree, SafeHistory,
      Locate, HasEntry, DirectoryAlloc.Entry, Listing, TableLen, Linked, TableChain, InTableArea;
    ghost var fs, g, d, k := dp.fs, dp.fs.g, dp.fs.Logical(), dp.index as int;
    ghost var w, dirty := dp.fs.win[..], dp.fs.wflag;
    IsTableChain(dp);
    ListingHas(g, dp.chain, d, k);
    EntrySector(g, fs.Table(), dp.others, dp.chain, dp.Start(), d, k);
    EntryOutside(g, fs.Table(), dp.others, dp.chain, dp.Start(), d, k);
    InTheWindow(fs);
    MemCpy(dp.fs.win, dp.ofs, e, 0, 32);
    assert e[0..32] == e[..];
    OverlayStored(g, fs.drive.sectors, fs.winsect, dirty, w, fs.win[..]);
    dp.fs.wflag := true;
    FileSync.SameFat(g, d, fs.Logical(), fs.winsect, fs.win[..]);
    SameBytesSameTable(d, fs.Logical(), g);
    FileSync.MirrorOff(g, fs.drive.sectors, fs.winsect, dirty);
    StoredInListing(g, fs.Table(), dp.others, dp.chain, dp.Start(), d, k, e[..], fs.win[..]);
  }

  /** The window shows its sector. */
  lemma InTheWindow(fs: Fatfs)
    requires fs.Valid() && fs.winsect != NO_SECTOR
    ensures fs.winsect < |fs.Logical()| && fs.win[..] == fs.Logical()[fs.winsect] && fs.win.Length == fs.g.ss
  {
    hide FatBytes;
  }

  // ---------- dir_read ----------

  /** Move on without stretching the table. */
  method NextOfListing(dp: Dir) returns (res: FResult)
    requires dp.Valid() && !dp.BadStart() && dp.At(dp.index as int)
    modifies dp`index, dp`clust, dp`sect, dp`ofs, dp`chain, dp.fs, dp.fs.drive, dp.fs.win
    ensures res == FrOk || res == FrNoFile || (res == FrDiskErr && !dp.fs.drive.reliable)
    ensures res != FrDiskErr ==>
      dp.Valid() && dp.chain == old(dp.chain) && dp.fs.Logical() == old(dp.fs.Logical()) && Promises(dp.fs)
    ensures res == FrOk ==>
      && old(dp.index) < 0xFFFF && dp.index == old(dp.index) + 1 && dp.At(dp.index as int)
      && dp.index < |Listing(dp.fs.g, dp.chain, dp.fs.Logical())|
    ensures res == FrNoFile ==> old(dp.index) + 1 == |Listing(dp.fs.g, dp.chain, dp.fs.Logical())|
  {
    hide Geometry.WellFormed, FatBytes, TableOf, FreeCount, Overlay, Mirrored, Wrote, MediumOk, Fatfs.Valid,
      Fatfs.Logical, Fatfs.CopiesAgree, Linked, Locate, HasEntry, DirectoryAlloc.Entry, Listing, TableLen, CountOk,
      WriteOrderOk, Stretched, Dir.Valid, Dir.At, Full;
    ghost var k := dp.index as int;
    ListingGoesOn(dp, k);
    res := DirNext(dp, false);
    if res == FrNoFile { ListingEnds(dp.fs.g, dp.chain, dp.fs.Logical(), k + 1); }
    if res == FrOk { ListingGoesOn(dp, k + 1); }
  }

  /** The state of the scan before entry k. */
  ghost predicate Looking(table: seq<Direntry>, p: nat, k: nat, vol: bool, first: nat, at: nat, name: seq<word>,
                          ord: byte, sum: byte, lfnIdx: word, buf: seq<word>) {
    && Sized(table) && p <= k < |table| <= 0x1_0000 && PassedFrom(table, p, k, vol)
    && (!vol && Ahead(table, p, first, at, name) ==>
          at < |table| && |table[at]| == 32 && Scanning(table, first, at, name, k, ord, sum, lfnIdx, buf))
  }

  /** Where a scan from entry p ends and with what: at the first entry of the wanted kind, or at the end of the table.
      A name recorded ahead comes back, with the index of its first entry, exactly if it is not longer than 253
      characters. */
  ghost predicate CameTo(table: seq<Direntry>, p: nat, end: nat, res: FResult, vol: bool,
                         first: nat, at: nat, name: seq<word>, lfnIdx: word, buf: seq<word>) {
    && p <= end && PassedFrom(table, p, end, vol)
    && (res == FrOk ==> end < |table| && StopsAt(table[end], vol))
    && (res == FrNoFile ==> end == |table| || (end < |table| && |table[end]| == 32 && table[end][0] == 0))
    && (!vol && Ahead(table, p, first, at, name) ==>
          && res == FrOk && end == at
          && (|name| <= 253 ==> lfnIdx as int == first && Holds(buf, name))
          && (|name| > 253 ==> lfnIdx == 0xFFFF))
  }

  lemma LookingStarts(table: seq<Direntry>, p: nat, vol: bool, first: nat, at: nat, name: seq<word>,
                      ord: byte, sum: byte, lfnIdx: word, buf: seq<word>)
    requires Sized(table) && p < |table| <= 0x1_0000
    ensures Looking(table, p, p, vol, first, at, name, ord, sum, lfnIdx, buf)
  {
    hide Ahead, Scanning;
    if Ahead(table, p, first, at, name) { AheadStarts(table, p, first, at, name, ord, sum, lfnIdx, buf); }
  }

  /** A name recorded ahead lies before the end of the table. */
  lemma NotAtEnd(table: seq<Direntry>, p: nat, first: nat, at: nat, name: seq<word>, k: nat,
                 ord: byte, sum: byte, lfnIdx: word, buf: seq<word>)
    requires Ahead(table, p, first, at, name) && at < |table| && |table[at]| == 32
    requires Scanning(table, first, at, name, k, ord, sum, lfnIdx, buf)
    ensures k < |table|
  {
    hide Ahead;
    NotPast(table, first, at, name, k, ord, sum, lfnIdx, buf);
  }

  /** One round: look at the current entry, and move on if it is passed over. */
  method ReadEntry(dp: Dir, vol: bool, lfnbuf: array<word>, ord0: byte, sum0: byte, idx0: word,
                   ghost table: seq<Direntry>, ghost p: nat, ghost first: nat, ghost at: nat, ghost name: seq<word>)
    returns (res: FResult, found: bool, ord: byte, sum: byte, lfnIdx: word, ghost end: nat)
    requires dp.Valid() && !dp.BadStart() && dp.At(dp.index as int) && lfnbuf.Length == 256
    requires table == Listing(dp.fs.g, dp.chain, dp.fs.Logical())
    requires Looking(table, p, dp.index as nat, vol, first, at, name, ord0, sum0, idx0, lfnbuf[..])
    modifies dp`index, dp`clust, dp`sect, dp`ofs, dp`chain, dp.fs, dp.fs.drive, dp.fs.win, lfnbuf
    ensures res == FrOk || res == FrNoFile || (res == FrDiskErr && !dp.fs.drive.reliable)
    ensures res != FrDiskErr ==>
      dp.Valid() && dp.chain == old(dp.chain) && dp.fs.Logical() == old(dp.fs.Logical()) && Promises(dp.fs)
    ensures res == FrOk ==> dp.At(dp.index as int)
    ensures res == FrNoFile || (res == FrOk && found) ==>
      CameTo(table, p, end, res, vol, first, at, name, lfnIdx, lfnbuf[..])
    ensures res == FrOk && found ==> end == dp.index as nat
    ensures res == FrOk && !found ==>
      && dp.index as nat == old(dp.index) as nat + 1
      && Looking(table, p, dp.index as nat, vol, first, at, name, ord, sum, lfnIdx, lfnbuf[..])
  {
    hide Ahead, PassedFrom, Scanning, StopsAt, Holds, Geometry.WellFormed, FatBytes, TableOf, FreeCount, Overlay,
      Mirrored, Wrote, MediumOk, Fatfs.Valid, Fatfs.Logical, Fatfs.CopiesAgree, Linked, Locate, HasEntry,
      DirectoryAlloc.Entry, Listing, TableLen, CountOk, WriteOrderOk, Dir.Valid, Dir.At;
    ord, sum, lfnIdx, found, end := ord0, sum0, idx0, false, dp.index as nat;
    res := EnterWindow(dp);
    if res != FrOk { return; }
    SameDiskPromises(dp.fs);
    var step;
    step, ord, sum, lfnIdx := ScanEntry(dp.fs.win[dp.ofs..dp.ofs + 32], vol, dp.index, lfnbuf, ord, sum, lfnIdx,
                                        table, p, first, at, name);
    if step == NoMore { res := FrNoFile; return; }
    if step == Found { found := true; return; }
    if !vol && Ahead(table, p, first, at, name) {
      NotAtEnd(table, p, first, at, name, end + 1, ord, sum, lfnIdx, lfnbuf[..]);
    }
    end := end + 1;
    res := NextOfListing(dp);
  }

  /** The scan loop of dir_read. */
  method ReadTable(dp: Dir, vol: bool, lfnbuf: array<word>, idx0: word,
                   ghost first: nat, ghost at: nat, ghost name: seq<word>)
    returns (res: FResult, lfnIdx: word, ghost end: nat)
    requires dp.Valid() && !dp.BadStart() && dp.At(dp.index as int) && lfnbuf.Length == 256
    modifies dp`index, dp`clust, dp`sect, dp`ofs, dp`chain, dp.fs, dp.fs.drive, dp.fs.win, lfnbuf
    ensures res == FrOk || res == FrNoFile || (res == FrDiskErr && !dp.fs.drive.reliable)
    ensures res != FrDiskErr ==>
      dp.Valid() && dp.chain == old(dp.chain) && dp.fs.Logical() == old(dp.fs.Logical()) && Promises(dp.fs)
    ensures res == FrOk ==> dp.At(end)
    ensures res != FrDiskErr ==>
      CameTo(old(Listing(dp.fs.g, dp.chain, dp.fs.Logical())), old(dp.index) as nat, end, res, vol, first, at, name,
             lfnIdx, lfnbuf[..])
  {
    hide Looking, CameTo, Holds, Geometry.WellFormed, FatBytes, TableOf, FreeCount, Overlay, Mirrored, Wrote,
      MediumOk, Fatfs.Valid, Fatfs.Logical, Fatfs.CopiesAgree, Linked, Locate, HasEntry, DirectoryAlloc.Entry,
      Listing, TableLen, CountOk, WriteOrderOk, Dir.Valid, Dir.At;
    ghost var g, d, p := dp.fs.g, dp.fs.Logical(), dp.index as nat;
    ghost var table := Listing(g, dp.chain, d);
    TableSized(dp);
    var ord: byte, sum: byte := 0xFF, 0xFF;
    lfnIdx := idx0;
    LookingStarts(table, p, vol, first, at, name, ord, sum, lfnIdx, lfnbuf[..]);
    NothingMoved(dp.fs);
    while true
      invariant dp.Valid() && !dp.BadStart() && dp.At(dp.index as int) && lfnbuf.Length == 256
      invariant dp.chain == old(dp.chain) && dp.fs.Logical() == d && Promises(dp.fs)
      invariant Looking(table, p, dp.index as nat, vol, first, at, name, ord, sum, lfnIdx, lfnbuf[..])
      decreases 0x1_0000 - dp.index
    {
      var found;
      res, found, ord, sum, lfnIdx, end :=
        ReadEntry(dp, vol, lfnbuf, ord, sum, lfnIdx, table, p, first, at, name);
      if res != FrOk || found { return; }
    }
  }

  /** Read on from the current entry to the next file or directory, capturing its long name, or to the volume label.
      After the end of the table, or a failure, the cursor stands nowhere and every further call reports the end. */
  method DirRead(dp: Dir, vol: bool, lfnbuf: array<word>, idx0: word,
                 ghost first: nat, ghost at: nat, ghost name: seq<word>)
    returns (res: FResult, lfnIdx: word, ghost end: nat)
    requires dp.Valid() && !dp.BadStart() && (dp.sect != 0 ==> dp.At(dp.index as int))
    requires lfnbuf.Length == 256
    modifies dp`index, dp`clust, dp`sect, dp`ofs, dp`chain, dp.fs, dp.fs.drive, dp.fs.win, lfnbuf
    ensures res == FrOk || res == FrNoFile || (res == FrDiskErr && !dp.fs.drive.reliable)
    ensures res != FrDiskErr ==>
      dp.Valid() && dp.chain == old(dp.chain) && dp.fs.Logical() == old(dp.fs.Logical()) && Promises(dp.fs)
    ensures res == FrOk ==> dp.At(end) && old(dp.sect) != 0
    ensures res != FrOk ==> dp.sect == 0
    ensures old(dp.sect) == 0 ==>
      res == FrNoFile && lfnIdx == idx0 && unchanged(dp, dp.fs, dp.fs.drive, dp.fs.win, lfnbuf)
    ensures res != FrDiskErr && old(dp.sect) != 0 ==>
      CameTo(old(Listing(dp.fs.g, dp.chain, dp.fs.Logical())), old(dp.index) as nat, end, res, vol, first, at, name,
             lfnIdx, lfnbuf[..])
  {
    hide CameTo, Geometry.WellFormed, FatBytes, TableOf, FreeCount, Overlay, Mirrored, Wrote, MediumOk, Fatfs.Valid,
      Fatfs.Logical, Fatfs.CopiesAgree, Linked, Locate, HasEntry, DirectoryAlloc.Entry, Listing, TableLen, CountOk,
      WriteOrderOk, Dir.Valid, Dir.At;
    res, lfnIdx, end := FrNoFile, idx0, dp.index as nat;
    if dp.sect != 0 {
      res, lfnIdx, end := ReadTable(dp, vol, lfnbuf, idx0, first, at, name);
    } else {
      NothingMoved(dp.fs);
    }
    if res != FrOk { dp.sect := 0; }
  }

  lemma TableSized(dp: Dir)
    requires dp.Valid() && !dp.BadStart() && dp.At(dp.index as int)
    ensures Sized(Listing(dp.fs.g, dp.chain, dp.fs.Logical()))
    ensures dp.index < |Listing(dp.fs.g, dp.chain, dp.fs.Logical())| <= 0x1_0000
  {
    hide TableLen, HasEntry, DirectoryAlloc.Entry, Geometry.WellFormed, TableChain, Locate, FatBytes;
    IsTableChain(dp);
    ListingSized(dp.fs.g, dp.fs.Table(), dp.others, dp.chain, dp.Start(), dp.fs.Logical());
    ListingHas(dp.fs.g, dp.chain, dp.fs.Logical(), dp.index as int);
  }

  lemma ListingGoesOn(dp: Dir, k: nat)
    requires dp.Valid() && dp.At(k)
    ensures dp.index as nat == k < |Listing(dp.fs.g, dp.chain, dp.fs.Logical())|
  {
    hide TableLen, HasEntry, DirectoryAlloc.Entry, Geometry.WellFormed, Locate, FatBytes;
    ListingHas(dp.fs.g, dp.chain, dp.fs.Logical(), dp.index as int);
  }

  /** Where dir_next finds no entry the listing ends. */
  lemma ListingEnds(g: Geometry, chain: Chain, d: Medium, k: int)
    requires SectorSize(g.ss) && ClusterSize(g.csize) && 0 < k <= 0x1_0000
    requires k - 1 < |Listing(g, chain, d)| && (k == 0x1_0000 || !HasEntry(g, chain, k))
    ensures k == |Listing(g, chain, d)|
  {
    hide TableLen, HasEntry, DirectoryAlloc.Entry;
    if k <= 0xFFFF { ListingHas(g, chain, d, k); }
  }

  // ---------- dir_register ----------

  /** l' is l but for the entries from first to index. */
  predicate OnlyBetween(l: seq<Direntry>, l': seq<Direntry>, first: int, index: int) {
    |l| <= |l'| && forall i :: 0 <= i < |l| && !(first <= i <= index) ==> l'[i] == l[i]
  }

  lemma OneMoreStored(l: seq<Direntry>, l': seq<Direntry>, first: int, index: int, e: Direntry)
    requires OnlyBetween(l, l', first, index - 1) && first <= index && 0 <= index < |l'|
    ensures OnlyBetween(l, l'[index := e], first, index)
  {
  }

  /** One more part through the window. */
  method PutPart(dp: Dir, lfn: seq<word>, buf: array<byte>, ord: byte, sum: byte, ghost name: seq<word>)
    returns (res: FResult)
    requires dp.Valid() && !dp.BadStart() && dp.At(dp.index as int) && buf.Length == 32 && buf != dp.fs.win
    requires IsName(name) && Holds(lfn, name) && 1 <= ord <= 20 && 13 * (ord as int - 1) < |name|
    modifies dp.fs`winsect, dp.fs`wflag, dp.fs.drive, dp.fs.win, buf
    ensures res == FrOk || (res == FrDiskErr && !dp.fs.drive.reliable)
    ensures res == FrOk ==>
      && OnlyEntries(dp) && IsPart(buf[..], name, ord as nat, sum)
      && dp.index < |old(Listing(dp.fs.g, dp.chain, dp.fs.Logical()))|
      && Listing(dp.fs.g, dp.chain, dp.fs.Logical())
         == old(Listing(dp.fs.g, dp.chain, dp.fs.Logical()))[dp.index := buf[..]]
  {
    hide IsPart, IsName, Geometry.WellFormed, FatBytes, TableOf, FreeCount, Overlay, Mirrored, Wrote, MediumOk,
      Fatfs.Valid, Fatfs.Logical, Fatfs.CopiesAgree, Linked, Locate, HasEntry, DirectoryAlloc.Entry, Listing, TableLen,
      CountOk, WriteOrderOk, Dir.Valid, Dir.At, OutsideKept;
    res := EnterWindow(dp);
    if res != FrOk { return; }
    SameDiskPromises(dp.fs);
    SameTableOf(dp.fs);
    FitLfn(lfn, buf, ord, sum, name);
    PutInWindow(dp, buf);
  }

  twostate lemma SameTableOf(fs: Fatfs)
    requires SameDisk(fs)
    ensures fs.Table() == old(fs.Table())
  {
  }

  /** The entries of the long name: nent parts before entry index, last part first. */
  method PutParts(dp: Dir, lfn: seq<word>, nent: nat, sum: byte, ghost name: seq<word>, ghost index: nat)
    returns (res: FResult)
    requires dp.Valid() && !dp.BadStart() && IsName(name) && Holds(lfn, name) && 1 <= nent == Parts(name) <= 20
    requires nent <= index <= 0xFFFF && dp.At(index - nent) && index < |Listing(dp.fs.g, dp.chain, dp.fs.Logical())|
    modifies dp`index, dp`clust, dp`sect, dp`ofs, dp`chain, dp.fs, dp.fs.drive, dp.fs.win
    ensures res == FrOk || (res == FrDiskErr && !dp.fs.drive.reliable)
    ensures res == FrOk ==> OnlyEntries(dp) && dp.index as nat == index && dp.At(index)
    ensures res == FrOk ==>
      var l, l' := old(Listing(dp.fs.g, dp.chain, dp.fs.Logical())), Listing(dp.fs.g, dp.chain, dp.fs.Logical());
      |l'| == |l| && PartsAbove(l', index, 0, name, sum) && OnlyBetween(l, l', index - nent, index - 1)
  {
    hide IsPart, IsName, Geometry.WellFormed, FatBytes, TableOf, FreeCount, Overlay, Mirrored, Wrote, MediumOk,
      Fatfs.Valid, Fatfs.Logical, Fatfs.CopiesAgree, Linked, Locate, HasEntry, DirectoryAlloc.Entry, Listing, TableLen,
      CountOk, WriteOrderOk, Dir.Valid, Dir.At, OutsideKept, PartsAbove, OnlyBetween, Holds;
    res := FrOk;
    ghost var g, l := dp.fs.g, Listing(dp.fs.g, dp.chain, dp.fs.Logical());
    var buf := new byte[32](_ => 0);
    var n := nent;
    ListingGoesOn(dp, index - nent);
    NothingStored(dp);
    NoPartYet(l, index, name, sum);
    NothingBetween(l, index - nent);
    while n != 0
      invariant n <= nent && res == FrOk && buf.Length == 32 && !dp.BadStart() && fresh(buf)
      invariant OnlyEntries(dp) && dp.index as int == index - n && dp.At(dp.index as int)
      invariant var l' := Listing(g, dp.chain, dp.fs.Logical());
        |l'| == |l| && PartsAbove(l', index, n, name, sum) && OnlyBetween(l, l', index - nent, index - n - 1)
    {
      ghost var d, l1 := dp.fs.Logical(), Listing(g, dp.chain, dp.fs.Logical());
      res := PutPart(dp, lfn, buf, n, sum, name);
      if res != FrOk { return; }
      OnePartMore(l1, index, n, name, sum, buf[..]);
      OneMoreStored(l, l1, index - nent, index - n, buf[..]);
      OutsideAgain(g, dp.chain, old(dp.fs.Logical()), d, dp.fs.Logical());
      res := NextOfListing(dp);
      if res == FrDiskErr { return; }
      n := n - 1;
    }
  }

  lemma NothingBetween(l: seq<Direntry>, first: int)
    ensures OnlyBetween(l, l, first, first - 1)
  {
  }

  twostate lemma NothingStored(dp: Dir)
    requires old(dp.Valid()) && dp.Valid() && dp.chain == old(dp.chain) && dp.others == old(dp.others)
    requires dp.fs.winsect == old(dp.fs.winsect) && dp.fs.wflag == old(dp.fs.wflag)
    requires dp.fs.drive.sectors == old(dp.fs.drive.sectors) && dp.fs.drive.history == old(dp.fs.drive.history)
    requires dp.fs.win[..] == old(dp.fs.win[..]) && dp.fs.freeClust == old(dp.fs.freeClust)
    ensures OnlyEntries(dp)
  {
    NothingMoved(dp.fs);
  }

  /** Entry index is the short entry of fn. */
  predicate ShortAt(l: seq<Direntry>, index: nat, fn: seq<byte>)
    requires |fn| == 12
  {
    index < |l| && IsShort(l[index]) && l[index] == ShortEntryOf(fn)
  }

  function ShortEntryOf(fn: seq<byte>): (e: Direntry)
    requires |fn| == 12
    ensures |e| == 32
  {
    fn[..11] + [0, fn[11] / 8 % 4 * 8] + seq(19, _ => 0)
  }

  /** The short entry in bytes: the name, no attributes, the two case flags, nothing else. */
  lemma ShortEntryIs(fn: seq<byte>)
    requires |fn| == 12
    ensures var e := ShortEntryOf(fn);
            && e[..11] == fn[..11] && e[11] == 0 && e[12] % 8 == 0 && e[12] / 8 == fn[11] / 8 % 4
            && forall i :: 13 <= i < 32 ==> e[i] == 0
  {
  }

  /** The short entry through the window. */
  method PutShort(dp: Dir, fn: seq<byte>) returns (res: FResult)
    requires dp.Valid() && !dp.BadStart() && dp.At(dp.index as int)
    requires |fn| == 12 && fn[0] != 0 && fn[0] != 0xE5 && fn[0] != 0x2E
    modifies dp.fs`winsect, dp.fs`wflag, dp.fs.drive, dp.fs.win
    ensures res == FrOk || (res == FrDiskErr && !dp.fs.drive.reliable)
    ensures res == FrOk ==>
      && OnlyEntries(dp) && dp.index < |old(Listing(dp.fs.g, dp.chain, dp.fs.Logical()))|
      && Listing(dp.fs.g, dp.chain, dp.fs.Logical())
         == old(Listing(dp.fs.g, dp.chain, dp.fs.Logical()))[dp.index := ShortEntryOf(fn)]
  {
    hide Geometry.WellFormed, FatBytes, TableOf, FreeCount, Overlay, Mirrored, Wrote, MediumOk, Fatfs.Valid,
      Fatfs.Logical, Fatfs.CopiesAgree, Linked, Locate, HasEntry, DirectoryAlloc.Entry, Listing, TableLen, CountOk,
      WriteOrderOk, Dir.Valid, Dir.At, OutsideKept;
    res := EnterWindow(dp);
    if res != FrOk { return; }
    SameDiskPromises(dp.fs);
    SameTableOf(dp.fs);
    ghost var e := ShortEntryOf(fn);
    var buf := new byte[32](i requires 0 <= i < 32 && |fn| == 12 => ShortEntryOf(fn)[i]);
    assert buf[..] == e;
    PutInWindow(dp, buf);
  }

  /** What dir_register leaves: the reserved run, free before, holds the name's parts and its short entry; all other
      entries, and all sectors outside FAT and table, are as they were. */
  twostate predicate Registered(dp: Dir, fn: seq<byte>, long: bool, name: seq<word>)
    requires |fn| == 12
    reads dp`chain, dp`others, dp`index, dp.fs`winsect, dp.fs`wflag, dp.fs`freeClust, dp.fs.drive, dp.fs.win
  {
    && old(dp.Valid()) && dp.Valid() && dp.others == old(dp.others) && old(dp.chain) <= dp.chain
    && SectorSize(dp.fs.g.ss) && ClusterSize(dp.fs.g.csize) && Promises(dp.fs)
    && OutsideKept(dp.fs.g, dp.chain, old(dp.fs.Logical()), dp.fs.Logical())
    && var l, l', first := old(Listing(dp.fs.g, dp.chain, dp.fs.Logical())),
                           Listing(dp.fs.g, dp.chain, dp.fs.Logical()),
                           dp.index - if long then Parts(name) else 0;
    && 0 <= first && OnlyBetween(l, l', first, dp.index as int) && ShortAt(l', dp.index as nat, fn)
    && (long ==> Recorded(l', first, dp.index as nat, name))
    && forall i :: first <= i <= dp.index && i < |l| ==> |l[i]| == 32 && (l[i][0] == 0xE5 || l[i][0] == 0)
  }

  /** After dir_alloc: the listing has grown at the end, and the run it found is free in the old one. */
  lemma AllocListing(g: Geometry, chain: Chain, chain': Chain, d: Medium, d': Medium, index: int, nent: nat)
    requires SectorSize(g.ss) && ClusterSize(g.csize) && EntriesKept(g, chain, chain', d, d')
    requires FreeRun(g, chain', d', index, nent)
    ensures var l, l' := Listing(g, chain, d), Listing(g, chain', d');
            && OnlyBetween(l, l', index + 1, index)
            && forall i :: index - nent < i <= index && i < |l| ==> |l[i]| == 32 && (l[i][0] == 0xE5 || l[i][0] == 0)
  {
    hide TableLen, HasEntry, DirectoryAlloc.Entry, Locate;
    var l, l' := Listing(g, chain, d), Listing(g, chain', d');
    forall i | 0 <= i < |l| ensures i < |l'| && l'[i] == l[i] {
      ListingHas(g, chain, d, i);
      ListingHas(g, chain', d', i);
    }
    assert |l| > 0 ==> l[|l| - 1] in l;
    forall i | index - nent < i <= index && i < |l| ensures |l[i]| == 32 && (l[i][0] == 0xE5 || l[i][0] == 0) {
      ListingHas(g, chain, d, i);
      ListingHas(g, chain', d', i);
      assert Free(g, chain', d', i);
    }
  }

  lemma GrewOutside(g: Geometry, chain: Chain, chain': Chain, d: Medium, d': Medium)
    requires SectorSize(g.ss) && ClusterSize(g.csize) && Grew(g, chain, chain', d, d')
    requires chain == [] ==> chain' == []
    ensures chain <= chain' && OutsideKept(g, chain', d, d')
  {
    forall s | 0 <= s < |d| && !g.InFat(s) && !InTableArea(g, chain', s) ensures d'[s] == d[s] {
      assert g.ClusterOf(s) in chain'[|chain|..] ==> g.ClusterOf(s) in chain';
    }
  }

  /** There is no run of that many free entries, and none can be made. */
  ghost predicate NoRun(dp: Dir, wanted: int)
    requires dp.fs.Valid()
    reads dp`chain, dp.fs`winsect, dp.fs`wflag, dp.fs.drive, dp.fs.win
  {
    exists end :: NothingReserved(dp, end, wanted)
  }

  /** Register a name: reserve the entries, then store the parts of the long name, last part first, and the short
      entry. */
  method DirRegister(dp: Dir, fn: seq<byte>, long: bool, lfn: seq<word>, ghost name: seq<word>) returns (res: FResult)
    requires dp.Valid() && |fn| == 12 && fn[0] != 0 && fn[0] != 0xE5 && fn[0] != 0x2E
    requires long ==> IsName(name) && |name| <= 255 && Holds(lfn, name)
    modifies dp`index, dp`clust, dp`sect, dp`ofs, dp`chain, dp.fs, dp.fs.drive, dp.fs.win
    ensures res == FrOk || res == FrDenied || res == FrIntErr || (res == FrDiskErr && !dp.fs.drive.reliable)
    ensures res == FrOk ==> Registered(dp, fn, long, name) && dp.At(dp.index as int) && !dp.BadStart()
    ensures res == FrDenied ==>
      Reserving(dp) && NoRun(dp, if long then Parts(name) + 1 else 1)
    ensures res == FrIntErr ==> dp.BadStart() || !HasEntry(dp.fs.g, old(dp.chain), 0)
  {
    hide IsPart, IsName, Geometry.WellFormed, FatBytes, TableOf, FreeCount, Overlay, Mirrored, Wrote, MediumOk,
      Fatfs.Valid, Fatfs.Logical, Fatfs.CopiesAgree, Linked, Locate, HasEntry, DirectoryAlloc.Entry, Listing, TableLen,
      CountOk, WriteOrderOk, Dir.Valid, Dir.At, OutsideKept, PartsAbove, OnlyBetween, Holds, Grew, EntriesKept, FreeRun,
      NoRunBefore, IsShort, SumOf, NothingReserved;
    var parts: nat := 0;
    if long { parts := CountParts(lfn, name); }
    res := DirAlloc(dp, parts + 1);
    if res != FrOk { return; }
    ghost var g, d, d1 := dp.fs.g, old(dp.fs.Logical()), dp.fs.Logical();
    ghost var l, l1 := old(Listing(g, dp.chain, dp.fs.Logical())), Listing(g, dp.chain, dp.fs.Logical());
    AllocStart(dp, parts + 1);
    AllocListing(g, old(dp.chain), dp.chain, d, d1, dp.index as int, parts + 1);
    GrewOutside(g, old(dp.chain), dp.chain, d, d1);
    ghost var index := dp.index as nat;
    res := FillRun(dp, fn, long, lfn, parts, name);
    if res != FrOk { return; }
    OutsideAgain(g, dp.chain, d, d1, dp.fs.Logical());
    BetweenAgain(l, l1, Listing(g, dp.chain, dp.fs.Logical()), index - parts, index);
  }

  lemma BetweenAgain(l: seq<Direntry>, l1: seq<Direntry>, l2: seq<Direntry>, first: int, index: int)
    requires OnlyBetween(l, l1, index + 1, index) && OnlyBetween(l1, l2, first, index)
    ensures OnlyBetween(l, l2, first, index)
  {
  }

  /** Fill the reserved run that ends at the current entry. */
  method FillRun(dp: Dir, fn: seq<byte>, long: bool, lfn: seq<word>, parts: nat, ghost name: seq<word>)
    returns (res: FResult)
    requires dp.Valid() && !dp.BadStart() && dp.At(dp.index as int)
    requires |fn| == 12 && fn[0] != 0 && fn[0] != 0xE5 && fn[0] != 0x2E
    requires if long then IsName(name) && |name| <= 255 && Holds(lfn, name)
      && 1 <= parts == Parts(name) <= 20 else parts == 0
    requires parts <= dp.index as nat < |Listing(dp.fs.g, dp.chain, dp.fs.Logical())|
    requires HasEntry(dp.fs.g, dp.chain, dp.index as nat - parts)
    modifies dp`index, dp`clust, dp`sect, dp`ofs, dp`chain, dp.fs, dp.fs.drive, dp.fs.win
    ensures res == FrOk || (res == FrDiskErr && !dp.fs.drive.reliable)
    ensures res == FrOk ==> OnlyEntries(dp) && dp.index == old(dp.index) && dp.At(dp.index as int)
    ensures res == FrOk ==>
      var l, l', at := old(Listing(dp.fs.g, dp.chain, dp.fs.Logical())), Listing(dp.fs.g, dp.chain, dp.fs.Logical()),
                       dp.index as nat;
      && OnlyBetween(l, l', at - parts, at) && ShortAt(l', at, fn) && (long ==> Recorded(l', at - parts, at, name))
  {
    hide IsPart, IsName, Geometry.WellFormed, FatBytes, TableOf, FreeCount, Overlay, Mirrored, Wrote, MediumOk,
      Fatfs.Valid, Fatfs.Logical, Fatfs.CopiesAgree, Linked, Locate, HasEntry, DirectoryAlloc.Entry, Listing, TableLen,
      CountOk, WriteOrderOk, Dir.Valid, Dir.At, OutsideKept, PartsAbove, OnlyBetween, Holds, IsShort, SumOf, Recorded,
      ShortAt;
    res := FrOk;
    ghost var g, d := dp.fs.g, dp.fs.Logical();
    ghost var l, index := Listing(g, dp.chain, d), dp.index as nat;
    NothingStored(dp);
    NothingBetween(l, index + 1);
    if parts != 0 {
      var to := dp.index as nat - parts;
      res := DirSdi(dp, to);
      if res != FrOk { return; }
      StandsAt(dp, to);
      SameDiskPromises(dp.fs);
      var sum := SumSfn(fn);
      res := PutParts(dp, lfn, parts, sum, name, index);
      if res != FrOk { return; }
    }
    ghost var d2, l2 := dp.fs.Logical(), Listing(g, dp.chain, dp.fs.Logical());
    res := PutShort(dp, fn);
    if res != FrOk { return; }
    OutsideAgain(g, dp.chain, d, d2, dp.fs.Logical());
    RegisteredIn(l, l, l2, index, parts, fn, long, name);
  }

  /** The listing after the parts and the short entry have been stored. */
  lemma RegisteredIn(l: seq<Direntry>, l1: seq<Direntry>, l2: seq<Direntry>, index: nat, parts: nat, fn: seq<byte>,
                     long: bool, name: seq<word>)
    requires OnlyBetween(l, l1, index + 1, index) && parts <= index < |l1| == |l2|
    requires |fn| == 12 && fn[0] != 0 && fn[0] != 0xE5 && fn[0] != 0x2E
    requires if long then IsName(name) && |name| <= 255 && parts == Parts(name) else parts == 0 && l2 == l1
    requires long ==> PartsAbove(l2, index, 0, name, SumOf(fn[..11])) && OnlyBetween(l1, l2, index - parts, index - 1)
    ensures var l' := l2[index := ShortEntryOf(fn)];
            && OnlyBetween(l, l', index - parts, index) && ShortAt(l', index, fn)
            && (long ==> Recorded(l', index - parts, index, name))
  {
    hide IsPart, SumOf, IsName, IsShort, PartsAbove;
    var e := ShortEntryOf(fn);
    ShortEntry(fn, e);
    if long { PartsKept(l2, index, name, SumOf(fn[..11]), e); }
  }

  /** The run that dir_alloc found begins at an entry of the table. */
  lemma AllocStart(dp: Dir, nent: nat)
    requires dp.Valid() && dp.At(dp.index as int) && 1 <= nent
    requires FreeRun(dp.fs.g, dp.chain, dp.fs.Logical(), dp.index as int, nent)
    ensures nent <= dp.index + 1 && HasEntry(dp.fs.g, dp.chain, dp.index - (nent - 1))
    ensures dp.index < |Listing(dp.fs.g, dp.chain, dp.fs.Logical())|
  {
    hide Geometry.WellFormed, FatBytes, DirectoryAlloc.Entry, Locate, Fatfs.Valid, Fatfs.Logical, TableLen;
    ListingGoesOn(dp, dp.index as nat);
    if !HasEntry(dp.fs.g, dp.chain, dp.index - (nent - 1)) {
      EntriesBelow(dp.fs.g, dp.chain, dp.index - (nent - 1), dp.index as int);
    }
  }

  lemma StandsAt(dp: Dir, k: nat)
    requires dp.Valid() && HasEntry(dp.fs.g, dp.chain, k) && dp.index as nat == k && k <= 0xFFFF
    requires SectorSize(dp.fs.g.ss) && ClusterSize(dp.fs.g.csize)
    requires (dp.clust as int, dp.sect as int, dp.ofs as int) == Locate(dp.fs.g, dp.chain, k)
    ensures dp.At(k)
  {
    hide Locate, HasEntry, Dir.Valid;
  }

  // ---------- round trip ----------

  /** Register a long name, then read it back from where it was put: it comes back, with the index of its first entry,
      exactly if it is not longer than 253 characters. */
  method RegisterThenRead(dp: Dir, fn: seq<byte>, lfn: seq<word>, lfnbuf: array<word>, ghost name: seq<word>)
    returns (res: FResult, lfnIdx: word)
    requires dp.Valid() && dp.fs.drive.reliable && lfnbuf.Length == 256
    requires |fn| == 12 && fn[0] != 0 && fn[0] != 0xE5 && fn[0] != 0x2E
    requires IsName(name) && |name| <= 255 && Holds(lfn, name)
    modifies dp`index, dp`clust, dp`sect, dp`ofs, dp`chain, dp.fs, dp.fs.drive, dp.fs.win, lfnbuf
    ensures res == FrOk || res == FrDenied || res == FrIntErr
    ensures res == FrOk ==>
      && dp.Valid() && dp.At(dp.index as int) && Parts(name) <= dp.index as nat
      && ShortAt(Listing(dp.fs.g, dp.chain, dp.fs.Logical()), dp.index as nat, fn)
      && (|name| <= 253 ==> lfnIdx as nat == dp.index as nat - Parts(name) && Holds(lfnbuf[..], name))
      && (|name| > 253 ==> lfnIdx == 0xFFFF)
  {
    hide Geometry.WellFormed, FatBytes, TableOf, FreeCount, Overlay, Mirrored, Wrote, MediumOk, Fatfs.Valid,
      Fatfs.Logical, Fatfs.CopiesAgree, Linked, Locate, HasEntry, DirectoryAlloc.Entry, Listing, TableLen, CountOk,
      WriteOrderOk, Dir.Valid, Dir.At, OutsideKept, OnlyBetween, Holds, IsName, IsShort, NoRun, Reserving,
      CameTo, Ahead, Recorded, ShortAt;
    lfnIdx := NO_LFN;
    res := DirRegister(dp, fn, true, lfn, name);
    if res != FrOk { return; }
    var parts := CountParts(lfn, name);
    res, lfnIdx := ReadBack(dp, parts, lfnbuf, name);
  }

  /** Go back to the first entry of the name recorded in front of the current entry, and read on from there. */
  method ReadBack(dp: Dir, parts: nat, lfnbuf: array<word>, ghost name: seq<word>)
    returns (res: FResult, lfnIdx: word)
    requires dp.Valid() && dp.fs.drive.reliable && lfnbuf.Length == 256
    requires dp.At(dp.index as int) && !dp.BadStart() && parts == Parts(name) <= dp.index as nat
    requires Recorded(Listing(dp.fs.g, dp.chain, dp.fs.Logical()), dp.index as nat - parts, dp.index as nat, name)
    modifies dp`index, dp`clust, dp`sect, dp`ofs, dp`chain, dp.fs, dp.fs.drive, dp.fs.win, lfnbuf
    ensures dp.Valid() && dp.chain == old(dp.chain) && dp.fs.Logical() == old(dp.fs.Logical())
    ensures res == FrOk && dp.At(dp.index as int) && dp.index == old(dp.index)
    ensures |name| <= 253 ==> lfnIdx as nat == dp.index as nat - parts && Holds(lfnbuf[..], name)
    ensures |name| > 253 ==> lfnIdx == 0xFFFF
  {
    hide Geometry.WellFormed, FatBytes, TableOf, FreeCount, Overlay, Mirrored, Wrote, MediumOk, Fatfs.Valid,
      Fatfs.Logical, Fatfs.CopiesAgree, Linked, Locate, HasEntry, DirectoryAlloc.Entry, Listing, TableLen, CountOk,
      WriteOrderOk, Dir.Valid, Dir.At, Holds, IsName, IsShort, CameTo, Ahead, Recorded, Parts;
    ghost var l, at := Listing(dp.fs.g, dp.chain, dp.fs.Logical()), dp.index as nat;
    lfnIdx := NO_LFN;
    var first := dp.index as nat - parts;
    RegisteredAt(dp, l, first, at, name);
    res := DirSdi(dp, first);
    StandsAt(dp, first);
    OnSector(dp);
    ghost var end;
    res, lfnIdx, end := DirRead(dp, false, lfnbuf, NO_LFN, first, at, name);
    CameToName(l, end, res, first, at, name, lfnIdx, lfnbuf[..]);
    ListingGoesOn(dp, end);
  }

  lemma CameToName(table: seq<Direntry>, end: nat, res: FResult, first: nat, at: nat, name: seq<word>, lfnIdx: word,
                   buf: seq<word>)
    requires CameTo(table, first, end, res, false, first, at, name, lfnIdx, buf)
    requires Ahead(table, first, first, at, name)
    ensures res == FrOk && end == at
    ensures if |name| <= 253 then lfnIdx as int == first && Holds(buf, name) else lfnIdx == 0xFFFF
  {
    hide Ahead, PassedFrom, Holds;
  }

  lemma OnSector(dp: Dir)
    requires dp.Valid() && !dp.BadStart() && dp.At(dp.index as int)
    ensures dp.sect != 0
  {
    hide HasEntry, Locate, Linked;
    SectorIsReal(dp.fs.g, dp.fs.Table(), dp.others, dp.chain, dp.Start(), dp.index as int);
  }

  lemma RegisteredAt(dp: Dir, l: seq<Direntry>, first: nat, at: nat, name: seq<word>)
    requires dp.Valid() && dp.At(at) && first <= at && l == Listing(dp.fs.g, dp.chain, dp.fs.Logical())
    requires Recorded(l, first, at, name)
    ensures HasEntry(dp.fs.g, dp.chain, first) && first < at < |l| && Ahead(l, first, first, at, name)
  {
    hide Geometry.WellFormed, FatBytes, DirectoryAlloc.Entry, Locate, Fatfs.Valid, Fatfs.Logical, TableLen;
    RecordedAt(l, first, at, name);
    if !HasEntry(dp.fs.g, dp.chain, first) { EntriesBelow(dp.fs.g, dp.chain, first, at); }
  }
}
