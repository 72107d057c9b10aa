/** Any sequence of calls on one open file: the file behaves as a plain byte string with a pointer. */
module FileRuns {
  import opened Bytes
  import opened Units
  import opened Layout
  import opened Disk
  import opened PackedTable
  import opened FatTable
  import opened LogicalDisk
  import opened Volume
  import opened Chains
  import opened Allocation
  import opened ClusterOps
  import opened LinkMap
  import opened FileData
  import opened FileCursor
  import opened FileBytes
  import opened Files
  import opened FileFrame
  import opened FileRead
  import opened FileWrite
  import opened FileSeek
  import opened FileTruncate

  datatype Call = Read(n: dword) | Write(data: seq<byte>) | Seek(to: dword) | Truncate

  /** What an application knows of an open file: its bytes, the pointer, how far a write can go, and whether the link
      map in use was made before the file was cut. */
  datatype ByteFile = ByteFile(bytes: seq<byte>, pos: nat, room: int, cut: bool)

  /** What does not change while the file is open; fast says that a link map is set. */
  datatype Mode = Mode(g: Geometry, canRead: bool, canWrite: bool, fast: bool)

  ghost function ModeOf(fp: Fil): Mode
    reads fp`canRead, fp`canWrite, fp`cltbl
  {
    Mode(fp.fs.g, fp.canRead, fp.canWrite, fp.cltbl != null)
  }

  ghost function AbstractFile(fp: Fil): ByteFile
    requires fp.Shell() && fp.fsize <= Capacity(fp.fs.g, fp.chain)
    reads fp`fptr, fp`fsize, fp`dirty, fp`sclust, fp`dsect, fp`chain, fp`others, fp`cltbl, fp.cltbl, fp.buf,
          fp.fs`winsect, fp.fs`wflag, fp.fs.drive, fp.fs.win
  {
    ByteFile(fp.Bytes(), fp.fptr, Limit(fp), !fp.MapOk())
  }

  /** How far the file can grow: the bytes of its own clusters and of all free ones. */
  ghost function Room(fp: Fil): int
    requires fp.fs.Valid()
    reads fp`chain, fp.fs`winsect, fp.fs`wflag, fp.fs.drive, fp.fs.win
  {
    ClusterStart(fp.fs.g, |fp.chain| + FreeCount(fp.fs.Table()))
  }

  /** How far a write can go: with a link map, to the end of the clusters of the file. */
  ghost function Limit(fp: Fil): int
    requires fp.fs.Valid()
    reads fp`chain, fp`cltbl, fp.fs`winsect, fp.fs`wflag, fp.fs.drive, fp.fs.win
  {
    if fp.cltbl == null then Room(fp) else ClusterStart(fp.fs.g, |fp.chain|)
  }

  /** A link map, if set, is that of the file, or of the file before it was cut, and its table has the items that a new
      one needs. */
  ghost predicate MapUsable(fp: Fil)
    reads fp`cltbl, fp`chain, fp.cltbl, fp.fs`winsect, fp.fs`wflag, fp.fs.drive, fp.fs.win
  {
    fp.fs.Valid() &&
    (fp.cltbl != null ==>
      && TableGiven(fp)
      && (exists s :: s != [] && fp.Mapped(s) && fp.chain <= s && |Fragments(s)| + 2 <= fp.cltbl[0] as int)
      && (fp.fs.g.nFatent < LAST_LINK ==> !EndLooksLinked(fp.fs.Table(), fp.chain)))
  }

  /** Ready for the next call: valid, without error, and a link map only for a file that had clusters. */
  ghost predicate Ready(fp: Fil)
    reads fp, fp.buf, fp.cltbl, fp.fs`winsect, fp.fs`wflag, fp.fs.drive, fp.fs.win
  {
    fp.Placed() && fp.err == FrOk && MapUsable(fp)
  }

  /** Bytes a write accepts: all, unless the disk fills or the file would reach 4 GB. */
  function Accepted(pos: nat, n: nat, room: int): int {
    if pos + n > 0xFFFF_FFFF then 0 else if pos + n <= room then n else room - pos
  }

  /** The end of the cluster of the byte before pos. */
  function ClusterEnd(g: Geometry, pos: int): int
    requires SectorSize(g.ss) && ClusterSize(g.csize)
  {
    if pos <= 0 then 0 else ClusterStart(g, ClusterIdx(g, pos - 1) + 1)
  }

  /** Where the bytes of an open file are: byte i is byte j of sector o of its k-th cluster; that sector is the one in
      the file's buffer if this is dirty, else the one on the disk. */
  lemma ByteOnDisk(fp: Fil, i: nat, k: nat, o: nat, j: nat)
    requires fp.Shell() && i < fp.fsize <= Capacity(fp.fs.g, fp.chain)
    requires k < |fp.chain| && o < fp.fs.g.csize && j < fp.fs.g.ss && i == (k * fp.fs.g.csize + o) * fp.fs.g.ss + j
    ensures var s := fp.fs.g.database + (fp.chain[k] - 2) * fp.fs.g.csize + o;
            && 0 <= s < |fp.fs.drive.sectors| && j < |fp.fs.drive.sectors[s]|
            && fp.Bytes()[i] == if fp.dirty && fp.dsect as int == s then fp.buf[j] else fp.fs.drive.sectors[s][j]
  {
    hide SectorSize, ClusterSize, Geometry.WellFormed, FatBytes, TableOf, Linked, Overlay, MediumOk, Fatfs.Valid,
      Fatfs.Logical, View, Span, SectorNo, SMul, SDiv, SMod, CMul, CDiv, CMod, Capacity, Fil.Bytes, Fil.Sectors,
      Own, Geometry.InData;
    ByteInChain(fp.fs.g, fp.chain, i);
    PlaceIs(fp.fs.g, i, k, o, j);
    SectorAt(fp.fs.g, fp.chain, SDiv(i, fp.fs.g.ss));
    ByteIs(fp, i);
    NotInWindow(fp, SDiv(i, fp.fs.g.ss));
  }

  lemma PlaceIs(g: Geometry, i: nat, k: nat, o: nat, j: nat)
    requires SectorSize(g.ss) && ClusterSize(g.csize) && o < g.csize && j < g.ss && i == (k * g.csize + o) * g.ss + j
    ensures SMod(i, g.ss) == j && CDiv(SDiv(i, g.ss), g.csize) == k && CMod(SDiv(i, g.ss), g.csize) == o
  {
    ByUnitIsPlain(k, g.ss, g.csize);
    ByUnitIsPlain(k * g.csize + o, g.ss, g.csize);
    hide SectorSize, ClusterSize, SMul, SDiv, SMod, CMul, CDiv, CMod;
    SectorSplitUnique(i, g.ss, k * g.csize + o, j);
    ClusterSplitUnique(k * g.csize + o, g.csize, k, o);
  }

  lemma ByteIs(fp: Fil, i: nat)
    requires fp.Shell() && i < fp.fsize <= Capacity(fp.fs.g, fp.chain)
    ensures SectorSize(fp.fs.g.ss) && 0 <= SDiv(i, fp.fs.g.ss) < |fp.Sectors()| && 0 <= SMod(i, fp.fs.g.ss) < fp.fs.g.ss
    ensures fp.Bytes()[i] == fp.Sectors()[SDiv(i, fp.fs.g.ss)][SMod(i, fp.fs.g.ss)]
  {
    hide Geometry.WellFormed, FatBytes, TableOf, Linked, Overlay, MediumOk, Fatfs.Valid, Fatfs.Logical, View, Span,
      SectorNo, SMul, SDiv, SMod, Fil.Sectors, Fil.Shell;
    SectorSplit(i, fp.fs.g.ss);
    ByteInChain(fp.fs.g, fp.chain, i);
  }

  lemma SectorAt(g: Geometry, chain: Chain, m: int)
    requires g.WellFormed() && InRange(g, chain) && 0 <= m < Span(g, chain)
    ensures 0 <= CDiv(m, g.csize) < |chain| && 2 <= chain[CDiv(m, g.csize)] < g.nFatent as int
    ensures SectorNo(g, chain, m) == g.database + (chain[CDiv(m, g.csize)] - 2) * g.csize + CMod(m, g.csize)
  {
    SpanIndex(g, chain, m);
    ByUnitIsPlain(chain[CDiv(m, g.csize)] - 2, g.ss, g.csize);
  }

  /** A sector of an open file is never in the window of the volume. */
  lemma NotInWindow(fp: Fil, m: int)
    requires fp.Shell() && 0 <= m < Span(fp.fs.g, fp.chain)
    ensures var s := SectorNo(fp.fs.g, fp.chain, m);
            && 0 <= s < |fp.fs.drive.sectors| && |fp.fs.drive.sectors[s]| == fp.fs.g.ss
            && fp.Sectors()[m] == if fp.dirty && fp.dsect as int == s then fp.buf[..] else fp.fs.drive.sectors[s]
  {
    hide Fatfs.Valid, FatBytes, TableOf;
    var g, s := fp.fs.g, SectorNo(fp.fs.g, fp.chain, m);
    SectorsInRange(g, fp.chain, fp.fs.Logical());
    SectorsOwn(g, fp.fs.Table(), fp.others, fp.chain, m);
  }

  /** How far a file can grow, in plain numbers. */
  lemma RoomIsPlain(fp: Fil)
    requires fp.fs.Valid()
    ensures Room(fp) == (|fp.chain| + FreeCount(fp.fs.Table())) * fp.fs.g.csize * fp.fs.g.ss
    ensures Limit(fp) == if fp.cltbl == null then Room(fp) else |fp.chain| * fp.fs.g.csize * fp.fs.g.ss
    ensures Capacity(fp.fs.g, fp.chain) == |fp.chain| * fp.fs.g.csize * fp.fs.g.ss
  {
    hide ClusterStart, FreeCount, Capacity, Fatfs.Valid, SectorSize, ClusterSize, Linked, View, TableOf;
    StartIsPlain(fp.fs.g, |fp.chain| + FreeCount(fp.fs.Table()));
    StartIsPlain(fp.fs.g, |fp.chain|);
    StartIsCapacity(fp.fs.g, fp.chain);
  }

  lemma StartIsPlain(g: Geometry, i: int)
    requires SectorSize(g.ss) && ClusterSize(g.csize)
    ensures ClusterStart(g, i) == i * g.csize * g.ss
  {
    ByUnitIsPlain(i, g.ss, g.csize);
    ByUnitIsPlain(i * g.csize, g.ss, g.csize);
    hide SMul, CMul;
  }

  /** The end of the cluster of the byte before pos, in plain numbers. */
  lemma EndIsPlain(g: Geometry, pos: nat)
    requires SectorSize(g.ss) && ClusterSize(g.csize) && pos > 0
    ensures ClusterEnd(g, pos) == ((pos - 1) / (g.ss * g.csize) + 1) * g.csize * g.ss
  {
    ClusterIdxIsPlain(g, pos - 1);
    StartIsPlain(g, ClusterIdx(g, pos - 1) + 1);
    hide ClusterStart, ClusterIdx;
  }

  /** Bytes put over others, one by one. */
  lemma OverwrittenAt(bytes: seq<byte>, pos: nat, data: seq<byte>, i: nat)
    requires pos <= |bytes|
    ensures |Overwritten(bytes, pos, data)| == if pos + |data| <= |bytes| then |bytes| else pos + |data|
    ensures i < |Overwritten(bytes, pos, data)| ==>
      Overwritten(bytes, pos, data)[i] == if pos <= i < pos + |data| then data[i - pos] else bytes[i]
  {
  }

  /** What a call does to a byte file.  The result is determined, except for the bytes that a seek past the end adds. */
  ghost predicate Step(call: Call, a: ByteFile, b: ByteFile, m: Mode)
    requires SectorSize(m.g.ss) && ClusterSize(m.g.csize) && a.pos <= |a.bytes|
  {
    match call
    case Read(n) =>
      b == if !m.canRead then a else a.(pos := if a.pos + n <= |a.bytes| then a.pos + n else |a.bytes|)
    case Write(data) =>
      if !m.canWrite then b == a
      else
        var k := Accepted(a.pos, |data|, a.room);
        0 <= k <= |data| && b == a.(bytes := Overwritten(a.bytes, a.pos, data[..k]), pos := a.pos + k)
    case Seek(to) =>
      if m.fast && to == 0xFFFF_FFFF then b == a.(cut := false)
      else if to <= |a.bytes| then b == a.(pos := to)
      else if !m.canWrite || m.fast then b == a.(pos := |a.bytes|)
      else b.pos == (if to <= a.room then to as int else a.room)
           && |b.bytes| == (if b.pos > |a.bytes| then b.pos else |a.bytes|) && a.bytes <= b.bytes
           && b.room == a.room && b.cut == a.cut
    case Truncate =>
      if !m.canWrite then b == a
      else if m.fast && a.pos < |a.bytes| then
        var end := ClusterEnd(m.g, a.pos);
        b == ByteFile(a.bytes[..a.pos], a.pos, end, a.cut || end < a.room)
      else b == a.(bytes := a.bytes[..a.pos])
  }

  /** What a call answers: result code, the bytes read, and the number of bytes read or written. */
  datatype Answer = Answer(res: FResult, data: seq<byte>, count: nat)

  /** The answer to a call that leads from a to b. */
  ghost predicate Answered(call: Call, a: ByteFile, b: ByteFile, ans: Answer, m: Mode) {
    match call
    case Read(_) =>
      if !m.canRead then ans == Answer(FrDenied, [], 0)
      else a.pos <= b.pos <= |a.bytes| && ans == Answer(FrOk, a.bytes[a.pos..b.pos], b.pos - a.pos)
    case Write(_) =>
      if !m.canWrite then ans == Answer(FrDenied, [], 0) else a.pos <= b.pos && ans == Answer(FrOk, [], b.pos - a.pos)
    case Seek(_) => ans == Answer(FrOk, [], 0)
    case Truncate => ans == Answer(if m.canWrite then FrOk else FrDenied, [], 0)
  }

  /** A call that fits the integer widths.  After the file has been cut under its link map, a write must end in the
      clusters that are left until a new map is made; that takes a file with a cluster, on a volume where an own end
      mark never looks like a link. */
  predicate Sendable(call: Call, a: ByteFile, m: Mode) {
    match call
    case Write(data) =>
      && |data| <= 0xFFFF_FFFF
      && (a.cut && m.canWrite ==> a.pos + |data| <= a.room || a.pos + |data| > 0xFFFF_FFFF)
    case Seek(to) => m.fast && to == 0xFFFF_FFFF ==> 0 < a.room && m.g.nFatent < LAST_LINK
    case Truncate => true
    case Read(_) => true
  }

  lemma FullIsNone(t: Table)
    ensures Full(t) <==> FreeCount(t) == 0
  {
    if Full(t) {
      assert FreeSet(t) == {};
    } else {
      var c :| 2 <= c < |t| && t[c] == 0;
      assert c in FreeSet(t);
    }
  }

  /** The file fills its room exactly when no cluster is free. */
  lemma RoomOf(g: Geometry, chain: Chain, t: Table)
    requires SectorSize(g.ss) && ClusterSize(g.csize)
    ensures Capacity(g, chain) <= ClusterStart(g, |chain| + FreeCount(t))
    ensures Full(t) ==> Capacity(g, chain) == ClusterStart(g, |chain| + FreeCount(t))
  {
    FullIsNone(t);
    StartIsCapacity(g, chain);
    StartOrder(g, |chain|, |chain| + FreeCount(t));
    hide ClusterStart, FreeCount, Full, Capacity;
  }

  /** What every call keeps: the file object is valid, no other file's data has changed, no cluster is lost or
      gained, and the promises about the FAT hold. */
  twostate predicate Kept(fp: Fil)
    reads fp, fp.buf, fp.cltbl, fp.fs`winsect, fp.fs`wflag, fp.fs`freeClust, fp.fs.drive, fp.fs.win
  {
    && old(Ready(fp)) && Ready(fp) && fp.others == old(fp.others)
    && ModeOf(fp) == old(ModeOf(fp)) && fp.cltbl == old(fp.cltbl)
    && (fp.cltbl != null ==> fp.chain <= old(fp.chain))
    && ClusterSize(fp.fs.g.csize)
    && SameButOwn(fp.fs.g, fp.others, old(fp.fs.Logical()), fp.fs.Logical())
    && FreeCount(fp.fs.Table()) + |fp.chain| == old(FreeCount(fp.fs.Table()) + |fp.chain|)
    && Promises(fp.fs)
  }

  /** A call has been made: what it keeps, what it does to the byte file, and what it answers. */
  twostate predicate Made(fp: Fil, call: Call, ans: Answer)
    reads fp, fp.buf, fp.cltbl, fp.fs`winsect, fp.fs`wflag, fp.fs`freeClust, fp.fs.drive, fp.fs.win
  {
    && Kept(fp) && Step(call, old(AbstractFile(fp)), AbstractFile(fp), ModeOf(fp))
    && Answered(call, old(AbstractFile(fp)), AbstractFile(fp), ans, ModeOf(fp))
  }

  lemma UntouchedIsSame(g: Geometry, others: set<Chain>, chain: Chain, chain': Chain, d: Medium, e: Medium)
    requires Untouched(g, others, chain, chain', d, e)
    ensures ClusterSize(g.csize) && SameButOwn(g, others, d, e)
  {
    hide Own, TableOf;
  }

  lemma SameAgain(g: Geometry, others: set<Chain>, d: Medium, e: Medium, f: Medium)
    requires ClusterSize(g.csize) && SameButOwn(g, others, d, e) && SameButOwn(g, others, e, f)
    ensures SameButOwn(g, others, d, f)
  {
    hide Own;
    forall s | 0 <= s < |d| && !g.InFat(s) && !Own(g, others, s) ensures f[s] == d[s] {
      assert e[s] == d[s];
    }
  }

  lemma NothingChanged(g: Geometry, others: set<Chain>, d: Medium)
    requires ClusterSize(g.csize)
    ensures SameButOwn(g, others, d, d)
  {
  }

  lemma UntouchedTable(g: Geometry, others: set<Chain>, chain: Chain, d: Medium, e: Medium)
    requires Untouched(g, others, chain, chain, d, e)
    ensures MediumOk(d, g) && MediumOk(e, g) && TableOf(e, g) == TableOf(d, g)
  {
    hide Own, TableOf;
  }

  /** The chain that the map in use lists. */
  lemma UsableMap(fp: Fil) returns (s: Chain)
    requires MapUsable(fp) && fp.cltbl != null
    ensures s != [] && fp.Mapped(s) && fp.chain <= s && |Fragments(s)| + 2 <= fp.cltbl[0] as int <= fp.cltbl.Length
    ensures fp.MapSeeks() && !MapMisses(fp) && (fp.MapOk() <==> fp.chain == s)
    ensures (fp.cltbl as object) != fp.buf && (fp.cltbl as object) != fp.fs.win && TableGiven(fp)
  {
    hide Maps, Fragments;
    s :| s != [] && fp.Mapped(s) && fp.chain <= s && |Fragments(s)| + 2 <= fp.cltbl[0] as int;
    if fp.Mapped([]) { OneMapped(fp, s, []); }
    if fp.MapOk() { OneMapped(fp, s, fp.chain); }
  }

  /** The map in use after a call that leaves its table alone and the chain as it was or shorter. */
  twostate lemma MapKept(fp: Fil)
    requires old(MapUsable(fp)) && fp.fs.Valid() && fp.cltbl == old(fp.cltbl)
    requires fp.cltbl != null ==> fp.cltbl[..] == old(fp.cltbl[..]) && fp.chain <= old(fp.chain)
    requires fp.cltbl != null && fp.fs.g.nFatent < LAST_LINK ==> !EndLooksLinked(fp.fs.Table(), fp.chain)
    ensures MapUsable(fp)
    ensures fp.cltbl != null ==> (fp.MapOk() <==> old(fp.MapOk()) && fp.chain == old(fp.chain))
  {
    hide Fil.Mapped, Fragments, Fatfs.Valid, EndLooksLinked;
    if fp.cltbl != null {
      ghost var s: Chain :| s != [] && old(fp.Mapped(s)) && old(fp.chain) <= s
                            && |Fragments(s)| + 2 <= old(fp.cltbl[0] as int);
      MappedKept(fp);
      assert fp.cltbl[0] == fp.cltbl[..][0] == old(fp.cltbl[..])[0];
      assert fp.Mapped(s);
      if fp.MapOk() {
        OneMapped(fp, s, fp.chain);
        assert fp.chain == old(fp.chain);
      }
      assert fp.Mapped(old(fp.chain)) <==> old(fp.MapOk());
    }
  }

  /** The same, for a call that also leaves the chain and the FAT as they were. */
  twostate lemma MapStays(fp: Fil)
    requires old(MapUsable(fp)) && fp.fs.Valid() && fp.cltbl == old(fp.cltbl)
    requires fp.cltbl != null ==> fp.cltbl[..] == old(fp.cltbl[..]) && fp.chain == old(fp.chain)
    requires fp.cltbl != null ==> fp.fs.Table() == old(fp.fs.Table())
    ensures MapUsable(fp) && fp.MapOk() == old(fp.MapOk())
  {
    hide Fil.Mapped, Fragments, Fatfs.Valid, EndLooksLinked;
    MapKept(fp);
  }

  twostate lemma MappedKept(fp: Fil)
    requires fp.cltbl != null && fp.cltbl == old(fp.cltbl) && fp.cltbl[..] == old(fp.cltbl[..])
    ensures forall s :: fp.Mapped(s) <==> old(fp.Mapped(s))
  {
    hide Maps;
  }

  /** What a call leaves alone that changes neither chain nor map. */
  twostate predicate SameRoom(fp: Fil)
    reads fp, fp.buf, fp.cltbl, fp.fs`winsect, fp.fs`wflag, fp.fs`freeClust, fp.fs.drive, fp.fs.win
  {
    Kept(fp) && Limit(fp) == old(Limit(fp)) && fp.MapOk() == old(fp.MapOk())
  }

  method ReadInto(fp: Fil, buff: array<byte>) returns (res: FResult, br: dword)
    requires Ready(fp) && fp.fs.drive.reliable && buff.Length <= 0xFFFF_FFFF
    requires buff != fp.buf && buff != fp.fs.win && (fp.cltbl as object?) != buff
    modifies fp`fptr, fp`fsize, fp`written, fp`err, fp`clust, fp`dirty, fp`dsect, fp`chain, fp`sclust, fp.buf,
             fp.fs, fp.fs.drive, fp.fs.win, buff
    ensures SameRoom(fp) && fp.Bytes() == old(fp.Bytes())
    ensures !fp.canRead ==> res == FrDenied && br == 0 && fp.fptr == old(fp.fptr)
    ensures fp.canRead ==>
      && res == FrOk && fp.fptr == old(fp.fptr) + br
      && br == (if buff.Length <= |fp.Bytes()| - old(fp.fptr) then buff.Length else |fp.Bytes()| - old(fp.fptr))
      && buff[..br] == fp.Bytes()[old(fp.fptr)..fp.fptr]
  {
    hide Fil.Mapped, MapUsable, Untouched, Geometry.WellFormed, FatBytes, TableOf, FreeCount, Overlay, Mirrored,
      Wrote, MediumOk, Fatfs.Valid, Fatfs.Logical, Fatfs.CopiesAgree, View, Linked, SectorNo, Span, CMod, CDiv, CMul,
      Own, Geometry.InData, Maps, SMul, SDiv, SMod, ClusterIdx, CountOk, WriteOrderOk, Full, CursorOk, EndsAt,
      Content, Capacity, Fil.Sectors, SameButOwn, CutTable, ClustersKept, ClusterStart, Fragments, EndLooksLinked;
    ghost var d := fp.fs.Logical();
    NothingMoved(fp.fs);
    NothingChanged(fp.fs.g, fp.others, d);
    if fp.cltbl != null { ghost var s := UsableMap(fp); }
    res, br := FRead(fp, buff, buff.Length);
    if res == FrOk { UntouchedIsSame(fp.fs.g, fp.others, old(fp.chain), fp.chain, d, fp.fs.Logical()); }
    MapStays(fp);
  }

  method MakeRead(fp: Fil, n: dword) returns (ans: Answer)
    requires Ready(fp) && fp.fs.drive.reliable
    modifies fp`fptr, fp`fsize, fp`written, fp`err, fp`clust, fp`dirty, fp`dsect, fp`chain, fp`sclust, fp.buf,
             fp.fs, fp.fs.drive, fp.fs.win
    ensures Made(fp, Read(n), ans)
  {
    hide FatBytes, TableOf, Geometry.WellFormed, Linked, Full, SameButOwn, FreeCount, CountOk, WriteOrderOk,
      Fatfs.CopiesAgree, Fatfs.Logical, Fil.Bytes, Fil.Base, Fil.Shell, Fil.MapOk, Fil.Mapped, MapUsable, Fatfs.Valid,
      Limit, Capacity, Fil.Cursor;
    var buff := new byte[n];
    var res, br := ReadInto(fp, buff);
    ans := Answer(res, buff[..br], br);
  }

  /** A file without a chain that writes nothing gets none. */
  lemma StillNone(g: Geometry, chain: Chain)
    requires SectorSize(g.ss) && ClusterSize(g.csize) && EndsAt(g, 0, chain, -1)
    ensures chain == []
  {
  }

  /** After the file has been cut under its link map, a write of n bytes ends in the clusters that are left. */
  ghost predicate WriteSendable(fp: Fil, n: nat)
    reads fp`fptr, fp`canWrite, fp`chain, fp`cltbl, fp.cltbl, fp.fs`winsect, fp.fs`wflag, fp.fs.drive, fp.fs.win
  {
    fp.fs.Valid() && (!fp.MapOk() && fp.canWrite ==> fp.fptr + n <= Limit(fp) || fp.fptr + n > 0xFFFF_FFFF)
  }

  twostate predicate MapAsBefore(fp: Fil)
    reads fp`chain, fp`cltbl, fp.cltbl, fp.fs`winsect, fp.fs`wflag, fp.fs.drive, fp.fs.win
  {
    MapUsable(fp) && fp.MapOk() == old(fp.MapOk()) && (fp.cltbl != null ==> fp.chain == old(fp.chain))
  }

  /** A write as far as the map in use is concerned: the file keeps its chain, and the map stays as it is. */
  method WriteHeld(fp: Fil, buff: array<byte>) returns (res: FResult, bw: dword)
    requires Ready(fp) && fp.fs.drive.reliable && buff.Length <= 0xFFFF_FFFF
    requires buff != fp.buf && buff != fp.fs.win && (fp.cltbl as object?) != buff
    requires WriteSendable(fp, buff.Length)
    modifies fp`fptr, fp`fsize, fp`written, fp`err, fp`clust, fp`dirty, fp`dsect, fp`chain, fp`sclust, fp.buf,
             fp.fs, fp.fs.drive, fp.fs.win
    ensures MapAsBefore(fp)
    ensures if fp.canWrite then res == FrOk && WroteBytes(fp, buff[..], buff.Length, bw)
            else res == FrDenied && bw == 0 && unchanged(fp, fp.buf, fp.fs, fp.fs.drive, fp.fs.win)
  {
    hide Fil.Mapped, Fil.Bytes, Overwritten, Promises, Untouched, Geometry.WellFormed, FatBytes, TableOf, FreeCount,
      Overlay, Mirrored, Wrote, MediumOk, Fatfs.Valid, Fatfs.Logical, Fatfs.CopiesAgree, View, Linked, SectorNo, Span,
      CMod, CDiv, CMul, Own, Geometry.InData, Maps, SMul, SDiv, SMod, ClusterIdx, CountOk, WriteOrderOk, Full,
      CursorOk, EndsAt, Content, Capacity, Fil.Sectors, SameButOwn, CutTable, ClustersKept, ClusterStart, Fragments,
      EndLooksLinked;
    ghost var d := fp.fs.Logical();
    StartIsCapacity(fp.fs.g, fp.chain);
    if fp.cltbl != null { ghost var s := UsableMap(fp); }
    res, bw := FWrite(fp, buff, buff.Length);
    if res == FrOk && fp.cltbl != null {
      if old(fp.chain) == [] { StillNone(fp.fs.g, fp.chain); }
      UntouchedTable(fp.fs.g, fp.others, fp.chain, d, fp.fs.Logical());
    }
    MapStays(fp);
  }

  method WriteFrom(fp: Fil, buff: array<byte>) returns (res: FResult, bw: dword)
    requires Ready(fp) && fp.fs.drive.reliable && buff.Length <= 0xFFFF_FFFF
    requires buff != fp.buf && buff != fp.fs.win && (fp.cltbl as object?) != buff
    requires WriteSendable(fp, buff.Length)
    modifies fp`fptr, fp`fsize, fp`written, fp`err, fp`clust, fp`dirty, fp`dsect, fp`chain, fp`sclust, fp.buf,
             fp.fs, fp.fs.drive, fp.fs.win
    ensures SameRoom(fp)
    ensures !fp.canWrite ==> res == FrDenied && bw == 0 && fp.fptr == old(fp.fptr) && fp.Bytes() == old(fp.Bytes())
    ensures fp.canWrite ==>
      && res == FrOk && bw as int == Accepted(old(fp.fptr) as int, buff.Length, Limit(fp)) <= buff.Length
      && fp.fptr == old(fp.fptr) + bw
      && fp.Bytes() == Overwritten(old(fp.Bytes()), old(fp.fptr), buff[..][..bw])
  {
    hide MapUsable, Fil.MapOk, Fil.MapHeld, Fil.MapSeeks, Fil.MapReads, Fil.Base, Fil.Shell, Fil.Bytes, Overwritten,
      Untouched, Geometry.WellFormed, FatBytes, TableOf, FreeCount, Overlay, Mirrored, Wrote, MediumOk, Fatfs.Valid,
      Fatfs.Logical, Fatfs.CopiesAgree, View, Linked, SectorNo, Span, CMod, CDiv, CMul, Own, Geometry.InData, Maps,
      SMul, SDiv, SMod, ClusterIdx, CountOk, WriteOrderOk, Full, CursorOk, EndsAt, Content, Capacity, Fil.Sectors,
      SameButOwn, CutTable, ClustersKept, ClusterStart, Fragments, EndLooksLinked;
    ghost var d := fp.fs.Logical();
    NothingMoved(fp.fs);
    NothingChanged(fp.fs.g, fp.others, d);
    StartIsCapacity(fp.fs.g, fp.chain);
    res, bw := WriteHeld(fp, buff);
    StartIsCapacity(fp.fs.g, fp.chain);
    RoomOf(fp.fs.g, fp.chain, fp.fs.Table());
    if res == FrOk { UntouchedIsSame(fp.fs.g, fp.others, old(fp.chain), fp.chain, d, fp.fs.Logical()); }
  }

  method MakeWrite(fp: Fil, data: seq<byte>) returns (ans: Answer)
    requires Ready(fp) && fp.fs.drive.reliable && Sendable(Write(data), AbstractFile(fp), ModeOf(fp))
    modifies fp`fptr, fp`fsize, fp`written, fp`err, fp`clust, fp`dirty, fp`dsect, fp`chain, fp`sclust, fp.buf,
             fp.fs, fp.fs.drive, fp.fs.win
    ensures Made(fp, Write(data), ans)
  {
    hide FatBytes, TableOf, Geometry.WellFormed, Linked, Full, SameButOwn, FreeCount, CountOk, WriteOrderOk,
      Fatfs.CopiesAgree, Fatfs.Logical, Fil.Bytes, Fil.Base, Fil.Shell, Fil.MapOk, Fil.Mapped, MapUsable, Fatfs.Valid,
      Limit, Capacity, Fil.Cursor;
    var buff := new byte[|data|](i requires 0 <= i < |data| => data[i]);
    assert buff[..] == data;
    var res, bw := WriteFrom(fp, buff);
    ans := Answer(res, [], bw);
  }

  method SeekByChain(fp: Fil, to: dword) returns (ans: Answer)
    requires Ready(fp) && fp.fs.drive.reliable && fp.cltbl == null
    modifies fp`fptr, fp`fsize, fp`written, fp`err, fp`clust, fp`dirty, fp`dsect, fp`chain, fp`sclust, fp.buf,
             fp.fs, fp.fs.drive, fp.fs.win, fp.cltbl
    ensures Made(fp, Seek(to), ans)
  {
    hide Untouched, Geometry.WellFormed, FatBytes, TableOf, FreeCount, Overlay, Mirrored, Wrote, MediumOk,
      Fatfs.Valid, Fatfs.Logical, Fatfs.CopiesAgree, View, Linked, SectorNo, Span, CMod, CDiv, CMul, Own,
      Geometry.InData, Maps, SMul, SDiv, SMod, ClusterIdx, CountOk, WriteOrderOk, Full, CursorOk, EndsAt, SeekResult,
      Content, Capacity, Fil.Sectors, SameButOwn, ClusterStart, Fragments, EndLooksLinked;
    ghost var d := fp.fs.Logical();
    var res := FLseek(fp, to);
    ans := Answer(res, [], 0);
    RoomOf(fp.fs.g, fp.chain, fp.fs.Table());
    UntouchedIsSame(fp.fs.g, fp.others, old(fp.chain), fp.chain, d, fp.fs.Logical());
  }

  method SeekByMap(fp: Fil, to: dword) returns (ans: Answer)
    requires Ready(fp) && fp.fs.drive.reliable && fp.cltbl != null && to != CREATE_LINKMAP
    modifies fp`fptr, fp`fsize, fp`written, fp`err, fp`clust, fp`dirty, fp`dsect, fp`chain, fp`sclust, fp.buf,
             fp.fs, fp.fs.drive, fp.fs.win, fp.cltbl
    ensures Made(fp, Seek(to), ans)
  {
    hide Fil.Mapped, MapUsable, Untouched, Geometry.WellFormed, FatBytes, TableOf, FreeCount, Overlay, Mirrored,
      Wrote, MediumOk, Fatfs.Valid, Fatfs.Logical, Fatfs.CopiesAgree, View, Linked, SectorNo, Span, CMod, CDiv, CMul,
      Own, Geometry.InData, Maps, SMul, SDiv, SMod, ClusterIdx, CountOk, WriteOrderOk, Full, CursorOk, EndsAt,
      SeekResult, Content, Capacity, Fil.Sectors, SameButOwn, ClusterStart, Fragments, EndLooksLinked;
    ghost var d := fp.fs.Logical();
    ghost var s := UsableMap(fp);
    var res := FLseek(fp, to);
    ans := Answer(res, [], 0);
    UntouchedIsSame(fp.fs.g, fp.others, old(fp.chain), fp.chain, d, fp.fs.Logical());
    MapStays(fp);
  }

  /** A new map for a file that has been cut, or the same once more. */
  method MakeMap(fp: Fil) returns (ans: Answer)
    requires Ready(fp) && fp.fs.drive.reliable && fp.cltbl != null
    requires Sendable(Seek(CREATE_LINKMAP), AbstractFile(fp), ModeOf(fp))
    modifies fp`fptr, fp`fsize, fp`written, fp`err, fp`clust, fp`dirty, fp`dsect, fp`chain, fp`sclust, fp.buf,
             fp.fs, fp.fs.drive, fp.fs.win, fp.cltbl
    ensures Made(fp, Seek(CREATE_LINKMAP), ans)
  {
    hide Untouched, Geometry.WellFormed, FatBytes, TableOf, FreeCount, Overlay, Mirrored, Wrote, MediumOk,
      Fatfs.Valid, Fatfs.Logical, Fatfs.CopiesAgree, View, Linked, SectorNo, Span, CMod, CDiv, CMul, Own,
      Geometry.InData, Maps, SMul, SDiv, SMod, ClusterIdx, CountOk, WriteOrderOk, Full, CursorOk, EndsAt, SeekResult,
      Content, Capacity, Fil.Sectors, SameButOwn, CutTable, ClustersKept, ClusterStart, Fragments, EndLooksLinked;
    NothingChanged(fp.fs.g, fp.others, fp.fs.Logical());
    StartOrder(fp.fs.g, 0, |fp.chain|);
    StartsGrow(fp.fs.g, 0);
    ghost var s := UsableMap(fp);
    PrefixFragments(s, |fp.chain|);
    assert s[..|fp.chain|] == fp.chain;
    var res := FLseek(fp, CREATE_LINKMAP);
    ans := Answer(res, [], 0);
    assert fp.Mapped(fp.chain);
  }

  /** The end of a chain that has been cut never looks like a link, but on a volume of LAST_LINK entries. */
  lemma CutNotLinked(g: Geometry, t: Table, others: set<Chain>, chain: Chain, sclust: int, n: nat)
    requires g.WellFormed() && Linked(g, t, others, chain, sclust) && n <= |chain| && g.nFatent < LAST_LINK
    requires !EndLooksLinked(t, chain)
    ensures !EndLooksLinked(CutTable(t, chain, n, Cut(g.fsType, LAST_LINK)), chain[..n])
  {
    hide Geometry.WellFormed, EndLooksLinked, Forest, IsChain, CutTable, Cut;
    var mark := Cut(g.fsType, LAST_LINK);
    MarkIsLast(g);
    CutLinked(g, t, others, chain, sclust, n, mark);
    if n == |chain| {
      NothingCut(t, chain, mark);
    } else if 0 < n {
      CutMark(t, chain, n, mark);
      OwnMarkNeverLooksLinked(g, CutTable(t, chain, n, mark), chain[..n]);
    } else {
      EmptyNotLinked(CutTable(t, chain, n, mark));
    }
  }

  lemma CutMark(t: Table, chain: Chain, n: nat, mark: nat)
    requires IsChain(t, chain) && 0 < n < |chain|
    ensures chain[n - 1] < |t| && CutTable(t, chain, n, mark)[chain[n - 1]] == mark
  {
    forall i | n <= i < |chain| ensures chain[i] != chain[n - 1] { NoRepeat(t, chain, n - 1, i); }
    assert chain[n - 1] in chain;
    ChainElementsUsed(t, chain, chain[n - 1]);
    assert chain[n - 1] !in chain[n..];
  }

  lemma EmptyNotLinked(t: Table)
    ensures !EndLooksLinked(t, [])
  {
  }

  /** Where a cut leaves the file: at the end of the cluster of the byte before the pointer. */
  lemma CutRoom(g: Geometry, chain: Chain, fptr: int, fsize: int)
    requires SectorSize(g.ss) && ClusterSize(g.csize) && 0 <= fptr
      && 0 <= ClustersKept(g, chain, fptr, fsize) <= |chain|
    ensures var n := ClustersKept(g, chain, fptr, fsize);
            && (fptr < fsize ==> ClusterStart(g, n) == ClusterEnd(g, fptr)) && (fsize <= fptr ==> n == |chain|)
            && (ClusterStart(g, n) < ClusterStart(g, |chain|) <==> n < |chain|)
  {
    hide ClusterStart, ClusterIdx;
    StartsGrow(g, 0);
    StartOrder(g, ClustersKept(g, chain, fptr, fsize), |chain|);
  }

  /** A truncation as far as the map in use is concerned: it stays of use, and is that of the file exactly if no
      cluster has gone. */
  method CutHeld(fp: Fil) returns (res: FResult)
    requires Ready(fp) && fp.fs.drive.reliable
    modifies fp`fptr, fp`fsize, fp`written, fp`err, fp`clust, fp`dirty, fp`dsect, fp`chain, fp`sclust, fp.buf,
             fp.fs, fp.fs.drive, fp.fs.win
    ensures Ready(fp) && fp.fptr == old(fp.fptr)
    ensures fp.cltbl != null ==> (fp.MapOk() <==> old(fp.MapOk()) && fp.chain == old(fp.chain))
    ensures if fp.canWrite then res == FrOk else res == FrDenied && unchanged(fp, fp.buf, fp.fs, fp.fs.drive, fp.fs.win)
    ensures fp.canWrite ==>
      && fp.Bytes() == old(fp.Bytes())[..fp.fptr]
      && CutTo(fp, ClustersKept(fp.fs.g, old(fp.chain), fp.fptr, old(fp.fsize)))
      && FreeCount(fp.fs.Table()) + |fp.chain| == old(FreeCount(fp.fs.Table()) + |fp.chain|)
  {
    hide Fil.Mapped, Fil.Bytes, ClusterEnd, Promises, Untouched, Geometry.WellFormed, FatBytes, TableOf, FreeCount,
      Overlay, Mirrored, Wrote, MediumOk, Fatfs.Valid, Fatfs.Logical, Fatfs.CopiesAgree, View, Linked, SectorNo, Span,
      CMod, CDiv, CMul, Own, Geometry.InData, Maps, SMul, SDiv, SMod, ClusterIdx, CountOk, WriteOrderOk, Full,
      CursorOk, EndsAt, Content, Capacity, Fil.Sectors, SameButOwn, CutTable, ClustersKept, ClusterStart, Fragments,
      EndLooksLinked;
    if fp.cltbl != null { ghost var s := UsableMap(fp); }
    ghost var g, t, chain, sclust := fp.fs.g, fp.fs.Table(), fp.chain, fp.sclust;
    ghost var n := ClustersKept(g, chain, fp.fptr, fp.fsize);
    res := FTruncate(fp);
    if res == FrOk && fp.cltbl != null && g.nFatent < LAST_LINK {
      CutNotLinked(g, t, fp.others, chain, sclust, n);
    }
    MapKept(fp);
  }

  method CutKept(fp: Fil) returns (res: FResult)
    requires Ready(fp) && fp.fs.drive.reliable
    modifies fp`fptr, fp`fsize, fp`written, fp`err, fp`clust, fp`dirty, fp`dsect, fp`chain, fp`sclust, fp.buf,
             fp.fs, fp.fs.drive, fp.fs.win
    ensures Kept(fp) && fp.fptr == old(fp.fptr)
    ensures !fp.canWrite ==>
      res == FrDenied && fp.Bytes() == old(fp.Bytes()) && Limit(fp) == old(Limit(fp)) && fp.MapOk() == old(fp.MapOk())
    ensures fp.canWrite ==> res == FrOk && fp.Bytes() == old(fp.Bytes())[..fp.fptr]
    ensures fp.canWrite && (fp.cltbl == null || old(fp.fsize) <= fp.fptr) ==>
      Limit(fp) == old(Limit(fp)) && fp.MapOk() == old(fp.MapOk())
    ensures fp.canWrite && fp.cltbl != null && fp.fptr < old(fp.fsize) ==>
      Limit(fp) == ClusterEnd(fp.fs.g, fp.fptr) && (fp.MapOk() <==> old(fp.MapOk()) && Limit(fp) >= old(Limit(fp)))
  {
    hide MapUsable, Fil.Mapped, Fil.Base, Fil.Shell, Fil.Bytes, ClusterEnd, Untouched, Geometry.WellFormed, FatBytes,
      TableOf, FreeCount, Overlay, Mirrored, Wrote, MediumOk, Fatfs.Valid, Fatfs.Logical, Fatfs.CopiesAgree, View,
      Linked, SectorNo, Span, CMod, CDiv, CMul, Own, Geometry.InData, Maps, SMul, SDiv, SMod, ClusterIdx, CountOk,
      WriteOrderOk, Full, CursorOk, EndsAt, Content, Capacity, Fil.Sectors, SameButOwn, CutTable, ClustersKept,
      ClusterStart, Fragments, EndLooksLinked;
    NothingMoved(fp.fs);
    NothingChanged(fp.fs.g, fp.others, fp.fs.Logical());
    ghost var chain := fp.chain;
    res := CutHeld(fp);
    if res == FrOk {
      CutRoom(fp.fs.g, chain, fp.fptr, old(fp.fsize));
      assert |fp.chain| == |chain| ==> fp.chain == chain;
    }
  }

  method MakeTruncate(fp: Fil) returns (ans: Answer)
    requires Ready(fp) && fp.fs.drive.reliable
    modifies fp`fptr, fp`fsize, fp`written, fp`err, fp`clust, fp`dirty, fp`dsect, fp`chain, fp`sclust, fp.buf,
             fp.fs, fp.fs.drive, fp.fs.win
    ensures Made(fp, Truncate, ans)
  {
    hide ClusterEnd, Kept, Fil.Bytes, Fil.Base, Fil.Shell, Fil.MapOk, Fil.Mapped, MapUsable, Fatfs.Valid, Limit,
      Capacity, Fil.Cursor;
    var res := CutKept(fp);
    ans := Answer(res, [], 0);
  }

  /** Make one call. */
  method Make(fp: Fil, call: Call) returns (ans: Answer)
    requires Ready(fp) && fp.fs.drive.reliable && Sendable(call, AbstractFile(fp), ModeOf(fp))
    modifies fp`fptr, fp`fsize, fp`written, fp`err, fp`clust, fp`dirty, fp`dsect, fp`chain, fp`sclust, fp.buf,
             fp.fs, fp.fs.drive, fp.fs.win, fp.cltbl
    ensures Made(fp, call, ans)
  {
    hide Fil.Bytes, Fil.Base, Fil.Shell, Fil.Cursor, Maps, Step, Answered, Kept, Limit, MapUsable, Capacity;
    match call {
      case Read(n) => { ans := MakeRead(fp, n); }
      case Write(data) => { ans := MakeWrite(fp, data); }
      case Seek(to) => {
        if fp.cltbl == null {
          ans := SeekByChain(fp, to);
        } else if to == CREATE_LINKMAP {
          ans := MakeMap(fp);
        } else {
          ans := SeekByMap(fp, to);
        }
      }
      case Truncate => { ans := MakeTruncate(fp); }
    }
  }

  /** A run of the byte file: one state before each call and one at the end, each reached by its call, with the
      answer that the call gives there. */
  ghost predicate IsRun(calls: seq<Call>, trace: seq<ByteFile>, answers: seq<Answer>, m: Mode)
    requires SectorSize(m.g.ss) && ClusterSize(m.g.csize)
  {
    && |trace| == |calls| + 1 && |answers| == |calls|
    && (forall i :: 0 <= i < |trace| ==> trace[i].pos <= |trace[i].bytes|)
    && forall i :: 0 <= i < |calls| ==>
         Step(calls[i], trace[i], trace[i + 1], m) && Answered(calls[i], trace[i], trace[i + 1], answers[i], m)
  }

  /** Every call can be sent in every state that the calls before it may lead to. */
  ghost predicate AllSendable(calls: seq<Call>, a: ByteFile, m: Mode)
    requires SectorSize(m.g.ss) && ClusterSize(m.g.csize)
  {
    forall n, trace, answers ::
      0 <= n < |calls| && IsRun(calls[..n], trace, answers, m) && trace[0] == a ==> Sendable(calls[n], trace[n], m)
  }

  lemma RunOn(calls: seq<Call>, trace: seq<ByteFile>, answers: seq<Answer>, m: Mode, n: nat, b: ByteFile, ans: Answer)
    requires SectorSize(m.g.ss) && ClusterSize(m.g.csize)
    requires n < |calls| && IsRun(calls[..n], trace, answers, m) && b.pos <= |b.bytes|
    requires Step(calls[n], trace[n], b, m) && Answered(calls[n], trace[n], b, ans, m)
    ensures IsRun(calls[..n + 1], trace + [b], answers + [ans], m)
  {
    hide Step, Answered;
    var t, o := trace + [b], answers + [ans];
    forall i | 0 <= i < n + 1
      ensures Step(calls[..n + 1][i], t[i], t[i + 1], m) && Answered(calls[..n + 1][i], t[i], t[i + 1], o[i], m)
    {
      if i < n {
        assert Step(calls[..n][i], trace[i], trace[i + 1], m);
        assert Answered(calls[..n][i], trace[i], trace[i + 1], answers[i], m);
      }
    }
  }

  /** Without a link map, and with one as long as the file is not cut, a run is only bound by the integer widths. */
  lemma UncutRuns(calls: seq<Call>, a: ByteFile, m: Mode)
    requires SectorSize(m.g.ss) && ClusterSize(m.g.csize) && !a.cut
    requires forall i :: 0 <= i < |calls| && calls[i].Write? ==> |calls[i].data| <= 0xFFFF_FFFF
    requires m.fast ==> forall i :: 0 <= i < |calls| ==> calls[i] != Truncate && calls[i] != Seek(0xFFFF_FFFF)
    ensures AllSendable(calls, a, m)
  {
    hide Step, Answered;
    forall n, trace, answers | 0 <= n < |calls| && IsRun(calls[..n], trace, answers, m) && trace[0] == a
      ensures Sendable(calls[n], trace[n], m)
    {
      NeverCut(calls[..n], trace, answers, m, n);
    }
  }

  lemma {:induction false} NeverCut(calls: seq<Call>, trace: seq<ByteFile>, answers: seq<Answer>, m: Mode, n: nat)
    requires SectorSize(m.g.ss) && ClusterSize(m.g.csize) && n <= |calls|
    requires IsRun(calls, trace, answers, m) && !trace[0].cut
    requires m.fast ==> forall i :: 0 <= i < |calls| ==> calls[i] != Truncate
    ensures !trace[n].cut
  {
    hide Answered, ClusterEnd, Overwritten;
    if n > 0 {
      NeverCut(calls, trace, answers, m, n - 1);
      assert Step(calls[n - 1], trace[n - 1], trace[n], m);
    }
  }

  /** Over any sequence of calls the file is a byte string with a pointer, and the volume keeps its promises: no
      other file is touched, no cluster lost, the cached count right, the write order on FAT16/32 safe. */
  method Run(fp: Fil, calls: seq<Call>) returns (answers: seq<Answer>, ghost trace: seq<ByteFile>)
    requires Ready(fp) && fp.fs.drive.reliable && AllSendable(calls, AbstractFile(fp), ModeOf(fp))
    modifies fp`fptr, fp`fsize, fp`written, fp`err, fp`clust, fp`dirty, fp`dsect, fp`chain, fp`sclust, fp.buf,
             fp.fs, fp.fs.drive, fp.fs.win, fp.cltbl
    ensures Kept(fp)
    ensures IsRun(calls, trace, answers, ModeOf(fp))
    ensures trace[0] == old(AbstractFile(fp)) && trace[|calls|] == AbstractFile(fp)
  {
    hide Geometry.WellFormed, FatBytes, TableOf, FreeCount, Overlay, Mirrored, Fatfs.Valid, Fatfs.Logical,
      Fatfs.CopiesAgree, View, Linked, Span, Maps, SMul, CountOk, WriteOrderOk, Content, Capacity, Fil.Sectors,
      SameButOwn, Step, Answered, IsRun, Fil.Bytes, CursorOk, Own, ClusterStart, Limit, MapUsable, Sendable;
    ghost var m, start := ModeOf(fp), AbstractFile(fp);
    NothingMoved(fp.fs);
    NothingChanged(fp.fs.g, fp.others, fp.fs.Logical());
    answers, trace := [], [start];
    EmptyRun(calls[..0], trace, m);
    for n := 0 to |calls|
      invariant Kept(fp) && IsRun(calls[..n], trace, answers, m) && |trace| == n + 1
      invariant trace[0] == start && trace[n] == AbstractFile(fp)
    {
      ghost var d := fp.fs.Logical();
      var ans := Make(fp, calls[n]);
      SameAgain(fp.fs.g, fp.others, old(fp.fs.Logical()), d, fp.fs.Logical());
      RunOn(calls, trace, answers, m, n, AbstractFile(fp), ans);
      trace := trace + [AbstractFile(fp)];
      answers := answers + [ans];
    }
    assert calls[..|calls|] == calls;
  }

  lemma EmptyRun(calls: seq<Call>, trace: seq<ByteFile>, m: Mode)
    requires SectorSize(m.g.ss) && ClusterSize(m.g.csize)
    requires |calls| == 0 && |trace| == 1 && trace[0].pos <= |trace[0].bytes|
    ensures IsRun(calls, trace, [], m)
  {
  }
}
