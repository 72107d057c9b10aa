/** f_mkfs: the layout of a new volume, the sectors that describe it, and what a mount makes of them. */
module Format {
  import opened Bytes
  import opened Units
  import opened Layout
  import opened Disk
  import opened PackedTable
  import opened FatTable
  import opened LogicalDisk
  import opened Chains
  import opened Allocation
  import opened BootSector

  const N_ROOTDIR: nat := 512

  // ---------- powers of two ----------

  predicate PowerOfTwo(n: nat) {
    n == 1 || (n > 1 && n % 2 == 0 && PowerOfTwo(n / 2))
  }

  /** The powers of two within 32 bits. */
  lemma {:induction false} PowersOfTwo(n: dword)
    ensures PowerOfTwo(n) <==>
      n in {1, 2, 4, 8, 0x10, 0x20, 0x40, 0x80, 0x100, 0x200, 0x400, 0x800, 0x1000, 0x2000, 0x4000, 0x8000,
              0x1_0000, 0x2_0000, 0x4_0000, 0x8_0000, 0x10_0000, 0x20_0000, 0x40_0000, 0x80_0000, 0x100_0000,
              0x200_0000, 0x400_0000, 0x800_0000, 0x1000_0000, 0x2000_0000, 0x4000_0000, 0x8000_0000}
  {
    if n > 1 && n % 2 == 0 { PowersOfTwo(n / 2); }
  }

  lemma Halve(n: nat)
    requires PowerOfTwo(n) && n >= 2
    ensures n % 2 == 0 && PowerOfTwo(n / 2)
  {
  }

  lemma {:induction false} PowerIsClusterSize(n: nat)
    requires PowerOfTwo(n) && n <= 128
    ensures ClusterSize(n)
  {
    hide PowerOfTwo;
    NotZero(n);
    if n > 1 {
      Halve(n);
      PowerIsClusterSize(n / 2);
    }
  }

  lemma NotZero(n: nat)
    requires PowerOfTwo(n)
    ensures n > 0
  {
  }

  /** Dividing a power of two by a smaller one. */
  lemma PowerEighth(n: nat)
    requires PowerOfTwo(n) && n >= 8
    ensures PowerOfTwo(n / 8)
  {
    hide PowerOfTwo;
    Halve(n);
    Halve(n / 2);
    Halve(n / 4);
  }

  lemma PowerBySector(n: nat, ss: nat)
    requires SectorSize(ss) && PowerOfTwo(n) && n >= ss
    ensures PowerOfTwo(SDiv(n, ss))
  {
    hide PowerOfTwo;
    PowerEighth(n);
    PowerEighth(n / 8);
    PowerEighth(n / 64);
    if ss >= 1024 { Halve(n / 512); }
    if ss >= 2048 { Halve(n / 1024); }
    if ss >= 4096 { Halve(n / 2048); }
  }

  // ---------- the layout ----------

  datatype Plan = Plan(
    fmt: FatType, au: dword,
    bVol: dword, nVol: dword,                 // volume: start and size
    nRsv: dword, nFat: dword, nDir: dword,    // sizes of the areas before the data
    nClst: dword)

  /** The areas and one cluster fit in the volume: what the alignment to the erase block may break. */
  predicate Room(p: Plan) {
    p.nRsv + p.nFat + p.nDir + p.au <= p.nVol
  }

  /** The cluster count fits in 28 bits. */
  predicate Small(p: Plan)
    requires ClusterSize(p.au)
  {
    CDiv(p.nVol, p.au) + 2 <= LAST_LINK
  }

  /** Root directory sectors of FAT12/16. */
  function RootSize(fmt: FatType, ss: nat): nat
    requires SectorSize(ss)
  {
    if fmt == Fat32 then 0 else EDiv(N_ROOTDIR, ss)
  }

  function RootEntries(fmt: FatType): nat {
    if fmt == Fat32 then 0 else N_ROOTDIR
  }

  /** A layout that a mount can take for what it is. */
  predicate Sound(p: Plan, ss: nat)
    requires SectorSize(ss)
  {
    && ClusterSize(p.au) && Room(p) && p.bVol + p.nVol <= 0xFFFF_FFFF
    && p.nClst == CDiv(p.nVol - (p.nRsv + p.nFat + p.nDir), p.au)
    && 1 <= p.nClst && p.nClst + 2 <= LAST_LINK && p.fmt == SubType(p.nClst)
    && p.nDir == RootSize(p.fmt, ss)
    && 1 <= p.nRsv <= 0xFFFF && (p.fmt == Fat32 ==> p.nRsv >= 32)
    && 1 <= p.nFat && (p.fmt != Fat32 ==> p.nFat <= 0xFFFF)
    && NeededFat(p.fmt, p.nClst + 2) <= SMul(p.nFat, ss)
  }

  /** The fields of a plan fit the places that the boot sector has for them. */
  predicate Recordable(p: Plan) {
    && ClusterSize(p.au) && 1 <= p.nVol && 1 <= p.nRsv <= 0xFFFF && (p.fmt != Fat32 ==> 1 <= p.nFat <= 0xFFFF)
  }

  /** FAT sectors for n clusters. */
  function FatSectors(fmt: FatType, n: dword, ss: nat): dword
    requires SectorSize(ss)
  {
    var bytes: dword := match fmt
      case Fat12 => Wrap(Wrap(Wrap(n * 3) + 1) / 2 + 3)
      case Fat16 => Wrap(Wrap(n * 2) + 4)
      case Fat32 => Wrap(Wrap(n * 4) + 8);
    SectorCount(Wrap(bytes + ss - 1), ss);
    SDiv(Wrap(bytes + ss - 1), ss)
  }

  lemma SectorCount(n: nat, ss: nat)
    requires SectorSize(ss)
    ensures 0 <= SDiv(n, ss) <= n
  {
  }

  /** The automatic allocation unit in bytes, by the size of the volume in units of 1,024,000 bytes. */
  function AutoUnit(ss: nat, nVol: dword): (u: dword)
    requires SectorSize(ss)
    ensures PowerOfTwo(u)
  {
    var vs := VolumeUnits(ss, nVol);
    var u := if vs >= 1024 then 32768 else if vs >= 512 then 16384 else if vs >= 256 then 8192
      else if vs >= 128 then 4096
             else if vs >= 64 then 2048 else if vs >= 32 then 16384 else if vs >= 16 then 8192 else if vs >= 8 then 4096
             else if vs >= 4 then 2048 else if vs >= 2 then 1024 else 512;
    TablePowers(u);
    u
  }

  function VolumeUnits(ss: nat, nVol: dword): nat
    requires SectorSize(ss)
  {
    if ss == 512 then nVol / 2000 else if ss == 1024 then nVol / 1000 else if ss == 2048 then nVol / 500 else nVol / 250
  }

  /** A unit of at least the smallest supported sector size is in bytes, a smaller one in sectors. */
  function InSectors(u: dword, ss: nat, minSs: nat): (n: nat)
    requires SectorSize(ss) && PowerOfTwo(u)
    ensures PowerOfTwo(n)
  {
    if u < minSs then u
    else if u < ss then 1
    else
      PowerBySector(u, ss);
      SDiv(u, ss)
  }

  /** The allocation unit in sectors: a power of two from 1 to 128. */
  function UnitOf(ss: nat, minSs: nat, nVol: dword, request: dword): (au: dword)
    requires SectorSize(ss)
    ensures ClusterSize(au)
  {
    var n := InSectors(if PowerOfTwo(request) then request else AutoUnit(ss, nVol), ss, minSs);
    if n > 128 then 128
    else
      PowerIsClusterSize(n);
      n
  }

  /** The automatic unit for each of the eleven bands of volume size, v sectors being 1,024,000 bytes. */
  lemma AutoUnitIs(ss: nat, nVol: dword)
    requires SectorSize(ss)
    ensures var v, u := 1_024_000 / ss, AutoUnit(ss, nVol);
            && (1024 * v <= nVol ==> u == 32768) && (512 * v <= nVol < 1024 * v ==> u == 16384)
            && (256 * v <= nVol < 512 * v ==> u == 8192) && (128 * v <= nVol < 256 * v ==> u == 4096)
            && (64 * v <= nVol < 128 * v ==> u == 2048) && (32 * v <= nVol < 64 * v ==> u == 16384)
            && (16 * v <= nVol < 32 * v ==> u == 8192) && (8 * v <= nVol < 16 * v ==> u == 4096)
            && (4 * v <= nVol < 8 * v ==> u == 2048) && (2 * v <= nVol < 4 * v ==> u == 1024)
            && (nVol < 2 * v ==> u == 512)
  {
    hide PowerOfTwo, SectorSize;
    SupportedUnits(ss);
    if ss == 512 {
      assert 1_024_000 / ss == 2000;
    } else if ss == 1024 {
      assert 1_024_000 / ss == 1000;
    } else if ss == 2048 {
      assert 1_024_000 / ss == 500;
    } else {
      assert 1_024_000 / ss == 250;
    }
  }

  /** The unit in sectors, from its bytes: at least one, at most 128.  A unit below the smallest sector size that is
      supported is taken for a number of sectors. */
  lemma UnitInSectors(ss: nat, minSs: nat, nVol: dword, request: dword)
    requires SectorSize(ss) && SectorSize(minSs) && minSs <= ss
    ensures var u := if PowerOfTwo(request) then request else AutoUnit(ss, nVol);
            var n := if u < minSs then u else if u < ss then 1 else u / ss;
            UnitOf(ss, minSs, nVol, request) == if n > 128 then 128 else n
  {
    hide AutoUnit, SDiv, PowerOfTwo;
    ByUnitIsPlain(if PowerOfTwo(request) then request else AutoUnit(ss, nVol), ss, 1);
  }

  /** The automatic unit of a drive with sectors of 4096 bytes, where those of 512 are supported too. */
  lemma UnitOfLargeSectors(nVol: dword)
    ensures UnitOf(4096, 512, nVol, 0) == if nVol >= 256_000 then 8 else if nVol >= 128_000 then 4
                                          else if nVol >= 64_000 then 2 else if nVol >= 16_000 then 1
                                          else if nVol >= 8_000 then 4 else if nVol >= 4_000 then 2 else 1
  {
    hide AutoUnit, UnitOf;
    AutoUnitIs(4096, nVol);
    UnitInSectors(4096, 512, nVol, 0);
  }

  /** From 64 volume units up a larger volume never gets a smaller unit, if sectors of 2048 bytes or less are
      supported. */
  lemma LargerVolumeLargerUnit(ss: nat, minSs: nat, n: dword, m: dword)
    requires SectorSize(ss) && SectorSize(minSs) && minSs <= ss && minSs <= 2048
    requires 64 * (1_024_000 / ss) <= n <= m
    ensures UnitOf(ss, minSs, n, 0) <= UnitOf(ss, minSs, m, 0)
  {
    hide AutoUnit, UnitOf, SectorSize;
    SupportedUnits(minSs);
    UnitInSectors(ss, minSs, n, 0);
    UnitInSectors(ss, minSs, m, 0);
    UnitsInOrder(ss, n, m);
    InOrder(AutoUnit(ss, n), AutoUnit(ss, m), ss);
  }

  lemma UnitsInOrder(ss: nat, n: dword, m: dword)
    requires SectorSize(ss) && 64 * (1_024_000 / ss) <= n <= m
    ensures 2048 <= AutoUnit(ss, n) <= AutoUnit(ss, m)
  {
    hide AutoUnit, SectorSize;
    SupportedUnits(ss);
    AutoUnitIs(ss, n);
    AutoUnitIs(ss, m);
  }

  lemma InOrder(a: nat, b: nat, ss: nat)
    requires SectorSize(ss) && a <= b
    ensures a / ss <= b / ss && (a >= ss ==> a / ss >= 1)
  {
    ByUnitIsPlain(a, ss, 1);
    ByUnitIsPlain(b, ss, 1);
  }

  /** Where only sectors of 4096 bytes are supported, the 2048 bytes of the table count as 2048 sectors, and the unit
      falls from 128 sectors to one. */
  lemma LargerVolumeSmallerUnit()
    ensures UnitOf(4096, 4096, 31_999, 0) == 128 && UnitOf(4096, 4096, 32_000, 0) == 1
  {
    AutoUnitIs(4096, 31_999);
    AutoUnitIs(4096, 32_000);
    UnitInSectors(4096, 4096, 31_999, 0);
    UnitInSectors(4096, 4096, 32_000, 0);
  }

  /** The loop over the table of units, for a volume of vs volume units. */
  method TableUnit(vs: nat) returns (u: dword)
    ensures u as nat
            == if vs >= 1024 then 32768 else if vs >= 512 then 16384 else if vs >= 256 then 8192
               else if vs >= 128 then 4096 else if vs >= 64 then 2048 else if vs >= 32 then 16384
               else if vs >= 16 then 8192 else if vs >= 8 then 4096 else if vs >= 4 then 2048
               else if vs >= 2 then 1024 else 512
  {
    var vst: seq<nat> := [1024, 512, 256, 128, 64, 32, 16, 8, 4, 2, 0];
    var cst: seq<dword> := [32768, 16384, 8192, 4096, 2048, 16384, 8192, 4096, 2048, 1024, 512];
    var i := 0;
    while vs < vst[i]
      invariant 0 <= i < 11 && vst[10] == 0 && (i > 0 ==> vs < vst[i - 1])
      decreases 11 - i
    {
      i := i + 1;
    }
    u := cst[i];
  }

  lemma TableIsAuto(ss: nat, nVol: dword)
    requires SectorSize(ss)
    ensures var vs := VolumeUnits(ss, nVol);
            AutoUnit(ss, nVol) as nat
            == if vs >= 1024 then 32768 else if vs >= 512 then 16384 else if vs >= 256 then 8192
               else if vs >= 128 then 4096 else if vs >= 64 then 2048 else if vs >= 32 then 16384
               else if vs >= 16 then 8192 else if vs >= 8 then 4096 else if vs >= 4 then 2048
               else if vs >= 2 then 1024 else 512
  {
    hide VolumeUnits, PowerOfTwo;
  }

  lemma BelowOne(u: nat, minSs: nat, ss: nat)
    requires SectorSize(ss) && SectorSize(minSs)
    ensures SDiv(u, ss) == u / ss && (u / ss == 0 <==> u < ss) && 0 < minSs
  {
    ByUnitIsPlain(u, ss, 1);
  }

  lemma VolumeUnitsArePlain(ss: nat, nVol: dword)
    requires SectorSize(ss)
    ensures VolumeUnits(ss, nVol) == nVol / (1_024_000 / ss)
  {
  }

  /** The choice of the allocation unit: the one asked for if it is a power of two, else by the size of the volume. */
  method UnitSize(ss: nat, minSs: nat, nVol: dword, request: dword) returns (au: dword)
    requires SectorSize(ss) && SectorSize(minSs) && minSs <= ss
    ensures au == UnitOf(ss, minSs, nVol, request)
    ensures var vs := nVol / (1_024_000 / ss);
            var u := if request in {1, 2, 4, 8, 0x10, 0x20, 0x40, 0x80, 0x100, 0x200, 0x400, 0x800, 0x1000, 0x2000,
                                   0x4000, 0x8000, 0x1_0000, 0x2_0000, 0x4_0000, 0x8_0000, 0x10_0000, 0x20_0000,
                                   0x40_0000, 0x80_0000, 0x100_0000, 0x200_0000, 0x400_0000, 0x800_0000, 0x1000_0000,
                                   0x2000_0000, 0x4000_0000, 0x8000_0000}
                     then request as nat
                     else if vs >= 1024 then 32768 else if vs >= 512 then 16384 else if vs >= 256 then 8192
                     else if vs >= 128 then 4096 else if vs >= 64 then 2048 else if vs >= 32 then 16384
                     else if vs >= 16 then 8192 else if vs >= 8 then 4096 else if vs >= 4 then 2048
                     else if vs >= 2 then 1024 else 512;
            var n := if u < minSs then u else if u < ss then 1 else u / ss;
            au as nat == if n > 128 then 128 else n
  {
    hide PowerOfTwo, SDiv, UnitOf, VolumeUnits, SectorSize, AutoUnit;
    PowersOfTwo(request);
    VolumeUnitsArePlain(ss, nVol);
    UnitInSectors(ss, minSs, nVol, request);
    au := request;
    if !PowerOfTwo(au) { au := 0; }
    if au == 0 { au := TableUnit(VolumeUnits(ss, nVol)); } else { NotZero(au); }
    TableIsAuto(ss, nVol);
    assert au == if PowerOfTwo(request) then request else AutoUnit(ss, nVol);
    BelowOne(au, minSs, ss);
    if au >= minSs {
      SectorCount(au, ss);
      au := SDiv(au, ss);
    }
    if au == 0 { au := 1; }
    if au > 128 { au := 128; }
  }

  lemma TablePowers(n: nat)
    requires n == 512 || n == 1024 || n == 2048 || n == 4096 || n == 8192 || n == 16384 || n == 32768
    ensures PowerOfTwo(n)
  {
    assert PowerOfTwo(8) && PowerOfTwo(64);
    assert PowerOfTwo(512);
    assert PowerOfTwo(4096);
  }

  /** The FAT of a plan has an entry for every cluster. */
  lemma FatIsBigEnough(fmt: FatType, n0: dword, n: dword, ss: nat)
    requires SectorSize(ss) && n <= n0 && n0 + 2 <= LAST_LINK
    requires fmt == SubType(n0)
    ensures NeededFat(fmt, n + 2) <= SMul(FatSectors(fmt, n0, ss), ss)
    ensures 1 <= FatSectors(fmt, n0, ss) && (fmt != Fat32 ==> FatSectors(fmt, n0, ss) <= 0x200)
    ensures FatSectors(fmt, n0, ss) <= 0x20_0001
  {
    hide FatSectors, NeededFat, SDiv, SMul, Wrap;
    NeedIsExact(fmt, n + 2);
    var bytes := match fmt
      case Fat12 => (n0 * 3 + 1) / 2 + 3
      case Fat16 => n0 * 2 + 4
      case Fat32 => n0 * 4 + 8;
    SmallBytes(fmt, n0, ss, bytes);
    CeilingFits(bytes, FatSectors(fmt, n0, ss), ss);
    CeilingSize(bytes, ss);
  }

  lemma SmallBytes(fmt: FatType, n0: dword, ss: nat, bytes: int)
    requires SectorSize(ss) && n0 + 2 <= LAST_LINK
    requires bytes == match fmt case Fat12 => (n0 * 3 + 1) / 2 + 3 case Fat16 => n0 * 2 + 4 case Fat32 => n0 * 4 + 8
    ensures FatSectors(fmt, n0, ss) as int == SDiv(bytes + ss - 1, ss)
  {
    hide SDiv;
    SmallWrap(n0 * 3);
    SmallWrap(n0 * 3 + 1);
    SmallWrap((n0 * 3 + 1) / 2 + 3);
    SmallWrap(n0 * 2);
    SmallWrap(n0 * 2 + 4);
    SmallWrap(n0 * 4);
    SmallWrap(n0 * 4 + 8);
    SmallWrap(bytes + ss - 1);
  }

  lemma CeilingSize(bytes: nat, ss: nat)
    requires SectorSize(ss) && 1 <= bytes <= 0x4000_0004
    ensures 1 <= SDiv(bytes + ss - 1, ss) <= 0x20_0001
    ensures bytes <= 0x2_0000 ==> SDiv(bytes + ss - 1, ss) <= 0x101
  {
  }

  /** y & ~m */
  function Masked(y: nat, m: nat): (r: nat)
    ensures r <= y <= r + m
    decreases m
  {
    if m == 0 then y else 2 * Masked(y / 2, m / 2) + if m % 2 == 1 then 0 else y % 2
  }

  /** For a power of two the mask takes the remainder away. */
  lemma {:induction false} MaskedIsMultiple(y: nat, n: nat)
    requires PowerOfTwo(n)
    ensures n > 0 && Masked(y, n - 1) == y - y % n
    decreases n
  {
    NotZero(n);
    if n > 1 {
      Halve(n);
      var h := n / 2;
      NotZero(h);
      MaskedIsMultiple(y / 2, h);
      HalfRest(y, h);
      assert (n - 1) / 2 == h - 1 && (n - 1) % 2 == 1;
    }
  }

  lemma HalfRest(y: nat, h: nat)
    requires h > 0
    ensures y % (2 * h) == 2 * (y / 2 % h) + y % 2
  {
    var q, r := y / 2 / h, y / 2 % h;
    assert y / 2 == q * h + r;
    assert y == q * (2 * h) + (2 * r + y % 2);
    RestIs(y, 2 * h, q, 2 * r + y % 2);
  }

  lemma RestIs(y: nat, n: nat, q: nat, r: nat)
    requires r < n && y == q * n + r
    ensures y % n == r
  {
    RestUnique(n, q, r, y / n, y % n);
  }

  lemma RestUnique(n: nat, q: nat, r: nat, p: nat, s: nat)
    requires r < n && s < n && q * n + r == p * n + s
    ensures r == s
  {
    if q > p { AtLeast(q - p, n); } else if q < p { AtLeast(p - q, n); }
  }

  lemma AtLeast(k: nat, n: nat)
    requires k >= 1
    ensures k * n >= n
  {
    assert k * n == (k - 1) * n + n;
  }

  /** The next erase block: (x + n - 1) & ~(n - 1). */
  function AlignUp(x: dword, n: dword): dword
    requires n > 0
  {
    Masked(Wrap(x + n - 1), n - 1)
  }

  /** Sector counts before the alignment. */
  lemma AreasFit(nVol: dword, au: dword, fmt: FatType, ss: nat, bVol: dword, nRsv: dword, nFat: dword, nDir: dword)
    requires SectorSize(ss) && ClusterSize(au) && CDiv(nVol, au) + 2 <= LAST_LINK && fmt == SubType(CDiv(nVol, au))
    requires nFat == FatSectors(fmt, CDiv(nVol, au), ss) && nDir == RootSize(fmt, ss) && bVol <= 63 && nRsv <= 32
    ensures bVol + nRsv + nFat + nDir <= 0x20_1000 && 1 <= nFat && (fmt != Fat32 ==> nFat <= 0x200)
  {
    hide FatSectors, CDiv, SubType;
    CountBelow(nVol, nVol, au);
    FatIsBigEnough(fmt, CDiv(nVol, au), CDiv(nVol, au), ss);
  }

  /** A plan with room is sound. */
  lemma RoomIsSound(p: Plan, ss: nat, n0: dword, nFat0: dword)
    requires SectorSize(ss) && ClusterSize(p.au) && n0 as int == CDiv(p.nVol, p.au) && n0 + 2 <= LAST_LINK
    requires p.fmt == SubType(n0) && p.nDir == RootSize(p.fmt, ss) && p.bVol + p.nVol <= 0xFFFF_FFFF
    requires nFat0 == FatSectors(p.fmt, n0, ss) <= p.nFat <= nFat0 + 0x8000 && (p.fmt == Fat32 ==> p.nFat == nFat0)
    requires if p.fmt == Fat32 then 32 <= p.nRsv <= 32 + 0x8000 else p.nRsv == 1
    requires Room(p) && p.nClst as int == CDiv(p.nVol - (p.nRsv + p.nFat + p.nDir), p.au)
    requires (p.fmt == Fat16 ==> p.nClst >= MIN_FAT16) && (p.fmt == Fat32 ==> p.nClst >= MIN_FAT32)
    ensures Sound(p, ss)
  {
    hide FatSectors, NeededFat, SMul, SDiv, EDiv;
    CountBelow(p.nVol, p.nVol - (p.nRsv + p.nFat + p.nDir), p.au);
    OneCluster(p.nVol - (p.nRsv + p.nFat + p.nDir), p.au);
    hide CDiv;
    FatIsBigEnough(p.fmt, n0, p.nClst, ss);
    MoreSectors(nFat0, p.nFat, ss);
  }

  lemma OneCluster(n: int, cs: int)
    requires ClusterSize(cs) && n >= cs
    ensures CDiv(n, cs) >= 1
  {
  }

  lemma MoreSectors(a: int, b: int, ss: int)
    requires SectorSize(ss) && a <= b
    ensures SMul(a, ss) <= SMul(b, ss)
  {
  }

  // ---------- the plan as a function of what is asked for ----------

  /** What f_mkfs is asked for, and what the drive reports: its sectors and its erase block. */
  datatype Job = Job(ss: nat, minSs: nat, nDisk: dword, sfd: bool, unit: dword, block: dword) {
    predicate Valid() {
      SectorSize(ss) && SectorSize(minSs) && minSs <= ss
    }

    /** The erase block to align to; an implausible one counts as one sector. */
    function Erase(): (n: dword)
      ensures 1 <= n <= 0x8000
    {
      if 1 <= block <= 0x8000 then block else 1
    }

    /** The layout before the alignment. */
    function First(): (q: Plan)
      requires Valid() && nDisk >= 128
      ensures ClusterSize(q.au)
    {
      var bVol := if sfd then 0 else 63;
      var nVol := nDisk - bVol;
      var au := UnitOf(ss, minSs, nVol, unit);
      CountBelow(nVol, nVol, au);
      RootSectors(Fat12, ss);
      var fmt := SubType(CDiv(nVol, au));
      Plan(fmt, au, bVol, nVol, if fmt == Fat32 then 32 else 1,
           FatSectors(fmt, CDiv(nVol, au), ss), RootSize(fmt, ss), 0)
    }

    /** The cluster count fits in 28 bits, even without any sector spent on the areas before the data. */
    predicate Small28()
      requires Valid() && nDisk >= 128
    {
      Small(First())
    }

    /** First sector of the data area: the end of the areas before it, aligned to the erase block. */
    function DataStart(): nat
      requires Valid() && nDisk >= 128
    {
      Masked(AreaEnd(First()) + Erase() - 1, Erase() - 1)
    }

    /** The aligned data area has a whole cluster on the disk. */
    predicate HasRoom()
      requires Valid() && nDisk >= 128
    {
      DataStart() + First().au <= nDisk
    }
  }

  /** First sector behind the areas of a plan. */
  function AreaEnd(p: Plan): nat {
    p.bVol + p.nRsv + p.nFat + p.nDir
  }

  function NextMultiple(x: nat, n: nat): nat
    requires n > 0
  {
    x + n - 1 - (x + n - 1) % n
  }

  /** Align the data area: FAT32 grows the reserved area, FAT12/16 the FAT. */
  function Aligned(q: Plan, erase: dword): (p: Plan)
    requires ClusterSize(q.au) && erase > 0
  {
    var bData := Wrap(AreaEnd(q));
    var gap := Sub32(AlignUp(bData, erase), bData);
    var nRsv := if q.fmt == Fat32 then Wrap(q.nRsv + gap) else q.nRsv;
    var nFat := if q.fmt == Fat32 then q.nFat else Wrap(q.nFat + gap);
    var left := Sub32(Sub32(Sub32(q.nVol, nRsv), nFat), q.nDir);
    CountBelow(left, left, q.au);
    q.(nRsv := nRsv, nFat := nFat, nClst := CDiv(left, q.au))
  }

  /** The alignment has left too few clusters for the type. */
  predicate TypeLost(p: Plan) {
    (p.fmt == Fat16 && p.nClst < MIN_FAT16) || (p.fmt == Fat32 && p.nClst < MIN_FAT32)
  }

  const NO_PLAN: Plan := Plan(Fat12, 1, 0, 0, 0, 0, 0, 0)

  /** Result and layout that f_mkfs decides on before it writes anything. */
  function PlanOf(j: Job): (r: (FResult, Plan))
    requires j.Valid()
    ensures ClusterSize(r.1.au)
  {
    if j.nDisk < 128 then (FrDiskErr, NO_PLAN)
    else
      var q := j.First();
      if q.nVol < Sub32(Wrap(Wrap(AreaEnd(q)) + q.au), q.bVol) then (FrMkfsAborted, q)
      else
        var p := Aligned(q, j.Erase());
        (if TypeLost(p) then FrMkfsAborted else FrOk, p)
  }

  /** The layout without wrap: the alignment moves the end of the areas to the start of the data. */
  lemma AlignedExactly(j: Job)
    requires j.Valid() && j.nDisk >= 128 && j.Small28()
    ensures var (q, p) := (j.First(), Aligned(j.First(), j.Erase()));
            && AreaEnd(p) == j.DataStart() && AreaEnd(q) <= AreaEnd(p) < AreaEnd(q) + j.Erase()
            && AreaEnd(q) + q.au <= 0x20_2000
            && 1 <= q.nFat && (q.fmt != Fat32 ==> q.nFat <= 0x200)
            && p == q.(nRsv := p.nRsv, nFat := p.nFat, nClst := p.nClst)
            && (if q.fmt == Fat32 then p.nFat == q.nFat && 32 <= p.nRsv <= 32 + 0x8000
                else p.nRsv == 1 && q.nFat <= p.nFat <= q.nFat + 0x8000)
            && (AreaEnd(p) <= j.nDisk ==>
                  p.nClst as int == CDiv(p.nVol - (p.nRsv + p.nFat + p.nDir), p.au))
  {
    hide FatSectors, NeededFat, SMul, SDiv, EDiv, CDiv, Wrap, AlignUp, PowerOfTwo, RootSize, UnitOf, Masked;
    var q := j.First();
    CountBelow(q.nVol, q.nVol, q.au);
    RootSectors(q.fmt, j.ss);
    AreasFit(q.nVol, q.au, q.fmt, j.ss, q.bVol, q.nRsv, q.nFat, q.nDir);
    SmallWrap(AreaEnd(q));
    AlignIsNext(AreaEnd(q), j.Erase());
    var gap := j.DataStart() - AreaEnd(q);
    SmallWrap(q.nRsv + gap);
    SmallWrap(q.nFat + gap);
  }

  /** With an erase block that is a power of two, the data area starts at the next multiple of it. */
  lemma AlignedToBlock(j: Job)
    requires j.Valid() && j.nDisk >= 128 && PowerOfTwo(j.Erase())
    ensures j.Erase() as nat == (if 1 <= j.block <= 32768 then j.block as nat else 1)
    ensures j.DataStart() == NextMultiple(AreaEnd(j.First()), j.Erase())
    ensures var end, e := AreaEnd(j.First()), j.Erase() as nat;
            end <= j.DataStart() < end + e && j.DataStart() % e == 0
  {
    hide Job.First, PowerOfTwo, Masked;
    MaskedIsMultiple(AreaEnd(j.First()) + j.Erase() - 1, j.Erase());
    WholeBlocks(AreaEnd(j.First()) + j.Erase() - 1, j.Erase());
  }

  lemma WholeBlocks(y: nat, n: nat)
    requires n > 0
    ensures (y - y % n) % n == 0
  {
    assert y - y % n == y / n * n + 0;
    RestIs(y - y % n, n, y / n, 0);
  }

  lemma AlignIsNext(x: dword, n: dword)
    requires 0 < n <= 0x8000 && x <= 0xFFFF_0000
    ensures AlignUp(x, n) as int == Masked(x + n - 1, n - 1)
  {
    hide Masked;
    SmallWrap(x + n - 1);
  }

  /** The plan without wrap: refused if the areas do not fit in the first place, or if the type is lost. */
  lemma PlanUnwrapped(j: Job)
    requires j.Valid() && j.nDisk >= 128 && j.Small28()
    ensures var (q, p) := (j.First(), Aligned(j.First(), j.Erase()));
            && PlanOf(j) == (if j.nDisk < AreaEnd(q) + q.au then (FrMkfsAborted, q)
                             else (if TypeLost(p) then FrMkfsAborted else FrOk, p))
            && q.bVol == (if j.sfd then 0 else 63) && q.bVol + q.nVol == j.nDisk
            && q.nDir == RootSize(q.fmt, j.ss) && 0 <= CDiv(q.nVol, q.au) <= q.nVol
            && q.fmt == SubType(CDiv(q.nVol, q.au)) && q.nFat == FatSectors(q.fmt, CDiv(q.nVol, q.au), j.ss)
  {
    hide FatSectors, NeededFat, SMul, SDiv, EDiv, CDiv, Wrap, AlignUp, PowerOfTwo, RootSize, UnitOf, NextMultiple,
      Masked, Aligned, TypeLost;
    var q := j.First();
    AlignedExactly(j);
    SmallWrap(AreaEnd(q));
    SmallWrap(AreaEnd(q) + q.au);
    CountBelow(q.nVol, q.nVol, q.au);
  }

  /** The layout before the alignment, in plain numbers. */
  lemma FirstIsPlain(j: Job)
    requires j.Valid() && j.nDisk >= 128 && j.Small28()
    ensures var q := j.First();
            && q.au > 0 && q.bVol as nat == (if j.sfd then 0 else 63) && q.nVol == j.nDisk - q.bVol
            && var n := q.nVol as nat / q.au as nat;
            && q.fmt == (if n >= 65526 then Fat32 else if n >= 4086 then Fat16 else Fat12)
            && q.nRsv as nat == (if n >= 65526 then 32 else 1)
            && q.nDir as nat == (if n >= 65526 then 0 else 512 * 32 / j.ss)
            && var bytes := if n >= 65526 then 4 * n + 8 else if n >= 4086 then 2 * n + 4 else (3 * n + 1) / 2 + 3;
            q.nFat as nat == (bytes + j.ss - 1) / j.ss
  {
    hide Job.First, FatSectors, CDiv, SDiv, PlanOf, Aligned, SubType, RootSize, SectorSize, ClusterSize, UnitOf;
    var q := j.First();
    PlanUnwrapped(j);
    FirstReserved(j);
    UnitDivides(q.nVol, j.ss, q.au);
    var n: nat := CDiv(q.nVol, q.au);
    TypeAndFat(n, j.ss);
    RootIsPlain(q.fmt, j.ss);
  }

  lemma UnitDivides(n: nat, ss: nat, au: nat)
    requires SectorSize(ss) && ClusterSize(au)
    ensures au > 0 && CDiv(n, au) == n / au
  {
    ByUnitIsPlain(n, ss, au);
  }

  /** Type and FAT size for n clusters. */
  lemma TypeAndFat(n: nat, ss: nat)
    requires SectorSize(ss) && n + 2 <= LAST_LINK
    ensures SubType(n) == if n >= 65526 then Fat32 else if n >= 4086 then Fat16 else Fat12
    ensures var bytes := if n >= 65526 then 4 * n + 8 else if n >= 4086 then 2 * n + 4 else (3 * n + 1) / 2 + 3;
            FatSectors(SubType(n), n, ss) as nat == (bytes + ss - 1) / ss
  {
    hide SDiv, FatSectors, SectorSize;
    var bytes := if n >= 65526 then 4 * n + 8 else if n >= 4086 then 2 * n + 4 else (3 * n + 1) / 2 + 3;
    SmallBytes(SubType(n), n, ss, bytes);
    ByUnitIsPlain(bytes + ss - 1, ss, 1);
  }

  lemma FirstReserved(j: Job)
    requires j.Valid() && j.nDisk >= 128
    ensures j.First().nRsv as nat == (if j.First().fmt == Fat32 then 32 else 1) && j.First().au > 0
  {
    hide FatSectors, CDiv, SDiv, UnitOf, RootSize, SubType;
  }

  lemma RootIsPlain(fmt: FatType, ss: nat)
    requires SectorSize(ss)
    ensures RootSize(fmt, ss) == if fmt == Fat32 then 0 else 512 * 32 / ss
  {
  }

  /** Result and layout, the alignment included: f_mkfs refuses a drive of fewer than 128 sectors, areas that leave no
      room for a cluster before the alignment, and an alignment that takes the clusters that the type needs. */
  lemma PlanIsPlain(j: Job)
    requires j.Valid() && (j.nDisk >= 128 ==> j.Small28())
    ensures j.nDisk < 128 <==> PlanOf(j).0 == FrDiskErr
    ensures j.nDisk >= 128 ==>
      var q, res, p := j.First(), PlanOf(j).0, PlanOf(j).1;
      var end, at := q.bVol as nat + q.nRsv + q.nFat + q.nDir, j.DataStart();
      if end + q.au > j.nDisk then res == FrMkfsAborted
      else
        && p.fmt == q.fmt && p.au == q.au > 0 && p.bVol == q.bVol && p.nVol == q.nVol && p.nDir == q.nDir
        && at >= end
        && p.nRsv as nat == q.nRsv as nat + (if q.fmt == Fat32 then at - end else 0)
        && p.nFat as nat == q.nFat as nat + (if q.fmt == Fat32 then 0 else at - end)
        && (at <= j.nDisk ==> p.nClst as nat == (j.nDisk - at) / p.au as nat)
        && res == if (p.fmt == Fat16 && p.nClst < 4086) || (p.fmt == Fat32 && p.nClst < 65526)
                  then FrMkfsAborted else FrOk
  {
    hide FatSectors, NeededFat, SMul, SDiv, EDiv, CDiv, Wrap, AlignUp, PowerOfTwo, RootSize, UnitOf, NextMultiple,
      Masked, Job.First, Aligned, Job.DataStart;
    if j.nDisk >= 128 {
      AlignedExactly(j);
      PlanUnwrapped(j);
      FirstReserved(j);
      var p := Aligned(j.First(), j.Erase());
      if AreaEnd(p) <= j.nDisk { ByUnitIsPlain(p.nVol - (p.nRsv + p.nFat + p.nDir), j.ss, p.au); }
    }
  }

  /** What the plan is worth: with room it is sound; without, no cluster is left behind the areas of FAT12, or the areas
      leave the disk.  A type that is lost, or areas that are too large from the start, are refused. */
  lemma PlanIsWorth(j: Job)
    requires j.Valid() && j.nDisk >= 128 && j.Small28()
    ensures var (res, p) := PlanOf(j);
            && p.bVol + p.nVol == j.nDisk && p.bVol == (if j.sfd then 0 else 63)
            && (res == FrOk ==> (Sound(p, j.ss) <==> j.HasRoom()))
            && (res == FrOk ==>
                 Recordable(p) && p.nDir == RootSize(p.fmt, j.ss) && 1 <= p.nRsv <= 0xFFFF && 1 <= p.nFat)
            && (res == FrOk ==> (Room(p) <==> j.HasRoom()))
            && (j.HasRoom() ==> (res == FrOk <==> SubType(p.nClst) == p.fmt))
            && (res == FrOk && !j.HasRoom() ==> AreaEnd(p) > j.nDisk || (p.fmt == Fat12 && p.nClst == 0))
  {
    hide FatSectors, NeededFat, SMul, SDiv, EDiv, CDiv, Wrap, AlignUp, PowerOfTwo, RootSize, UnitOf, NextMultiple,
      Masked, PlanOf, Job.First, Aligned;
    var q, p := j.First(), Aligned(j.First(), j.Erase());
    AlignedExactly(j);
    PlanUnwrapped(j);
    CountBelow(q.nVol, q.nVol, q.au);
    if AreaEnd(p) <= j.nDisk {
      CountBelow(p.nVol, p.nVol - (p.nRsv + p.nFat + p.nDir), p.au);
      if j.HasRoom() {
        OneCluster(p.nVol - (p.nRsv + p.nFat + p.nDir), p.au);
        if !TypeLost(p) { RoomIsSound(p, j.ss, CDiv(q.nVol, q.au), q.nFat); }
      } else {
        NoCluster(p.nVol - (p.nRsv + p.nFat + p.nDir), p.au);
      }
    }
  }

  lemma NoCluster(n: int, cs: int)
    requires ClusterSize(cs) && 0 <= n < cs
    ensures CDiv(n, cs) == 0
  {
  }

  /** Without an erase block every plan has room. */
  lemma UnalignedHasRoom(j: Job)
    requires j.Valid() && j.nDisk >= 128 && j.Small28() && !(2 <= j.block <= 0x8000) && PlanOf(j).0 == FrOk
    ensures j.HasRoom()
  {
    hide FatSectors, NeededFat, SMul, SDiv, EDiv, CDiv, Wrap, AlignUp, PowerOfTwo, RootSize, UnitOf, NextMultiple,
      Masked;
    AlignedExactly(j);
    SmallWrap(AreaEnd(j.First()));
    SmallWrap(AreaEnd(j.First()) + j.First().au);
  }

  /** The input without room: 128 sectors of 4096 bytes, 64 sectors a cluster, an erase block of 128. */
  predicate Tight(j: Job) {
    j == Job(4096, 4096, 128, true, 64, 128)
  }

  lemma TightFirst(j: Job)
    requires Tight(j)
    ensures j.Valid() && j.First() == Plan(Fat12, 64, 0, 128, 1, 1, 4, 0)
  {
    hide Wrap;
    assert PowerOfTwo(4) && PowerOfTwo(64);
    assert PowerOfTwo(128);
    SmallBytes(Fat12, 2, 4096, 6);
  }

  lemma TightAligned()
    ensures Masked(133, 127) == 128 && AlignUp(6, 128) == 128
  {
    hide Masked;
    assert PowerOfTwo(8) && PowerOfTwo(64);
    assert PowerOfTwo(128);
    MaskedIsMultiple(133, 128);
  }

  /** f_mkfs accepts a job and plans p for it, but no cluster has room. */
  predicate AcceptedWithoutRoom(j: Job, p: Plan) {
    j.Valid() && j.nDisk >= 128 && j.Small28() && !j.HasRoom() && PlanOf(j) == (FrOk, p) && WritesFit(p, j.nDisk)
  }

  /** It happens. */
  lemma NoRoomIsAccepted(j: Job)
    requires Tight(j)
    ensures AcceptedWithoutRoom(j, Plan(Fat12, 64, 0, 128, 1, 123, 4, 0))
  {
    hide PowerOfTwo, UnitOf, FatSectors, RootSize, Job.First, Masked, AlignUp;
    TightFirst(j);
    TightAligned();
  }

  /** The layout before the alignment. */
  method FirstLayout(j: Job) returns (q: Plan)
    requires j.Valid() && j.nDisk >= 128
    ensures q == j.First()
  {
    hide Wrap, FatSectors, CDiv, SubType, RootSize, UnitOf, PowerOfTwo;
    var bVol: dword := if j.sfd then 0 else 63;
    var nVol: dword := j.nDisk - bVol;
    var au := UnitSize(j.ss, j.minSs, nVol, j.unit);
    CountBelow(nVol, nVol, au);
    var n0: dword := CDiv(nVol, au);
    var fmt := SubType(n0);
    RootSectors(fmt, j.ss);
    q := Plan(fmt, au, bVol, nVol, if fmt == Fat32 then 32 else 1, FatSectors(fmt, n0, j.ss), RootSize(fmt, j.ss), 0);
  }

  /** Determine the layout of a new volume. */
  method PlanFormat(j: Job) returns (res: FResult, p: Plan)
    requires j.Valid()
    ensures (res, p) == PlanOf(j)
  {
    hide Wrap, AlignUp, FatSectors, NeededFat, SMul, SDiv, EDiv, CDiv, PowerOfTwo, SubType, RootSize, UnitOf, Job.First;
    res, p := FrOk, NO_PLAN;
    if j.nDisk < 128 { res := FrDiskErr; return; }
    p := FirstLayout(j);
    var bData: dword := Wrap(p.bVol + p.nRsv + p.nFat + p.nDir);
    if p.nVol < Sub32(Wrap(bData + p.au), p.bVol) { res := FrMkfsAborted; return; }
    var n: dword := if j.block == 0 || j.block > 0x8000 then 1 else j.block;
    n := Sub32(AlignUp(bData, n), bData);
    if p.fmt == Fat32 {
      p := p.(nRsv := Wrap(p.nRsv + n));
    } else {
      p := p.(nFat := Wrap(p.nFat + n));
    }
    var left := Sub32(Sub32(Sub32(p.nVol, p.nRsv), p.nFat), p.nDir);
    CountBelow(left, left, p.au);
    p := p.(nClst := CDiv(left, p.au));
    if (p.fmt == Fat16 && p.nClst < MIN_FAT16) || (p.fmt == Fat32 && p.nClst < MIN_FAT32) { res := FrMkfsAborted; }
  }

  lemma RootSectors(fmt: FatType, ss: nat)
    requires SectorSize(ss)
    ensures 0 <= RootSize(fmt, ss) <= 32
  {
  }

  lemma RootFits(ss: nat)
    requires SectorSize(ss)
    ensures 4 <= EDiv(N_ROOTDIR, ss) <= 32 && EMod(N_ROOTDIR, ss) == 0
  {
  }

  // ---------- the plan as a mount sees it ----------

  /** The geometry a plan stands for. */
  function GeometryOf(p: Plan, ss: nat): (g: Geometry)
    requires SectorSize(ss) && Sound(p, ss)
  {
    hide NeededFat, SDiv, SMul, EDiv, CDiv;
    EndOfData(p);
    Geometry(p.fmt, ss, p.au, 1, RootEntries(p.fmt), p.nClst + 2, p.nFat, p.bVol, p.bVol + p.nRsv,
             if p.fmt == Fat32 then 2 else p.bVol + p.nRsv + p.nFat, p.bVol + p.nRsv + p.nFat + p.nDir)
  }

  lemma EndOfData(p: Plan)
    requires ClusterSize(p.au) && Room(p) && p.bVol + p.nVol <= 0xFFFF_FFFF
    ensures p.bVol + p.nRsv + p.nFat + p.nDir + p.au <= p.bVol + p.nVol
  {
  }

  /** The BPB of a plan; the last two fields matter on FAT32 only. */
  predicate Describes(b: Bpb, p: Plan, ss: nat) {
    && b.bytsPerSec as int == ss && b.secPerClus as int == p.au && b.rsvdSecCnt as int == p.nRsv && b.numFats == 1
    && b.rootEntCnt as int == RootEntries(p.fmt) && b.totSec == p.nVol && b.fatSz == p.nFat
    && (p.fmt == Fat32 ==> b.rootClus == 2 && b.fsInfo == 1)
  }

  /** A sound plan is what a mount reads off its BPB, and the geometry is well formed. */
  lemma PlanIsMounted(b: Bpb, p: Plan, ss: nat)
    requires SectorSize(ss) && Sound(p, ss) && Describes(b, p, ss)
    ensures Analyse(b, p.bVol, ss) == Accepted(GeometryOf(p, ss))
    ensures GeometryOf(p, ss).WellFormed() && GeometryOf(p, ss).DataEnd() <= p.bVol + p.nVol
  {
    hide SMul, SDiv, CMul, CDiv, EDiv, EMod, NeededFat, Wrap;
    var sysect := p.nRsv + p.nFat + p.nDir;
    EndOfData(p);
    RootIs(p.fmt, ss);
    SmallWrap(sysect);
    SmallWrap(p.nClst + 2);
    SmallWrap(p.bVol + p.nRsv);
    SmallWrap(p.bVol + p.nRsv + p.nFat);
    SmallWrap(p.bVol + sysect);
    NeedIsExact(p.fmt, p.nClst + 2);
    SmallWrap(NeededFat(p.fmt, p.nClst + 2) + ss - 1);
    FitsCeiling(NeededFat(p.fmt, p.nClst + 2), p.nFat, ss);
    ClusterSplit(p.nVol - sysect, p.au);
  }

  lemma RootIs(fmt: FatType, ss: nat)
    requires SectorSize(ss)
    ensures EDiv(RootEntries(fmt), ss) == RootSize(fmt, ss) && EMod(RootEntries(fmt), ss) == 0
  {
  }

  lemma FitsCeiling(need: int, n: int, ss: int)
    requires SectorSize(ss) && 0 <= need <= SMul(n, ss)
    ensures SDiv(need + ss - 1, ss) <= n
  {
  }

  // ---------- the boot sector ----------

  /** Store a byte string. */
  method PutBytes(a: array<byte>, at: nat, data: seq<byte>)
    requires at + |data| <= a.Length
    modifies a
    ensures forall j :: 0 <= j < a.Length ==> a[j] == if at <= j < at + |data| then data[j - at] else old(a[j])
  {
    forall j | 0 <= j < |data| { a[at + j] := data[j]; }
  }

  /** The fields common to all FAT types. */
  method PutCommon(tbl: array<byte>, ss: nat, p: Plan, md: byte)
    requires 512 <= ss <= 4096 && p.au <= 0xFF && tbl.Length == ss
    modifies tbl
    ensures Has16(tbl, BPB_BYTSPERSEC, ss) && tbl[BPB_SECPERCLUS] as int == p.au && Has16(tbl, BPB_RSVDSECCNT, p.nRsv)
    ensures tbl[BPB_NUMFATS] == 1 && Has16(tbl, BPB_ROOTENTCNT, RootEntries(p.fmt))
    ensures if p.nVol < 0x1_0000 then Has16(tbl, BPB_TOTSEC16, p.nVol)
            else Has16(tbl, BPB_TOTSEC16, 0) && Has32(tbl, BPB_TOTSEC32, p.nVol)
    ensures Has16(tbl, BPB_FATSZ16, 0)
    ensures tbl[..11] == [0xEB, 0xFE, 0x90, 0x4D, 0x53, 0x44, 0x4F, 0x53, 0x35, 0x2E, 0x30]
    ensures tbl[21] == md && Has16(tbl, 24, 63) && Has16(tbl, 26, 255) && Has32(tbl, 28, p.bVol)
    ensures p.nVol < 0x1_0000 ==> Has32(tbl, 32, 0)
    ensures forall j :: 36 <= j < ss ==> tbl[j] == 0
  {
    PutUnits(tbl, ss, p);
    ghost var jump := tbl[..11];
    PutExtent(tbl, p, md);
    assert tbl[..11] == jump;
  }

  /** The first 19 bytes: the jump, the name, and the sizes of sectors, units, the reserved area and the root
      directory. */
  method PutUnits(tbl: array<byte>, ss: nat, p: Plan)
    requires 512 <= ss <= 4096 && p.au <= 0xFF && tbl.Length == ss
    modifies tbl
    ensures Has16(tbl, BPB_BYTSPERSEC, ss) && tbl[BPB_SECPERCLUS] as int == p.au && Has16(tbl, BPB_RSVDSECCNT, p.nRsv)
    ensures tbl[BPB_NUMFATS] == 1 && Has16(tbl, BPB_ROOTENTCNT, RootEntries(p.fmt))
    ensures tbl[..11] == [0xEB, 0xFE, 0x90, 0x4D, 0x53, 0x44, 0x4F, 0x53, 0x35, 0x2E, 0x30]
    ensures forall j :: 19 <= j < ss ==> tbl[j] == 0
  {
    EntriesFit(p.fmt);
    MemSet(tbl, 0, tbl.Length);
    PutBytes(tbl, 0, [0xEB, 0xFE, 0x90, 0x4D, 0x53, 0x44, 0x4F, 0x53, 0x35, 0x2E, 0x30]);
    ghost var jump := tbl[..11];
    Put16(tbl, BPB_BYTSPERSEC, ss);
    Put8(tbl, BPB_SECPERCLUS, p.au);
    Put16(tbl, BPB_RSVDSECCNT, p.nRsv);
    Put8(tbl, BPB_NUMFATS, 1);
    Put16(tbl, BPB_ROOTENTCNT, RootEntries(p.fmt));
    assert tbl[..11] == jump;
  }

  /** Bytes 19 to 35: the size and the place of the volume, the media descriptor and a drive geometry. */
  method PutExtent(tbl: array<byte>, p: Plan, md: byte)
    requires tbl.Length >= 512 && forall j :: 19 <= j < tbl.Length ==> tbl[j] == 0
    modifies tbl
    ensures forall j :: 0 <= j < 19 ==> tbl[j] == old(tbl[j])
    ensures if p.nVol < 0x1_0000 then Has16(tbl, BPB_TOTSEC16, p.nVol)
            else Has16(tbl, BPB_TOTSEC16, 0) && Has32(tbl, BPB_TOTSEC32, p.nVol)
    ensures Has16(tbl, BPB_FATSZ16, 0)
    ensures tbl[21] == md && Has16(tbl, 24, 63) && Has16(tbl, 26, 255) && Has32(tbl, 28, p.bVol)
    ensures p.nVol < 0x1_0000 ==> Has32(tbl, 32, 0)
    ensures forall j :: 36 <= j < tbl.Length ==> tbl[j] == 0
  {
    if p.nVol < 0x1_0000 {
      Put16(tbl, BPB_TOTSEC16, p.nVol);
    } else {
      Put32(tbl, BPB_TOTSEC32, p.nVol);
    }
    Put8(tbl, BPB_MEDIA, md);
    Put16(tbl, 24, 63);
    Put16(tbl, 26, 255);
    Put32(tbl, 28, p.bVol);
  }

  lemma EntriesFit(fmt: FatType)
    ensures RootEntries(fmt) <= 0xFFFF
  {
  }

  lemma UnitIsByte(p: Plan, ss: nat)
    requires SectorSize(ss) && Recordable(p)
    ensures 512 <= ss <= 4096 && p.au <= 0xFF && 1 <= p.nVol && p.nRsv <= 0xFFFF && RootEntries(p.fmt) <= 0xFFFF
  {
  }

  /** "NO NAME    FAT32   " and "NO NAME    FAT     " */
  const LABEL32: seq<byte> := [0x4E, 0x4F, 0x20, 0x4E, 0x41, 0x4D, 0x45, 0x20, 0x20, 0x20, 0x20, 0x46, 0x41, 0x54,
    0x33, 0x32, 0x20, 0x20, 0x20]
  const LABEL16: seq<byte> := [0x4E, 0x4F, 0x20, 0x4E, 0x41, 0x4D, 0x45, 0x20, 0x20, 0x20, 0x20, 0x46, 0x41, 0x54,
    0x20, 0x20, 0x20, 0x20, 0x20]

  method PutFat32(tbl: array<byte>, p: Plan, time: dword)
    requires tbl.Length >= 512 && forall j :: 36 <= j < tbl.Length ==> tbl[j] == 0
    modifies tbl
    ensures forall j :: 0 <= j < 36 ==> tbl[j] == old(tbl[j])
    ensures Has32(tbl, BPB_FATSZ32, p.nFat) && Has32(tbl, BPB_ROOTCLUS, 2) && Has16(tbl, BPB_FSINFO, 1)
    ensures tbl[BS_FILSYSTYPE32] == 0x46 && tbl[BS_FILSYSTYPE32 + 1] == 0x41 && tbl[BS_FILSYSTYPE32 + 2] == 0x54
    ensures Has16(tbl, 50, 6) && tbl[64] == 0x80 && tbl[66] == 0x29 && Has32(tbl, 67, time) && tbl[71..90] == LABEL32
    ensures forall j :: 40 <= j < 44 || 52 <= j < 64 || j == 65 || 90 <= j < tbl.Length ==> tbl[j] == 0
  {
    Put32(tbl, 67, time);
    Put32(tbl, BPB_FATSZ32, p.nFat);
    Put32(tbl, BPB_ROOTCLUS, 2);
    Put16(tbl, BPB_FSINFO, 1);
    Put16(tbl, 50, 6);
    Put8(tbl, 64, 0x80);
    Put8(tbl, 66, 0x29);
    PutBytes(tbl, 71, LABEL32);
  }

  method PutFat16(tbl: array<byte>, p: Plan, time: dword)
    requires tbl.Length >= 512
    modifies tbl
    ensures forall j :: 0 <= j < 36 && j != BPB_FATSZ16 && j != BPB_FATSZ16 + 1 ==> tbl[j] == old(tbl[j])
    ensures Has16(tbl, BPB_FATSZ16, p.nFat)
    ensures tbl[BS_FILSYSTYPE] == 0x46 && tbl[BS_FILSYSTYPE + 1] == 0x41 && tbl[BS_FILSYSTYPE + 2] == 0x54
    ensures tbl[36] == 0x80 && tbl[38] == 0x29 && Has32(tbl, 39, time) && tbl[43..62] == LABEL16
    ensures forall j :: j == 37 || 62 <= j < tbl.Length ==> tbl[j] == old(tbl[j])
  {
    Put32(tbl, 39, time);
    Put16(tbl, BPB_FATSZ16, p.nFat);
    Put8(tbl, 36, 0x80);
    Put8(tbl, 38, 0x29);
    PutBytes(tbl, 43, LABEL16);
  }

  /** Every byte of the volume boot record, but the three parts of it that differ between the types. */
  ghost predicate IsVbr(w: seq<byte>, p: Plan, ss: nat, md: byte, time: dword) {
    && |w| == ss >= 512
    && w[..11] == [0xEB, 0xFE, 0x90, 0x4D, 0x53, 0x44, 0x4F, 0x53, 0x35, 0x2E, 0x30]
    && LdWord(w, 11) as int == ss && w[13] as int == p.au && LdWord(w, 14) as int == p.nRsv % 0x1_0000 && w[16] == 1
    && w[21] == md && LdWord(w, 24) == 63 && LdWord(w, 26) == 255 && LdDword(w, 28) == p.bVol
    && (if p.nVol < 0x1_0000 then LdWord(w, 19) as int == p.nVol && LdDword(w, 32) == 0
        else LdWord(w, 19) == 0 && LdDword(w, 32) == p.nVol)
    && (if p.fmt == Fat32 then IsFat32Part(w, p, time) else IsFat16Part(w, p, time))
    && w[510..512] == [0x55, 0xAA] && forall j :: 512 <= j < ss ==> w[j] == 0
  }

  ghost predicate IsFat32Part(w: seq<byte>, p: Plan, time: dword)
    requires |w| >= 512
  {
    && LdWord(w, 17) == 0 && LdWord(w, 22) == 0 && LdDword(w, 36) == p.nFat && LdDword(w, 44) == 2
    && LdWord(w, 48) == 1 && LdWord(w, 50) == 6 && w[64] == 0x80 && w[66] == 0x29 && LdDword(w, 67) == time
    && w[71..90] == [0x4E, 0x4F, 0x20, 0x4E, 0x41, 0x4D, 0x45, 0x20, 0x20, 0x20, 0x20, 0x46, 0x41, 0x54, 0x33, 0x32,
                     0x20, 0x20, 0x20]
    && forall j :: 40 <= j < 44 || 52 <= j < 64 || j == 65 || 90 <= j < 510 ==> w[j] == 0
  }

  ghost predicate IsFat16Part(w: seq<byte>, p: Plan, time: dword)
    requires |w| >= 512
  {
    && LdWord(w, 17) == 512 && LdWord(w, 22) as int == p.nFat % 0x1_0000
    && w[36] == 0x80 && w[38] == 0x29 && LdDword(w, 39) == time
    && w[43..62] == [0x4E, 0x4F, 0x20, 0x4E, 0x41, 0x4D, 0x45, 0x20, 0x20, 0x20, 0x20, 0x46, 0x41, 0x54, 0x20, 0x20,
                     0x20, 0x20, 0x20]
    && forall j :: j == 37 || 62 <= j < 510 ==> w[j] == 0
  }

  lemma LoadLow(a: array<byte>, i: nat, v: dword)
    requires i + 1 < a.Length && Has16(a, i, v)
    ensures LdWord(a[..], i) as int == v % 0x1_0000
  {
    assert v % 0x1_0000 == v / 0x100 % 0x100 * 0x100 + v % 0x100;
  }

  /** The record as it is read back. */
  lemma VbrIsWhole(tbl: array<byte>, ss: nat, p: Plan, md: byte, time: dword)
    requires SectorSize(ss) && tbl.Length == ss >= 512
    requires tbl[..11] == [0xEB, 0xFE, 0x90, 0x4D, 0x53, 0x44, 0x4F, 0x53, 0x35, 0x2E, 0x30]
    requires Has16(tbl, 11, ss) && tbl[13] as int == p.au && Has16(tbl, 14, p.nRsv) && tbl[16] == 1 && tbl[21] == md
    requires Has16(tbl, 24, 63) && Has16(tbl, 26, 255) && Has32(tbl, 28, p.bVol)
    requires if p.nVol < 0x1_0000 then Has16(tbl, 19, p.nVol) && Has32(tbl, 32, 0)
             else Has16(tbl, 19, 0) && Has32(tbl, 32, p.nVol)
    requires if p.fmt == Fat32 then IsFat32Part(tbl[..], p, time) else IsFat16Part(tbl[..], p, time)
    requires Has16(tbl, 510, 0xAA55) && forall j :: 512 <= j < ss ==> tbl[j] == 0
    ensures IsVbr(tbl[..], p, ss, md, time)
  {
    hide IsFat32Part, IsFat16Part;
    Load16(tbl, 11, ss);
    LoadLow(tbl, 14, p.nRsv);
    Load16(tbl, 24, 63);
    Load16(tbl, 26, 255);
    Load32(tbl, 28, p.bVol);
    if p.nVol < 0x1_0000 {
      Load16(tbl, 19, p.nVol);
      Load32(tbl, 32, 0);
    } else {
      Load16(tbl, 19, 0);
      Load32(tbl, 32, p.nVol);
    }
    assert tbl[..][510..512] == [tbl[510], tbl[511]];
    assert tbl[..][..11] == tbl[..11];
  }

  lemma Part32IsRead(tbl: array<byte>, p: Plan, time: dword)
    requires tbl.Length >= 512 && Has16(tbl, 17, 0) && Has16(tbl, 22, 0) && Has32(tbl, 36, p.nFat) && Has32(tbl, 44, 2)
    requires Has16(tbl, 48, 1) && Has16(tbl, 50, 6) && tbl[64] == 0x80 && tbl[66] == 0x29 && Has32(tbl, 67, time)
    requires tbl[71..90] == LABEL32
    requires forall j :: 40 <= j < 44 || 52 <= j < 64 || j == 65 || 90 <= j < 510 ==> tbl[j] == 0
    ensures IsFat32Part(tbl[..], p, time)
  {
    Load16(tbl, 17, 0);
    Load16(tbl, 22, 0);
    Load32(tbl, 36, p.nFat);
    Load32(tbl, 44, 2);
    Load16(tbl, 48, 1);
    Load16(tbl, 50, 6);
    Load32(tbl, 67, time);
    hide Has16, Has32, LdWord, LdDword;
    assert tbl[..][71..90] == tbl[71..90];
  }

  lemma Part16IsRead(tbl: array<byte>, p: Plan, time: dword)
    requires tbl.Length >= 512 && Has16(tbl, 17, 512) && Has16(tbl, 22, p.nFat) && tbl[36] == 0x80 && tbl[38] == 0x29
    requires Has32(tbl, 39, time) && tbl[43..62] == LABEL16
    requires forall j :: j == 37 || 62 <= j < 510 ==> tbl[j] == 0
    ensures IsFat16Part(tbl[..], p, time)
  {
    Load16(tbl, 17, 512);
    LoadLow(tbl, 22, p.nFat);
    Load32(tbl, 39, time);
    hide Has16, Has32, LdWord, LdDword;
    assert tbl[..][43..62] == tbl[43..62];
  }

  /** Create the BPB in the volume boot record. */
  method BuildVbr(tbl: array<byte>, ss: nat, p: Plan, md: byte, time: dword)
    requires SectorSize(ss) && ClusterSize(p.au) && tbl.Length == ss
    modifies tbl
    ensures Recordable(p) ==> Kind(tbl[..]) == FatBoot && Describes(ReadBpb(tbl[..]), p, ss)
    ensures IsVbr(tbl[..], p, ss, md, time)
  {
    hide Kind, Describes, ReadBpb, IsVbr, IsFat32Part, IsFat16Part, Recordable;
    PutCommon(tbl, ss, p, md);
    if p.fmt == Fat32 {
      PutFat32(tbl, p, time);
    } else {
      PutFat16(tbl, p, time);
    }
    ghost var text := if p.fmt == Fat32 then tbl[71..90] else tbl[43..62];
    ghost var jump := tbl[..11];
    Put16(tbl, BS_55AA, SIGNATURE);
    assert tbl[..11] == jump;
    if p.fmt == Fat32 {
      assert tbl[71..90] == text;
      Part32IsRead(tbl, p, time);
    } else {
      assert tbl[43..62] == text;
      Part16IsRead(tbl, p, time);
    }
    VbrIsWhole(tbl, ss, p, md, time);
    if Recordable(p) { VbrIsRead(tbl, ss, p); }
  }

  lemma VbrIsRead(tbl: array<byte>, ss: nat, p: Plan)
    requires SectorSize(ss) && Recordable(p) && tbl.Length == ss && 512 <= ss
    requires Has16(tbl, BPB_BYTSPERSEC, ss) && tbl[BPB_SECPERCLUS] as int == p.au && Has16(tbl, BPB_RSVDSECCNT, p.nRsv)
    requires tbl[BPB_NUMFATS] == 1 && Has16(tbl, BPB_ROOTENTCNT, RootEntries(p.fmt))
    requires if p.nVol < 0x1_0000 then Has16(tbl, BPB_TOTSEC16, p.nVol)
             else Has16(tbl, BPB_TOTSEC16, 0) && Has32(tbl, BPB_TOTSEC32, p.nVol)
    requires if p.fmt == Fat32
             then Has16(tbl, BPB_FATSZ16, 0) && Has32(tbl, BPB_FATSZ32, p.nFat) && Has32(tbl, BPB_ROOTCLUS, 2)
                  && Has16(tbl, BPB_FSINFO, 1)
             else Has16(tbl, BPB_FATSZ16, p.nFat)
    requires var at := if p.fmt == Fat32 then BS_FILSYSTYPE32 else BS_FILSYSTYPE;
             tbl[at] == 0x46 && tbl[at + 1] == 0x41 && tbl[at + 2] == 0x54
    requires Has16(tbl, BS_55AA, SIGNATURE)
    ensures Kind(tbl[..]) == FatBoot && Describes(ReadBpb(tbl[..]), p, ss)
  {
    hide LdWord, LdDword, Has16, Has32, NeededFat, SMul, CDiv, EDiv, SubType;
    UnitIsByte(p, ss);
    Load16(tbl, BPB_BYTSPERSEC, ss);
    Load16(tbl, BPB_RSVDSECCNT, p.nRsv);
    Load16(tbl, BPB_ROOTENTCNT, RootEntries(p.fmt));
    if p.nVol < 0x1_0000 {
      Load16(tbl, BPB_TOTSEC16, p.nVol);
    } else {
      Load16(tbl, BPB_TOTSEC16, 0);
      Load32(tbl, BPB_TOTSEC32, p.nVol);
    }
    if p.fmt == Fat32 {
      Load16(tbl, BPB_FATSZ16, 0);
      Load32(tbl, BPB_FATSZ32, p.nFat);
      Load32(tbl, BPB_ROOTCLUS, 2);
      Load16(tbl, BPB_FSINFO, 1);
    } else {
      Load16(tbl, BPB_FATSZ16, p.nFat);
    }
    Load16(tbl, BS_55AA, SIGNATURE);
  }

  // ---------- the partition table ----------

  /** The end sector field for end cylinder n: its upper bits, or-ed with sector 63. */
  lemma EndSectorIs(n: nat)
    ensures EndSector(n) % 64 == 63 && EndSector(n) as nat / 64 == n / 0x100 % 4
  {
    var q := n / 0x100;
    UpperBits(n);
    LowByte(q);
    assert EndSector(n) as nat == 64 * (q % 4) + 63;
  }

  lemma UpperBits(n: nat)
    ensures n / 4 - n / 4 % 64 == 64 * (n / 0x100)
  {
  }

  lemma LowByte(q: nat)
    ensures (64 * q + 63) % 0x100 == 64 * (q % 4) + 63
  {
    assert 64 * q + 63 == 0x100 * (q / 4) + (64 * (q % 4) + 63);
  }

  function EndSector(n: nat): byte {
    (n / 4 - n / 4 % 64 + 63) % 0x100
  }

  /** Store the cylinder, head and sector fields and the system type of the first partition. */
  method PutPlace(tbl: array<byte>, sys: byte, n: nat)
    requires tbl.Length >= 512
    modifies tbl
    ensures tbl[MBR_TABLE + 1..MBR_TABLE + 8] == [1, 1, 0, sys, 254, EndSector(n), n % 0x100]
    ensures forall j :: 0 <= j < tbl.Length && !(MBR_TABLE < j < MBR_TABLE + 8) ==> tbl[j] == old(tbl[j])
  {
    Put8(tbl, MBR_TABLE + 1, 1);
    Put8(tbl, MBR_TABLE + 2, 1);
    Put8(tbl, MBR_TABLE + 3, 0);
    Put8(tbl, MBR_TABLE + 4, sys);
    Put8(tbl, MBR_TABLE + 5, 254);
    Put8(tbl, MBR_TABLE + 6, EndSector(n));
    Put8(tbl, MBR_TABLE + 7, n % 0x100);
  }

  /** Create a partition table for a single partition: it starts at sector 63 and has the size of the volume. */
  method BuildMbr(tbl: array<byte>, p: Plan, sys: byte)
    requires tbl.Length >= 512 && sys != 0
    modifies tbl
    ensures Kind(tbl[..]) == OtherBoot && Partition(tbl[..], 0) == 63 && tbl[MBR_TABLE + 4] == sys
    ensures forall i :: 1 <= i < 4 ==> Partition(tbl[..], i) == 0
    ensures var n := (p.bVol as nat + p.nVol) % 0x1_0000_0000 / 63 / 255;
            tbl[446..454] == [0, 1, 1, 0, sys, 254, EndSector(n), n % 0x100]
    ensures LdDword(tbl[..], 454) == 63 && LdDword(tbl[..], 458) == p.nVol && tbl[510] == 0x55 && tbl[511] == 0xAA
    ensures forall j :: 0 <= j < tbl.Length && !(446 <= j < 462) && j != 510 && j != 511 ==> tbl[j] == 0
  {
    hide Kind, Partition, LdDword, LdWord, Has32, EndSector;
    MemSet(tbl, 0, tbl.Length);
    PutPlace(tbl, sys, Wrap(p.bVol + p.nVol) / 63 / 255);
    ghost var place := tbl[MBR_TABLE..MBR_TABLE + 8];
    assert place == [tbl[MBR_TABLE]] + tbl[MBR_TABLE + 1..MBR_TABLE + 8];
    PutSizes(tbl, p.nVol);
    assert tbl[MBR_TABLE..MBR_TABLE + 8] == place;
    MbrIsRead(tbl, p.nVol);
  }

  /** Start and size of the partition, and the signature. */
  method PutSizes(tbl: array<byte>, nVol: dword)
    requires tbl.Length >= 512
    modifies tbl
    ensures Has32(tbl, MBR_TABLE + 8, 63) && Has32(tbl, MBR_TABLE + 12, nVol) && Has16(tbl, BS_55AA, SIGNATURE)
    ensures forall j ::
      0 <= j < tbl.Length && !(MBR_TABLE + 8 <= j < MBR_TABLE + 16) && !(BS_55AA <= j < BS_55AA + 2) ==>
      tbl[j] == old(tbl[j])
  {
    Put32(tbl, MBR_TABLE + 8, 63);
    Put32(tbl, MBR_TABLE + 12, nVol);
    Put16(tbl, BS_55AA, SIGNATURE);
  }

  /** What is read from a partition table with one entry. */
  lemma MbrIsRead(tbl: array<byte>, nVol: dword)
    requires tbl.Length >= 512 && tbl[MBR_TABLE + 4] != 0
    requires Has32(tbl, MBR_TABLE + 8, 63) && Has32(tbl, MBR_TABLE + 12, nVol) && Has16(tbl, BS_55AA, SIGNATURE)
    requires tbl[BS_FILSYSTYPE] == 0 && tbl[BS_FILSYSTYPE32] == 0
    requires forall i :: 1 <= i < 4 ==> tbl[MBR_TABLE + i * SZ_PTE + 4] == 0
    ensures Kind(tbl[..]) == OtherBoot && Partition(tbl[..], 0) == 63 && LdDword(tbl[..], 454) == 63
    ensures LdDword(tbl[..], 458) == nVol && forall i :: 1 <= i < 4 ==> Partition(tbl[..], i) == 0
  {
    hide Has32, Has16, LdDword, LdWord;
    Load16(tbl, BS_55AA, SIGNATURE);
    Load32(tbl, MBR_TABLE + 8, 63);
    Load32(tbl, MBR_TABLE + 12, nVol);
  }

  // ---------- sectors ----------

  /** Write the buffer to cnt consecutive sectors. */
  method FillSectors(drive: Drive, tbl: array<byte>, sect: dword, cnt: dword) returns (ok: bool, next: dword)
    requires drive.Valid() && tbl.Length == drive.ss
    modifies drive
    ensures drive.Valid() && |drive.sectors| == |old(drive.sectors)|
    ensures ok ==> next == sect + cnt && (cnt > 0 ==> sect + cnt <= |drive.sectors|)
    ensures ok ==> forall s :: 0 <= s < |drive.sectors| ==>
      drive.sectors[s] == if sect <= s < sect + cnt then tbl[..] else old(drive.sectors)[s]
    ensures drive.reliable && sect + cnt <= |drive.sectors| ==> ok
  {
    ok, next := true, sect;
    var n: dword := 0;
    while n < cnt
      invariant n <= cnt && drive.Valid() && |drive.sectors| == |old(drive.sectors)| && ok
      invariant next == sect + n && (n > 0 ==> sect + n <= |drive.sectors|)
      invariant forall s :: 0 <= s < |drive.sectors| ==>
        drive.sectors[s] == if sect <= s < sect + n then tbl[..] else old(drive.sectors)[s]
    {
      ok := drive.WriteSector(tbl, next);
      if !ok { return; }
      next := next + 1;
      n := n + 1;
    }
  }

  /** The number stored at the start of the FAT: media byte and reserved entries. */
  function Reserved(fmt: FatType, md: byte): dword {
    if fmt == Fat12 then 0x00FF_FF00 + md as int else 0xFFFF_FF00 + md as int
  }

  /** First sector of a fresh FAT. */
  predicate IsFirst(w: Sector, fmt: FatType, md: byte) {
    && |w| >= 512 && LdDword(w, 0) == Reserved(fmt, md)
    && (fmt == Fat32 ==> LdDword(w, 4) == 0xFFFF_FFFF && LdDword(w, 8) == LAST_LINK)
    && forall j :: (if fmt == Fat32 then 12 else 4) <= j < |w| ==> w[j] == 0
  }

  /** The entries 0 and 1 with the media byte, and on FAT32 the end mark of the root directory in entry 2. */
  lemma FirstInBytes(w: Sector, fmt: FatType, md: byte)
    requires |w| >= 512
    ensures IsFirst(w, fmt, md) <==>
      && w[..4] == [md, 0xFF, 0xFF, if fmt == Fat12 then 0 else 0xFF]
      && (fmt == Fat32 ==> w[4..12] == [0xFF, 0xFF, 0xFF, 0xFF, 0xFF, 0xFF, 0xFF, 0x0F])
      && forall j :: (if fmt == Fat32 then 12 else 4) <= j < |w| ==> w[j] == 0
  {
    assert w[..4] == [w[0], w[1], w[2], w[3]];
    assert w[4..12] == [w[4], w[5], w[6], w[7], w[8], w[9], w[10], w[11]];
  }

  method BuildFirst(tbl: array<byte>, fmt: FatType, md: byte)
    requires tbl.Length >= 512
    modifies tbl
    ensures IsFirst(tbl[..], fmt, md)
  {
    MemSet(tbl, 0, tbl.Length);
    Put32(tbl, 0, Reserved(fmt, md));
    if fmt == Fat32 {
      Put32(tbl, 4, 0xFFFF_FFFF);
      Put32(tbl, 8, LAST_LINK);
      Load32(tbl, 4, 0xFFFF_FFFF);
      Load32(tbl, 8, LAST_LINK);
    }
    Load32(tbl, 0, Reserved(fmt, md));
  }

  /** Initialize FAT and root directory. */
  method WriteFat(drive: Drive, tbl: array<byte>, p: Plan, bFat: dword, md: byte) returns (ok: bool)
    requires drive.Valid() && tbl.Length == drive.ss && ClusterSize(p.au)
    modifies drive, tbl
    ensures drive.Valid() && |drive.sectors| == |old(drive.sectors)|
    ensures ok ==> forall j :: 0 <= j < tbl.Length ==> tbl[j] == 0
    ensures var cnt := p.nFat + if p.fmt == Fat32 then p.au else p.nDir;
      && (ok && 1 <= p.nFat && 1 <= p.nDir + p.au ==>
           FatWritten(old(drive.sectors), drive.sectors, drive.ss, p, bFat, cnt, md))
      && (drive.reliable && 1 <= p.nFat && bFat + cnt <= |drive.sectors| ==> ok)
  {
    hide IsFirst;
    BuildFirst(tbl, p.fmt, md);
    ghost var first, d0 := tbl[..], drive.sectors;
    ok := drive.WriteSector(tbl, bFat);
    if !ok { return; }
    ghost var d1 := drive.sectors;
    MemSet(tbl, 0, tbl.Length);
    assert tbl[..] == Blank(drive.ss);
    var wsect: dword;
    ok, wsect := FillSectors(drive, tbl, Inc32(bFat), if p.nFat > 0 then p.nFat - 1 else 0);
    if !ok { return; }
    ok, wsect := FillSectors(drive, tbl, wsect, if p.fmt == Fat32 then p.au else p.nDir);
  }

  /** A fresh FAT and a blank root directory, cnt sectors from bFat on; everything else as before. */
  ghost predicate FatWritten(d: Medium, e: Medium, ss: nat, p: Plan, bFat: int, cnt: int, md: byte) {
    && |e| == |d| && 0 <= bFat && 0 < cnt && bFat + cnt <= |e| && IsFirst(e[bFat], p.fmt, md)
    && (forall s :: bFat < s < bFat + cnt ==> e[s] == Blank(ss))
    && (forall s :: 0 <= s < |e| && !(bFat <= s < bFat + cnt) ==> e[s] == d[s])
  }

  // ---------- the fresh table ----------

  /** The value of entry c of a fresh FAT. */
  function FreshEntry(fmt: FatType, c: nat): nat
    requires c >= 2
  {
    if fmt == Fat32 && c == 2 then LAST_LINK else 0
  }

  /** The chains of a fresh volume: only the root directory of FAT32 has one. */
  function FreshChains(fmt: FatType): set<Chain> {
    if fmt == Fat32 then {[2]} else {}
  }

  /** The bytes of a fresh FAT. */
  ghost predicate FreshBytes(b: seq<byte>, fmt: FatType, md: byte) {
    && |b| >= 512 && LdDword(b, 0) == Reserved(fmt, md)
    && (fmt == Fat32 ==> LdDword(b, 4) == 0xFFFF_FFFF && LdDword(b, 8) == LAST_LINK)
    && forall j :: (if fmt == Fat32 then 12 else 4) <= j < |b| ==> b[j] == 0
  }

  lemma FirstSector(d: Medium, g: Geometry, md: byte)
    requires MediumOk(d, g) && IsFirst(d[g.fatbase], g.fsType, md)
    requires 1 <= g.fsize && forall s :: g.fatbase < s < g.fatbase + g.fsize ==> d[s] == Blank(g.ss)
    ensures FreshBytes(FatBytes(d, g), g.fsType, md)
  {
    TableRegion(d, g);
    hide Geometry.WellFormed, MediumOk, FatBytes, IsFirst;
    var b, w := FatBytes(d, g), d[g.fatbase];
    FirstRange(d, g);
    forall o | 0 <= o < |b| ensures b[o] == if o < g.ss then w[o] else 0 { FirstByte(d, g, o); }
    FirstFills(b, w, g.fsType, md);
  }

  lemma FirstRange(d: Medium, g: Geometry)
    requires MediumOk(d, g) && 1 <= g.fsize
    ensures g.fatbase < |d| && |d[g.fatbase]| == g.ss <= |FatBytes(d, g)|
  {
    TableRegion(d, g);
    hide Geometry.WellFormed, MediumOk;
    RunFits(0, g.fsize, g.ss);
  }

  lemma FirstByte(d: Medium, g: Geometry, o: nat)
    requires MediumOk(d, g) && o < |FatBytes(d, g)| && g.fatbase < |d| && |d[g.fatbase]| == g.ss
    requires forall s :: g.fatbase < s < g.fatbase + g.fsize ==> s < |d| && d[s] == Blank(g.ss)
    ensures FatBytes(d, g)[o] == if o < g.ss then d[g.fatbase][o] else 0
  {
    TableRegion(d, g);
    hide Geometry.WellFormed, MediumOk;
    RunByte(o, g.fsize, g.ss);
    if SDiv(o, g.ss) > 0 {
      assert d[g.fatbase + SDiv(o, g.ss)] == Blank(g.ss);
    }
  }

  /** A first sector with nothing behind it. */
  lemma FirstFills(b: seq<byte>, w: Sector, fmt: FatType, md: byte)
    requires IsFirst(w, fmt, md) && |w| <= |b| && forall o :: 0 <= o < |b| ==> b[o] == if o < |w| then w[o] else 0
    ensures FreshBytes(b, fmt, md)
  {
  }

  /** What the bytes of a fresh FAT say of each entry. */
  lemma FreshRead(b: seq<byte>, fmt: FatType, md: byte, c: nat)
    requires FreshBytes(b, fmt, md) && PackedTable.Fits(fmt, b, c)
    ensures c >= 2 ==> Entry(fmt, b, c) == FreshEntry(fmt, c)
    ensures c < 2 ==> Entry(fmt, b, c) != 0
  {
    LowBytes(b, Reserved(fmt, md));
  }

  lemma LowBytes(b: seq<byte>, v: dword)
    requires |b| >= 4 && LdDword(b, 0) == v
    ensures b[3] as int == v / 0x100_0000 && b[2] as int == v / 0x1_0000 % 0x100
    ensures b[1] as int == v / 0x100 % 0x100 && b[0] as int == v % 0x100
  {
    FourBytes(v);
  }

  /** A table whose clusters are all free, the root directory of FAT32 apart. */
  ghost predicate FreshTable(t: Table, g: Geometry) {
    && |t| == g.nFatent && g.nFatent >= 3 && t[0] != 0 && t[1] != 0
    && forall c :: 2 <= c < |t| ==> t[c] == FreshEntry(g.fsType, c)
  }

  lemma FreshIsTable(d: Medium, g: Geometry, md: byte)
    requires MediumOk(d, g) && IsFirst(d[g.fatbase], g.fsType, md)
    requires 1 <= g.fsize && forall s :: g.fatbase < s < g.fatbase + g.fsize ==> d[s] == Blank(g.ss)
    ensures FreshTable(TableOf(d, g), g)
  {
    hide Geometry.WellFormed, IsFirst, FreshBytes, PackedTable.Entry, PackedTable.Fits;
    FirstSector(d, g, md);
    FatTable.EntriesFit(d, g);
    Three(d, g);
    var b := FatBytes(d, g);
    FreshRead(b, g.fsType, md, 0);
    FreshRead(b, g.fsType, md, 1);
    forall c | 2 <= c < g.nFatent ensures TableOf(d, g)[c] == FreshEntry(g.fsType, c) {
      FreshRead(b, g.fsType, md, c);
    }
  }

  lemma Three(d: Medium, g: Geometry)
    requires MediumOk(d, g)
    ensures g.nFatent >= 3
  {
  }

  /** A fresh table is a forest: one chain of one cluster on FAT32, none else. */
  lemma FreshIsForest(t: Table, g: Geometry)
    requires FreshTable(t, g) && g.nFatent <= LAST_LINK
    ensures Forest(t, FreshChains(g.fsType))
  {
    if g.fsType == Fat32 {
      assert t[2] == LAST_LINK;
      assert IsChain(t, [2]);
      assert 2 in [2];
    }
  }

  /** All clusters of a fresh volume are free, one fewer on FAT32. */
  lemma FreshCount(t: Table, g: Geometry)
    requires FreshTable(t, g)
    ensures FreeCount(t) == g.nFatent - 2 - if g.fsType == Fat32 then 1 else 0
  {
    var all := Clusters(|t|);
    if g.fsType == Fat32 {
      assert FreeSet(t) == all - {2};
      assert 2 in all;
    } else {
      assert FreeSet(t) == all;
    }
  }

  // ---------- f_mkfs ----------

  /** The sectors that make a medium the volume of a plan. */
  ghost predicate Formatted(d: Medium, p: Plan, ss: nat, sfd: bool, md: byte)
    requires SectorSize(ss) && Sound(p, ss)
  {
    && |d| <= 0xFFFF_FFFF && p.bVol + p.nVol <= |d| && (forall s :: 0 <= s < |d| ==> |d[s]| == ss)
    && p.bVol == (if sfd then 0 else 63)
    && (sfd || IsMbr(d[0], p))
    && Kind(d[p.bVol]) == FatBoot && Describes(ReadBpb(d[p.bVol]), p, ss)
    && IsFirst(d[p.bVol + p.nRsv], p.fmt, md)
    && forall s :: p.bVol + p.nRsv < s < p.bVol + p.nRsv + p.nFat + (if p.fmt == Fat32 then p.au else p.nDir) ==>
         s < |d| ==> d[s] == Blank(ss)
  }

  /** The volume that was made is the volume that is mounted: same type, same areas, n_clst + 2 entries, a FAT that
      is large enough and holds a fresh table. */
  lemma FormatThenMount(d: Medium, p: Plan, ss: nat, sfd: bool, md: byte)
    requires SectorSize(ss) && Sound(p, ss) && Formatted(d, p, ss, sfd, md)
    ensures Readable(d, ss) && Mount(d, ss).Done? && Mount(d, ss).m.g == GeometryOf(p, ss)
    ensures var g := GeometryOf(p, ss);
            && MediumOk(d, g) && FreshTable(TableOf(d, g), g)
            && g.fsType == p.fmt && g.nFatent == p.nClst + 2
  {
    hide Sound, Kind, ReadBpb, Describes, Analyse, IsFirst, FreshTable, TableOf, Geometry.WellFormed;
    PlanNumbers(p, ss);
    PlanIsMounted(ReadBpb(d[p.bVol]), p, ss);
    var g := GeometryOf(p, ss);
    assert VolumeOf(d, ss) == At(p.bVol);
    GeometryNumbers(p, ss);
    FreshIsTable(d, g, md);
  }

  lemma PlanNumbers(p: Plan, ss: nat)
    requires SectorSize(ss) && Sound(p, ss)
    ensures ClusterSize(p.au) && 1 <= p.nFat && 1 <= p.nRsv && 0 < p.au
    ensures p.nRsv + p.nFat + p.nDir + p.au <= p.nVol && p.bVol + p.nVol <= 0xFFFF_FFFF
    ensures p.fmt == Fat32 ==> p.nRsv >= 32 && p.nDir == 0
    ensures p.fmt != Fat32 ==> 1 <= p.nDir
  {
    RootFits(ss);
  }

  lemma GeometryNumbers(p: Plan, ss: nat)
    requires SectorSize(ss) && Sound(p, ss)
    ensures var g := GeometryOf(p, ss);
            && g.fatbase == p.bVol + p.nRsv && g.fsize == p.nFat && g.fsType == p.fmt && g.ss == ss
            && g.nFatent == p.nClst + 2 <= LAST_LINK && g.csize == p.au
  {
  }

  /** The system id in the partition table. */
  function SystemId(fmt: FatType, nVol: dword): byte {
    if fmt == Fat32 then 0x0C
    else if fmt == Fat12 && nVol < 0x1_0000 then 0x01
    else if nVol < 0x1_0000 then 0x04
    else 0x06
  }

  /** Sector 0 is a partition table with the volume as its only partition. */
  ghost predicate IsMbr(w: seq<byte>, p: Plan) {
    && |w| >= 512 && Kind(w) == OtherBoot && Partition(w, 0) == 63 && (forall i :: 1 <= i < 4 ==> Partition(w, i) == 0)
    && w[446..450] == [0, 1, 1, 0] && w[451] == 254 && LdDword(w, 454) == 63 && LdDword(w, 458) == p.nVol
    && w[450] == (if p.fmt == Fat32 then 0x0C
                  else if p.nVol < 0x1_0000 then (if p.fmt == Fat12 then 0x01 else 0x04)
                  else 0x06)
    && (var n := (p.bVol as nat + p.nVol) % 0x1_0000_0000 / 63 / 255;
        w[452] % 64 == 63 && w[452] as nat / 64 == n / 0x100 % 4 && w[453] as nat == n % 0x100)
    && w[510] == 0x55 && w[511] == 0xAA
    && forall j :: 0 <= j < |w| && !(446 <= j < 462) && j != 510 && j != 511 ==> w[j] == 0
  }

  lemma MbrIsWhole(tbl: array<byte>, p: Plan)
    requires tbl.Length >= 512
    requires Kind(tbl[..]) == OtherBoot && Partition(tbl[..], 0) == 63
    requires forall i :: 1 <= i < 4 ==> Partition(tbl[..], i) == 0
    requires var n := (p.bVol as nat + p.nVol) % 0x1_0000_0000 / 63 / 255;
             tbl[446..454] == [0, 1, 1, 0, SystemId(p.fmt, p.nVol), 254, EndSector(n), n % 0x100]
    requires LdDword(tbl[..], 454) == 63 && LdDword(tbl[..], 458) == p.nVol && tbl[510] == 0x55 && tbl[511] == 0xAA
    requires forall j :: 0 <= j < tbl.Length && !(446 <= j < 462) && j != 510 && j != 511 ==> tbl[j] == 0
    ensures IsMbr(tbl[..], p)
  {
    hide Kind, Partition, LdDword, EndSector;
    EndSectorIs((p.bVol as nat + p.nVol) % 0x1_0000_0000 / 63 / 255);
    var w := tbl[446..454];
    assert w[0] == tbl[446] && w[1] == tbl[447] && w[2] == tbl[448] && w[3] == tbl[449] && w[4] == tbl[450]
           && w[5] == tbl[451] && w[6] == tbl[452] && w[7] == tbl[453];
    assert tbl[..][446..450] == [tbl[446], tbl[447], tbl[448], tbl[449]];
  }

  /** Write the partition table, if wanted, and the volume boot record with its backup. */
  method WriteBoot(drive: Drive, tbl: array<byte>, p: Plan, sfd: bool, time: dword) returns (ok: bool, md: byte)
    requires drive.Valid() && tbl.Length == drive.ss && ClusterSize(p.au) && p.bVol == (if sfd then 0 else 63)
    modifies drive, tbl
    ensures drive.Valid() && |drive.sectors| == |old(drive.sectors)|
    ensures ok && Recordable(p) ==>
      && p.bVol < |drive.sectors| && (sfd || IsMbr(drive.sectors[0], p))
      && Kind(drive.sectors[p.bVol]) == FatBoot && Describes(ReadBpb(drive.sectors[p.bVol]), p, drive.ss)
    ensures md == if sfd then 0xF0 else 0xF8
    ensures ok ==> p.bVol < |drive.sectors| && IsVbr(drive.sectors[p.bVol], p, drive.ss, md, time)
    ensures ok && drive.reliable && p.fmt == Fat32 && p.bVol + 6 < |drive.sectors| ==>
      drive.sectors[p.bVol + 6] == drive.sectors[p.bVol]
    ensures drive.reliable && p.bVol < |drive.sectors| ==> ok
  {
    hide Kind, ReadBpb, Describes, Partition, LdDword, IsVbr, IsMbr, EndSector;
    ok := true;
    if sfd {
      md := 0xF0;
    } else {
      BuildMbr(tbl, p, SystemId(p.fmt, p.nVol));
      MbrIsWhole(tbl, p);
      ok := drive.WriteSector(tbl, 0);
      md := 0xF8;
      if !ok { return; }
    }
    BuildVbr(tbl, drive.ss, p, md, time);
    ok := drive.WriteSector(tbl, p.bVol);
    if !ok { return; }
    if p.fmt == Fat32 {
      var _ := drive.WriteSector(tbl, Wrap(p.bVol + 6));
      SixBehind(p.bVol);
    }
  }

  lemma SixBehind(v: dword)
    requires v <= 63
    ensures Wrap(v + 6) == v + 6 && Wrap(v + 1) == v + 1 && Wrap(v + 7) == v + 7
  {
  }

  /** The contents of the FSINFO sector. */
  method FillInfo(tbl: array<byte>, free: dword)
    requires tbl.Length >= 512
    modifies tbl
    ensures FsInfoValid(tbl[..]) && LdDword(tbl[..], 488) == free && LdDword(tbl[..], 492) == 2
  {
    hide FsInfoValid, LdDword, LdWord;
    Put32(tbl, FSI_LEADSIG, 0x41615252);
    Put32(tbl, FSI_STRUCSIG, 0x61417272);
    Put32(tbl, FSI_FREE_COUNT, free);
    Put32(tbl, FSI_NXT_FREE, 2);
    Put16(tbl, BS_55AA, SIGNATURE);
    InfoIsRead(tbl, free);
  }

  /** Write the FSINFO sector and its backup; their write errors are ignored. */
  method WriteFsInfo(drive: Drive, tbl: array<byte>, p: Plan)
    requires drive.Valid() && tbl.Length == drive.ss && 512 <= drive.ss && p.bVol <= 63
    requires forall j :: 0 <= j < tbl.Length ==> tbl[j] == 0
    modifies drive, tbl
    ensures drive.Valid() && |drive.sectors| == |old(drive.sectors)|
    ensures forall s :: 0 <= s < |drive.sectors| && s != p.bVol + 1 && s != p.bVol + 7 ==>
      drive.sectors[s] == old(drive.sectors)[s]
    ensures drive.reliable && p.bVol + 1 < |drive.sectors| ==>
      var w := drive.sectors[p.bVol + 1];
      && |w| >= 512 && FsInfoValid(w) && LdDword(w, 488) == Dec32(p.nClst) && LdDword(w, 492) == 2
    ensures drive.reliable && p.bVol + 7 < |drive.sectors| ==> drive.sectors[p.bVol + 7] == drive.sectors[p.bVol + 1]
  {
    hide FsInfoValid, LdDword, Dec32;
    FillInfo(tbl, Dec32(p.nClst));
    SixBehind(p.bVol);
    var _ := drive.WriteSector(tbl, Wrap(p.bVol + 1));
    var _ := drive.WriteSector(tbl, Wrap(p.bVol + 7));
  }

  lemma InfoIsRead(tbl: array<byte>, free: dword)
    requires tbl.Length >= 512 && Has32(tbl, FSI_LEADSIG, 0x41615252) && Has32(tbl, FSI_STRUCSIG, 0x61417272)
    requires Has32(tbl, FSI_FREE_COUNT, free) && Has32(tbl, FSI_NXT_FREE, 2) && Has16(tbl, BS_55AA, SIGNATURE)
    ensures FsInfoValid(tbl[..]) && LdDword(tbl[..], 488) == free && LdDword(tbl[..], 492) == 2
  {
    hide Has32, Has16;
    Load32(tbl, FSI_LEADSIG, 0x41615252);
    Load32(tbl, FSI_STRUCSIG, 0x61417272);
    Load32(tbl, FSI_FREE_COUNT, free);
    Load32(tbl, FSI_NXT_FREE, 2);
    Load16(tbl, BS_55AA, SIGNATURE);
  }

  /** Every sector that f_mkfs has to write lies on the disk. */
  predicate WritesFit(p: Plan, nDisk: nat) {
    AreaEnd(p) + (if p.fmt == Fat32 then p.au else 0) <= nDisk
  }

  /** The medium holds the volume of the plan: it is mounted as planned, with a table in good order and all its clusters
      free, one fewer on FAT32. */
  ghost predicate Made(d: Medium, p: Plan, ss: nat) {
    && SectorSize(ss) && Sound(p, ss) && Readable(d, ss)
    && var g := GeometryOf(p, ss);
    && Mount(d, ss).Done? && Mount(d, ss).m.g == g && MediumOk(d, g)
    && Forest(TableOf(d, g), FreshChains(g.fsType))
    && FreeCount(TableOf(d, g)) == p.nClst - (if g.fsType == Fat32 then 1 else 0)
  }

  /** What is known of the medium after all writes: the boot sector is recognised and describes the plan, with every
      byte as it should be. */
  ghost predicate Booted(d: Medium, p: Plan, ss: nat, sfd: bool, time: dword) {
    && 0 < |d| && p.bVol < |d| && (forall s :: 0 <= s < |d| ==> |d[s]| == ss) && 512 <= ss && (sfd || IsMbr(d[0], p))
    && Kind(d[p.bVol]) == FatBoot && Describes(ReadBpb(d[p.bVol]), p, ss)
    && IsVbr(d[p.bVol], p, ss, if sfd then 0xF0 else 0xF8, time)
  }

  /** FSINFO holds the hints, and the backups of boot sector and FSINFO are there. */
  predicate InfoPut(d: Medium, p: Plan) {
    && p.bVol + 7 < |d| && |d[p.bVol + 1]| >= 512 && FsInfoValid(d[p.bVol + 1])
    && LdDword(d[p.bVol + 1], 488) == Dec32(p.nClst) && LdDword(d[p.bVol + 1], 492) == 2
    && d[p.bVol + 6] == d[p.bVol] && d[p.bVol + 7] == d[p.bVol + 1]
  }

  /** The areas of a layout have sizes that the writes can be told. */
  predicate Placeable(p: Plan) {
    Recordable(p) && 1 <= p.nFat && p.bVol + p.nRsv <= 0xFFFF_FFFF && (p.fmt == Fat32 ==> p.nDir == 0)
  }

  /** Boot sector and partition table stay where they have been written. */
  lemma BootStays(d1: Medium, d2: Medium, d3: Medium, p: Plan, ss: nat, sfd: bool, md: byte, time: dword)
    requires Placeable(p) && SectorSize(ss) && 512 <= ss && p.bVol == (if sfd then 0 else 63)
    requires p.bVol + p.nVol == |d1| && |d3| == |d2| && (forall s :: 0 <= s < |d3| ==> |d3[s]| == ss)
    requires 0 < |d1| && p.bVol < |d1| && (sfd || IsMbr(d1[0], p)) && |d1[p.bVol]| >= 512
    requires Kind(d1[p.bVol]) == FatBoot && Describes(ReadBpb(d1[p.bVol]), p, ss)
    requires md == (if sfd then 0xF0 else 0xF8) && IsVbr(d1[p.bVol], p, ss, md, time)
    requires var cnt := p.nFat + if p.fmt == Fat32 then p.au else p.nDir;
             FatWritten(d1, d2, ss, p, Wrap(p.bVol + p.nRsv), cnt, md)
    requires forall s :: 0 <= s < |d2| && d3[s] != d2[s] ==> p.fmt == Fat32 && (s == p.bVol + 1 || s == p.bVol + 7)
    ensures WritesFit(p, |d3|) && Booted(d3, p, ss, sfd, time)
  {
    hide Kind, ReadBpb, Describes, Partition, IsFirst, IsMbr, IsVbr;
    SmallWrap(p.bVol + p.nRsv);
    assert d2[0] == d1[0] && d2[p.bVol] == d1[p.bVol];
    assert d3[0] == d2[0] && d3[p.bVol] == d2[p.bVol];
  }

  /** All writes of f_mkfs, for a layout that has been decided on. */
  method WriteVolume(drive: Drive, tbl: array<byte>, p: Plan, sfd: bool, time: dword)
    returns (ok: bool, md: byte)
    requires drive.Valid() && tbl.Length == drive.ss && ClusterSize(p.au) && p.bVol == (if sfd then 0 else 63)
    requires p.bVol + p.nVol == |drive.sectors|
    modifies drive, tbl
    ensures drive.Valid() && |drive.sectors| == |old(drive.sectors)|
    ensures Placeable(p) ==>
      && (ok ==> WritesFit(p, |drive.sectors|) && Booted(drive.sectors, p, drive.ss, sfd, time))
      && (drive.reliable && WritesFit(p, |drive.sectors|) ==> ok)
    ensures ok && Recordable(p) && Sound(p, drive.ss) ==> Formatted(drive.sectors, p, drive.ss, sfd, md)
    ensures ok && drive.reliable && Recordable(p) && Sound(p, drive.ss) && p.fmt == Fat32 ==> InfoPut(drive.sectors, p)
  {
    hide Sound, Kind, ReadBpb, Describes, Partition, IsFirst, FsInfoValid, LdDword, Formatted, IsMbr, IsVbr, Dec32,
      Booted;
    ok, md := WriteBoot(drive, tbl, p, sfd, time);
    if !ok { return; }
    ghost var d1 := drive.sectors;
    ok := WriteFat(drive, tbl, p, Wrap(p.bVol + p.nRsv), md);
    if p.bVol + p.nRsv <= 0xFFFF_FFFF { SmallWrap(p.bVol + p.nRsv); }
    if !ok { return; }
    ghost var d2 := drive.sectors;
    if p.fmt == Fat32 { WriteFsInfo(drive, tbl, p); }
    if Placeable(p) { BootStays(d1, d2, drive.sectors, p, drive.ss, sfd, md, time); }
    if Recordable(p) && Sound(p, drive.ss) {
      PlanNumbers(p, drive.ss);
      MakesVolume(d1, d2, drive.sectors, p, drive.ss, sfd, md);
    }
  }

  /** Create a volume on a drive.  A mount finds the planned volume if the aligned data area has room for a cluster on
      the disk, and no volume at all otherwise. */
  method FMkfs(drive: Drive, tbl: array<byte>, minSs: nat, sfd: bool, request: dword, block: dword, time: dword)
    returns (res: FResult, p: Plan)
    requires drive.Valid() && tbl.Length == drive.ss && SectorSize(minSs) && minSs <= drive.ss
    modifies drive, tbl
    ensures drive.Valid() && |drive.sectors| == |old(drive.sectors)|
    ensures var j := Job(drive.ss, minSs, |drive.sectors|, sfd, request, block);
      && p == PlanOf(j).1 && (PlanOf(j).0 != FrOk ==> res == PlanOf(j).0 && drive.sectors == old(drive.sectors))
      && (PlanOf(j).0 == FrOk && j.Small28() && drive.reliable ==>
            res == if WritesFit(p, |drive.sectors|) then FrOk else FrDiskErr)
      && (PlanOf(j).0 == FrOk && j.Small28() && res == FrOk ==>
            if j.HasRoom() then Made(drive.sectors, p, drive.ss)
            else Readable(drive.sectors, drive.ss) && Mount(drive.sectors, drive.ss) == Failed(FrNoFilesystem))
      && (PlanOf(j).0 == FrOk && j.Small28() && res == FrOk ==> Booted(drive.sectors, p, drive.ss, sfd, time))
      && (PlanOf(j).0 == FrOk && j.Small28() && res == FrOk && j.HasRoom() && drive.reliable && p.fmt == Fat32 ==>
            && HintsMounted(drive.sectors, p, drive.ss)
            && drive.sectors[p.bVol + 6] == drive.sectors[p.bVol]
            && drive.sectors[p.bVol + 7] == drive.sectors[p.bVol + 1])
  {
    hide Readable, Sound, Kind, ReadBpb, Describes, Partition, IsFirst, FsInfoValid, LdDword, GeometryOf, FreshTable,
      IsVbr, TableOf, Geometry.WellFormed, Mount, Formatted, FreeCount, Forest, MediumOk, Made, Recordable,
      HintsMounted, IsMbr, PlanOf, Job.First, Job.HasRoom, Masked, PowerOfTwo;
    var j := Job(drive.ss, minSs, |drive.sectors|, sfd, request, block);
    res, p := PlanFormat(j);
    if res != FrOk { return; }
    PlanPlace(j);
    if j.Small28() { PlanIsWorth(j); }
    var ok, md := WriteVolume(drive, tbl, p, sfd, time);
    if !ok { res := FrDiskErr; return; }
    if j.Small28() {
      if j.HasRoom() {
        IsMade(drive.sectors, p, j.ss, sfd, md);
        if p.fmt == Fat32 && drive.reliable { InfoIsMounted(drive.sectors, p, j.ss, sfd, md); }
      } else {
        NothingToMount(drive.sectors, p, j.ss, sfd);
      }
    }
  }

  lemma PlanPlace(j: Job)
    requires j.Valid() && PlanOf(j).0 == FrOk
    ensures var p := PlanOf(j).1;
            j.nDisk >= 128 && p.bVol == (if j.sfd then 0 else 63) && p.bVol + p.nVol == j.nDisk && ClusterSize(p.au)
  {
    hide FatSectors, UnitOf, SubType, RootSize, AlignUp, CDiv, EDiv;
  }

  lemma IsMade(d: Medium, p: Plan, ss: nat, sfd: bool, md: byte)
    requires SectorSize(ss) && Sound(p, ss) && Formatted(d, p, ss, sfd, md)
    ensures Made(d, p, ss)
  {
    hide Sound, Formatted, Mount, GeometryOf, MediumOk, FreshTable, TableOf, Forest, FreeCount;
    FormatThenMount(d, p, ss, sfd, md);
    GeometryNumbers(p, ss);
    var g := GeometryOf(p, ss);
    FreshIsForest(TableOf(d, g), g);
    FreshCount(TableOf(d, g), g);
  }

  /** A boot sector that leaves no cluster behind the areas is refused by the mount. */
  lemma NothingToMount(d: Medium, p: Plan, ss: nat, sfd: bool)
    requires SectorSize(ss) && Recordable(p) && p.fmt == Fat12 && p.nDir == RootSize(Fat12, ss)
    requires AreaEnd(p) <= p.bVol + p.nVol < AreaEnd(p) + p.au
    requires p.bVol == (if sfd then 0 else 63) && p.bVol + p.nVol == |d| <= 0xFFFF_FFFF
    requires (forall s :: 0 <= s < |d| ==> |d[s]| == ss) && (sfd || IsMbr(d[0], p))
    requires Kind(d[p.bVol]) == FatBoot && Describes(ReadBpb(d[p.bVol]), p, ss)
    ensures Readable(d, ss) && Mount(d, ss) == Failed(FrNoFilesystem)
  {
    hide Kind, ReadBpb, Partition, SDiv, SMul, CMul, CDiv, EDiv, EMod, NeededFat, Wrap, LdDword, RootSize, RootEntries;
    assert VolumeOf(d, ss) == At(p.bVol);
    RootIs(Fat12, ss);
    SmallWrap(p.nRsv + p.nFat + p.nDir);
    NoCluster(p.nVol - (p.nRsv + p.nFat + p.nDir), p.au);
  }

  /** The mount takes over the hints in FSINFO, and they are right. */
  ghost predicate HintsMounted(d: Medium, p: Plan, ss: nat)
    requires Readable(d, ss)
  {
    && Mount(d, ss).Done? && Mount(d, ss).m.lastClust == 2 && Mount(d, ss).m.fsiFlag == 0
    && Mount(d, ss).m.freeClust as int == p.nClst - 1
  }

  /** The three rounds of writes leave a formatted medium. */
  lemma MakesVolume(d1: Medium, d2: Medium, d3: Medium, p: Plan, ss: nat, sfd: bool, md: byte)
    requires SectorSize(ss) && Sound(p, ss) && p.bVol == (if sfd then 0 else 63)
      && p.bVol + p.nVol == |d1| <= 0xFFFF_FFFF
    requires |d3| == |d2| && forall s :: 0 <= s < |d3| ==> |d3[s]| == ss
    requires 0 < |d1| && |d1[0]| >= 512 && p.bVol < |d1| && |d1[p.bVol]| >= 512
    requires sfd || IsMbr(d1[0], p)
    requires Kind(d1[p.bVol]) == FatBoot && Describes(ReadBpb(d1[p.bVol]), p, ss)
    requires var cnt := p.nFat + if p.fmt == Fat32 then p.au else p.nDir;
             1 <= p.nFat && 1 <= p.nDir + p.au ==> FatWritten(d1, d2, ss, p, Wrap(p.bVol + p.nRsv), cnt, md)
    requires forall s :: 0 <= s < |d2| && d3[s] != d2[s] ==> p.fmt == Fat32 && (s == p.bVol + 1 || s == p.bVol + 7)
    ensures Formatted(d3, p, ss, sfd, md)
  {
    hide Sound, Kind, ReadBpb, Describes, Partition, IsFirst;
    PlanNumbers(p, ss);
    SmallWrap(p.bVol + p.nRsv);
    assert d2[0] == d1[0] && d2[p.bVol] == d1[p.bVol];
    assert d3[0] == d2[0] && d3[p.bVol] == d2[p.bVol] && d3[p.bVol + p.nRsv] == d2[p.bVol + p.nRsv];
  }

  /** The FSINFO sector of a formatted FAT32 medium is taken over by the mount. */
  lemma InfoIsMounted(d: Medium, p: Plan, ss: nat, sfd: bool, md: byte)
    requires SectorSize(ss) && Sound(p, ss) && Formatted(d, p, ss, sfd, md) && p.fmt == Fat32
    requires p.bVol + 1 < |d| && |d[p.bVol + 1]| >= 512 && FsInfoValid(d[p.bVol + 1])
    requires LdDword(d[p.bVol + 1], 488) == Dec32(p.nClst) && LdDword(d[p.bVol + 1], 492) == 2
    ensures Readable(d, ss) && HintsMounted(d, p, ss)
  {
    hide Kind, FsInfoValid, LdDword, Analyse, Geometry.WellFormed, GeometryOf, Sound, ReadBpb, Partition, IsFirst,
      MediumOk, TableOf, FreshTable, Wrap;
    FormatThenMount(d, p, ss, sfd, md);
    PlanNumbers(p, ss);
    GeometryNumbers(p, ss);
    OneAtLeast(p, ss);
    SixBehind(p.bVol);
    assert VolumeOf(d, ss) == At(p.bVol);
  }

  lemma OneAtLeast(p: Plan, ss: nat)
    requires SectorSize(ss) && Sound(p, ss)
    ensures p.nClst >= 1
  {
  }
}
