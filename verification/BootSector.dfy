/** The boot sector: how a mount recognises and analyses it (check_fs and the BPB part of find_volume). */
module BootSector {
  import opened Bytes
  import opened Units
  import opened Layout
  import opened Disk

  const MIN_FAT16: nat := 4086
  const MIN_FAT32: nat := 65526

  const BPB_BYTSPERSEC: nat := 11
  const BPB_SECPERCLUS: nat := 13
  const BPB_RSVDSECCNT: nat := 14
  const BPB_NUMFATS: nat := 16
  const BPB_ROOTENTCNT: nat := 17
  const BPB_TOTSEC16: nat := 19
  const BPB_MEDIA: nat := 21
  const BPB_FATSZ16: nat := 22
  const BPB_TOTSEC32: nat := 32
  const BPB_FATSZ32: nat := 36
  const BPB_ROOTCLUS: nat := 44
  const BPB_FSINFO: nat := 48
  const BS_FILSYSTYPE: nat := 54
  const BS_FILSYSTYPE32: nat := 82
  const MBR_TABLE: nat := 446
  const SZ_PTE: nat := 16
  const BS_55AA: nat := 510
  const SIGNATURE: word := 0xAA55

  /** Unsigned 32-bit arithmetic. */
  function Wrap(n: nat): dword {
    n % 0x1_0000_0000
  }

  // ---------- recognition ----------

  /** "FAT" at an offset. */
  predicate SaysFat(w: seq<byte>, at: nat)
    requires at + 2 < |w|
  {
    w[at] == 0x46 && w[at + 1] == 0x41 && w[at + 2] == 0x54
  }

  datatype BootKind = FatBoot | OtherBoot | NoBoot | ReadError

  function Kind(w: seq<byte>): BootKind
    requires |w| >= 512
  {
    if LdWord(w, BS_55AA) != SIGNATURE then NoBoot
    else if SaysFat(w, BS_FILSYSTYPE) || SaysFat(w, BS_FILSYSTYPE32) then FatBoot
    else OtherBoot
  }

  /** The signature 55 AA, and the letters of the file system type where FAT12/16 or FAT32 have them. */
  lemma KindInBytes(w: seq<byte>)
    requires |w| >= 512
    ensures Kind(w) == NoBoot <==> w[510..512] != [0x55, 0xAA]
    ensures Kind(w) == FatBoot <==>
      w[510..512] == [0x55, 0xAA] && (w[54..57] == [0x46, 0x41, 0x54] || w[82..85] == [0x46, 0x41, 0x54])
    ensures Kind(w) != ReadError
  {
    LittleEndian(w, 510);
    assert w[510..512] == [w[510], w[511]];
    assert w[54..57] == [w[54], w[55], w[56]] && w[82..85] == [w[82], w[83], w[84]];
  }

  // ---------- the BPB ----------

  datatype Bpb = Bpb(bytsPerSec: word, secPerClus: byte, rsvdSecCnt: word, numFats: byte, rootEntCnt: word,
                     totSec: dword, fatSz: dword, rootClus: dword, fsInfo: word)

  /** The fields find_volume looks at; the 16-bit sizes take precedence when they are not 0. */
  function ReadBpb(w: seq<byte>): Bpb
    requires |w| >= 512
  {
    Bpb(LdWord(w, BPB_BYTSPERSEC), w[BPB_SECPERCLUS], LdWord(w, BPB_RSVDSECCNT), w[BPB_NUMFATS],
        LdWord(w, BPB_ROOTENTCNT),
        if LdWord(w, BPB_TOTSEC16) != 0 then LdWord(w, BPB_TOTSEC16) else LdDword(w, BPB_TOTSEC32),
        if LdWord(w, BPB_FATSZ16) != 0 then LdWord(w, BPB_FATSZ16) else LdDword(w, BPB_FATSZ32),
        LdDword(w, BPB_ROOTCLUS), LdWord(w, BPB_FSINFO))
  }

  /** Where the fields of the BPB lie. */
  lemma BpbInBytes(w: seq<byte>)
    requires |w| >= 512
    ensures var b := ReadBpb(w);
            && b.bytsPerSec as int == w[11] as int + w[12] as int * 0x100 && b.secPerClus == w[13]
            && b.rsvdSecCnt as int == w[14] as int + w[15] as int * 0x100 && b.numFats == w[16]
            && b.rootEntCnt as int == w[17] as int + w[18] as int * 0x100
            && b.totSec as int == (if w[19] != 0 || w[20] != 0 then w[19] as int + w[20] as int * 0x100
                                   else w[32] as int + w[33] as int * 0x100 + w[34] as int * 0x1_0000
                                        + w[35] as int * 0x100_0000)
            && b.fatSz as int == (if w[22] != 0 || w[23] != 0 then w[22] as int + w[23] as int * 0x100
                                  else w[36] as int + w[37] as int * 0x100 + w[38] as int * 0x1_0000
                                       + w[39] as int * 0x100_0000)
            && b.rootClus as int == w[44] as int + w[45] as int * 0x100 + w[46] as int * 0x1_0000
                                    + w[47] as int * 0x100_0000
            && b.fsInfo as int == w[48] as int + w[49] as int * 0x100
  {
  }

  function SubType(nclst: nat): FatType {
    if nclst >= MIN_FAT32 then Fat32 else if nclst >= MIN_FAT16 then Fat16 else Fat12
  }

  /** Bytes of FAT needed, in 32 bits. */
  function NeededFat(fmt: FatType, nFatent: dword): dword {
    match fmt
    case Fat12 => Wrap(Wrap(nFatent * 3) / 2 + nFatent % 2)
    case Fat16 => Wrap(nFatent * 2)
    case Fat32 => Wrap(nFatent * 4)
  }

  datatype Analysis = Accepted(g: Geometry) | Refused

  /** The geometry a BPB describes, if find_volume accepts it. */
  function Analyse(b: Bpb, bsect: dword, ss: nat): Analysis
    requires SectorSize(ss)
  {
    if b.bytsPerSec != ss then Refused
    else if b.numFats != 1 && b.numFats != 2 then Refused
    else if !ClusterSize(b.secPerClus as int) then Refused
    else if EMod(b.rootEntCnt, ss) != 0 then Refused
    else if b.rsvdSecCnt == 0 then Refused
    else
      var fasize: dword := if b.numFats == 2 then Wrap(b.fatSz * 2) else b.fatSz;
      var sysect: dword := Wrap(b.rsvdSecCnt + fasize + EDiv(b.rootEntCnt, ss));
      if b.totSec < sysect then Refused
      else
        var nclst: dword := CDiv(b.totSec - sysect, b.secPerClus as int);
        if nclst == 0 then Refused
        else
          var fmt, nFatent: dword := SubType(nclst), Wrap(nclst + 2);
          var fatbase: dword := Wrap(bsect + b.rsvdSecCnt);
          if (fmt == Fat32) != (b.rootEntCnt == 0) then Refused
          else if b.fatSz < SDiv(Wrap(NeededFat(fmt, nFatent) + ss - 1), ss) then Refused
          else
            Accepted(Geometry(fmt, ss, b.secPerClus as nat, b.numFats as nat, b.rootEntCnt as nat, nFatent, b.fatSz,
                              bsect, fatbase, if fmt == Fat32 then b.rootClus else Wrap(fatbase + fasize),
                              Wrap(bsect + sysect)))
  }

  /** Sectors before the data area, as a number without bound. */
  function SystemSectors(b: Bpb, ss: nat): int
    requires SectorSize(ss)
  {
    b.rsvdSecCnt + (if b.numFats == 2 then b.fatSz + b.fatSz else b.fatSz) + EDiv(b.rootEntCnt, ss)
  }

  /** Clusters in the rest of the volume. */
  function ClusterCount(b: Bpb, ss: nat): int
    requires SectorSize(ss) && ClusterSize(b.secPerClus as int)
  {
    CDiv(b.totSec - SystemSectors(b, ss), b.secPerClus as int)
  }

  /** The areas before the data fit in the volume, the data area ends within 32 bits, and cluster numbers fit in 28. */
  predicate InBounds(b: Bpb, bsect: dword, ss: nat)
    requires SectorSize(ss) && ClusterSize(b.secPerClus as int)
  {
    && SystemSectors(b, ss) <= b.totSec
    && bsect + SystemSectors(b, ss) + CMul(ClusterCount(b, ss), b.secPerClus as int) <= 0xFFFF_FFFF
    && ClusterCount(b, ss) + 2 <= LAST_LINK
  }

  lemma SmallWrap(n: nat)
    requires n <= 0xFFFF_FFFF
    ensures Wrap(n) == n
  {
  }

  /** For a 28-bit count the size needed is not wrapped. */
  lemma NeedIsExact(fmt: FatType, n: dword)
    requires n <= LAST_LINK
    ensures NeededFat(fmt, n) == match fmt case Fat12 => n * 3 / 2 + n % 2 case Fat16 => n * 2 case Fat32 => n * 4
    ensures NeededFat(fmt, n) <= 0x4000_0000
  {
    SmallWrap(n * 3);
    SmallWrap(n * 3 / 2 + n % 2);
    SmallWrap(n * 2);
    SmallWrap(n * 4);
  }

  /** The geometry of a BPB without wrap. */
  function PlainGeometry(b: Bpb, bsect: dword, ss: nat): (g: Geometry)
    requires SectorSize(ss) && ClusterSize(b.secPerClus as int) && InBounds(b, bsect, ss)
  {
    hide CDiv, CMul, EDiv;
    EntrySectors(b.rootEntCnt, ss);
    CountBelow(b.totSec, b.totSec - SystemSectors(b, ss), b.secPerClus as int);
    ClusterSplit(b.totSec - SystemSectors(b, ss), b.secPerClus as int);
    var fasize := if b.numFats == 2 then b.fatSz + b.fatSz else b.fatSz;
    var fmt := SubType(ClusterCount(b, ss));
    Geometry(fmt, ss, b.secPerClus as nat, b.numFats as nat, b.rootEntCnt as nat, ClusterCount(b, ss) + 2, b.fatSz,
             bsect, bsect + b.rsvdSecCnt, if fmt == Fat32 then b.rootClus else bsect + b.rsvdSecCnt + fasize,
             bsect + SystemSectors(b, ss))
  }

  lemma BoundsInNumbers(b: Bpb, bsect: dword, ss: nat)
    requires SectorSize(ss) && ClusterSize(b.secPerClus as int) && InBounds(b, bsect, ss)
    ensures 0 <= EDiv(b.rootEntCnt, ss) && 0 <= ClusterCount(b, ss) && ClusterCount(b, ss) + 2 <= LAST_LINK
    ensures 0 <= SystemSectors(b, ss) && bsect + SystemSectors(b, ss) <= 0xFFFF_FFFF
  {
    hide CMul, CDiv, EDiv;
    EntrySectors(b.rootEntCnt, ss);
    CountBelow(b.totSec, b.totSec - SystemSectors(b, ss), b.secPerClus as int);
    ManyClusters(ClusterCount(b, ss), b.secPerClus as int);
  }

  lemma ManyClusters(n: int, cs: int)
    requires ClusterSize(cs) && 0 <= n
    ensures 0 <= CMul(n, cs)
  {
  }

  /** In bounds the wrapped sums are the plain ones. */
  lemma NothingWraps(b: Bpb, bsect: dword, ss: nat)
    requires SectorSize(ss) && ClusterSize(b.secPerClus as int) && InBounds(b, bsect, ss)
    ensures b.numFats == 2 ==> Wrap(b.fatSz * 2) == b.fatSz + b.fatSz
    ensures 0 <= EDiv(b.rootEntCnt, ss) && 0 <= SystemSectors(b, ss) && 0 <= ClusterCount(b, ss)
    ensures Wrap(SystemSectors(b, ss)) == SystemSectors(b, ss)
      && Wrap(ClusterCount(b, ss) + 2) == ClusterCount(b, ss) + 2
    ensures Wrap(bsect + b.rsvdSecCnt) == bsect + b.rsvdSecCnt
    ensures Wrap(bsect + SystemSectors(b, ss)) == bsect + SystemSectors(b, ss)
    ensures var fasize := if b.numFats == 2 then b.fatSz + b.fatSz else b.fatSz;
            Wrap(bsect + b.rsvdSecCnt + fasize) == bsect + b.rsvdSecCnt + fasize
  {
    hide InBounds, ClusterCount, CMul, CDiv, EDiv, Wrap;
    BoundsInNumbers(b, bsect, ss);
    var fasize := if b.numFats == 2 then b.fatSz + b.fatSz else b.fatSz;
    if b.numFats == 2 { SmallWrap(b.fatSz * 2); }
    SmallWrap(SystemSectors(b, ss));
    SmallWrap(ClusterCount(b, ss) + 2);
    SmallWrap(bsect + b.rsvdSecCnt);
    SmallWrap(bsect + b.rsvdSecCnt + fasize);
    SmallWrap(bsect + SystemSectors(b, ss));
  }

  lemma NeedFits(fmt: FatType, n: dword, ss: nat)
    requires SectorSize(ss) && n <= LAST_LINK
    ensures Wrap(NeededFat(fmt, n) + ss - 1) == NeededFat(fmt, n) + ss - 1
  {
    hide NeededFat, Wrap;
    NeedIsExact(fmt, n);
    SmallWrap(NeededFat(fmt, n) + ss - 1);
  }

  /** A BPB in bounds, if accepted, is taken for what it says. */
  lemma AcceptedSums(b: Bpb, bsect: dword, ss: nat)
    requires SectorSize(ss) && Analyse(b, bsect, ss).Accepted? && ClusterSize(b.secPerClus as int)
      && InBounds(b, bsect, ss)
    ensures Analyse(b, bsect, ss).g == PlainGeometry(b, bsect, ss)
    ensures 0 < b.rsvdSecCnt && 1 <= ClusterCount(b, ss) && (b.numFats == 1 || b.numFats == 2)
    ensures EMod(b.rootEntCnt, ss) == 0 && (SubType(ClusterCount(b, ss)) == Fat32 <==> b.rootEntCnt == 0)
    ensures 3 <= ClusterCount(b, ss) + 2 <= LAST_LINK
    ensures b.fatSz >= SDiv(NeededFat(SubType(ClusterCount(b, ss)), ClusterCount(b, ss) + 2) + ss - 1, ss)
  {
    hide SMul, SDiv, CMul, CDiv, EDiv, EMod, NeededFat, Wrap, SubType;
    NothingWraps(b, bsect, ss);
    NeedFits(SubType(ClusterCount(b, ss)), ClusterCount(b, ss) + 2, ss);
  }

  lemma EntrySectors(n: nat, ss: int)
    requires SectorSize(ss)
    ensures 0 <= EDiv(n, ss) <= n
  {
  }

  lemma AcceptedUnit(b: Bpb, bsect: dword, ss: nat)
    requires SectorSize(ss) && Analyse(b, bsect, ss).Accepted?
    ensures ClusterSize(b.secPerClus as int)
  {
    hide EDiv, EMod, SDiv, CDiv, NeededFat, Wrap, SubType;
  }

  /** In bounds, what a mount accepts is well formed. */
  lemma BoundsAreEnough(b: Bpb, bsect: dword, ss: nat)
    requires SectorSize(ss) && Analyse(b, bsect, ss).Accepted? && ClusterSize(b.secPerClus as int)
      && InBounds(b, bsect, ss)
    ensures var g := Analyse(b, bsect, ss).g; g.WellFormed() && g.DataEnd() <= bsect + b.totSec
  {
    hide Analyse, SMul, SDiv, CMul, CDiv, EDiv, EMod, NeededFat, CMod;
    AcceptedSums(b, bsect, ss);
    var g := Analyse(b, bsect, ss).g;
    EntrySectors(b.rootEntCnt, ss);
    NeedIsExact(g.fsType, g.nFatent);
    CeilingFits(NeededFat(g.fsType, g.nFatent), g.fsize, ss);
    ClusterSplit(b.totSec - SystemSectors(b, ss), g.csize);
  }

  /** A well-formed geometry has no wrapped sum in it. */
  lemma BoundsAreNeeded(b: Bpb, bsect: dword, ss: nat)
    requires SectorSize(ss) && Analyse(b, bsect, ss).Accepted? && ClusterSize(b.secPerClus as int)
    requires Analyse(b, bsect, ss).g.WellFormed()
    ensures InBounds(b, bsect, ss)
  {
    hide Analyse, SMul, SDiv, CMul, CDiv, EDiv, EMod, NeededFat, SubType;
    AcceptedParts(b, bsect, ss);
    EntrySectors(b.rootEntCnt, ss);
    var g := Analyse(b, bsect, ss).g;
    assert bsect + SystemSectors(b, ss) == g.database;
    SmallWrap(SystemSectors(b, ss));
    if b.numFats == 2 { SmallWrap(b.fatSz * 2); }
    CountBelow(b.totSec, b.totSec - SystemSectors(b, ss), b.secPerClus as int);
    assert g.nFatent == Wrap(ClusterCount(b, ss) + 2);
  }

  /** The numbers of an accepted volume, each as it is computed. */
  lemma AcceptedParts(b: Bpb, bsect: dword, ss: nat)
    requires SectorSize(ss) && Analyse(b, bsect, ss).Accepted? && ClusterSize(b.secPerClus as int)
    ensures var g := Analyse(b, bsect, ss).g;
            var fasize := if b.numFats == 2 then Wrap(b.fatSz * 2) else b.fatSz;
            var sysect := Wrap(b.rsvdSecCnt + fasize + EDiv(b.rootEntCnt, ss));
            && g.ss == ss && g.csize == b.secPerClus as nat && g.nFats == b.numFats as nat
            && g.nRootdir == b.rootEntCnt as nat && g.fsize == b.fatSz && g.volbase == bsect
            && g.fatbase == Wrap(bsect + b.rsvdSecCnt) && g.database == Wrap(bsect + sysect) && sysect <= b.totSec
            && g.nFatent == Wrap(CDiv(b.totSec - sysect, b.secPerClus as int) + 2)
            && (g.fsType != Fat32 ==> g.dirbase == Wrap(g.fatbase + fasize))
  {
    hide SMul, SDiv, CMul, CDiv, EDiv, EMod, NeededFat, SubType;
    EntrySectors(b.rootEntCnt, ss);
  }

  /** When an accepted volume is well formed: the areas are disjoint and in order, the FAT has room for every entry,
      the type fits the cluster count, and no cluster number can be taken for an end mark, exactly if no sum passes
      32 bits and no cluster number 28.  The mount checks neither. */
  lemma MountIsSound(b: Bpb, bsect: dword, ss: nat)
    requires SectorSize(ss) && Analyse(b, bsect, ss).Accepted?
    ensures ClusterSize(b.secPerClus as int)
    ensures Analyse(b, bsect, ss).g.WellFormed() <==> InBounds(b, bsect, ss)
    ensures InBounds(b, bsect, ss) ==>
      var g := Analyse(b, bsect, ss).g; g == PlainGeometry(b, bsect, ss) && g.DataEnd() <= bsect + b.totSec
  {
    hide Analyse, InBounds, Geometry.WellFormed, Geometry.DataEnd, PlainGeometry, SystemSectors, ClusterCount;
    AcceptedUnit(b, bsect, ss);
    if InBounds(b, bsect, ss) {
      BoundsAreEnough(b, bsect, ss);
      AcceptedSums(b, bsect, ss);
    }
    if Analyse(b, bsect, ss).g.WellFormed() { BoundsAreNeeded(b, bsect, ss); }
  }

  /** The fields that are checked one by one. */
  predicate FieldsOk(b: Bpb, ss: nat)
    requires SectorSize(ss)
  {
    && b.bytsPerSec as int == ss && (b.numFats == 1 || b.numFats == 2) && ClusterSize(b.secPerClus as int)
    && EMod(b.rootEntCnt, ss) == 0 && b.rsvdSecCnt != 0
  }

  lemma BadField(b: Bpb, bsect: dword, ss: nat)
    requires SectorSize(ss) && !FieldsOk(b, ss)
    ensures Analyse(b, bsect, ss).Refused?
  {
    hide EMod, EDiv, SDiv, CDiv, NeededFat, Wrap, SubType;
  }

  /** With these fields in order and no sum wrapped, the sizes decide. */
  lemma SizesDecide(b: Bpb, bsect: dword, ss: nat)
    requires SectorSize(ss) && FieldsOk(b, ss) && bsect + SystemSectors(b, ss) <= 0xFFFF_FFFF
    requires CDiv(b.totSec, b.secPerClus as int) <= 0x3FFF_F000
    ensures var n := ClusterCount(b, ss);
            Analyse(b, bsect, ss).Accepted? <==>
              && SystemSectors(b, ss) <= b.totSec && 1 <= n && (SubType(n) == Fat32 <==> b.rootEntCnt == 0)
              && n + 2 <= 0x3FFF_F002 && b.fatSz >= SDiv(NeededFat(SubType(n), n + 2) + ss - 1, ss)
  {
    hide EMod, EDiv, SDiv, CDiv, NeededFat, Wrap, SubType, SectorSize, ClusterSize;
    SupportedUnits(ss);
    EntrySectors(b.rootEntCnt, ss);
    CountBelow(b.totSec, b.totSec - SystemSectors(b, ss), b.secPerClus as int);
    if b.numFats == 2 { SmallWrap(b.fatSz * 2); }
    SmallWrap(SystemSectors(b, ss));
    if SystemSectors(b, ss) <= b.totSec {
      var n := ClusterCount(b, ss);
      SmallWrap(n + 2);
      NeedUnwrapped(SubType(n), n + 2);
      SmallWrap(NeededFat(SubType(n), n + 2) + ss - 1);
    }
  }

  lemma NeedUnwrapped(fmt: FatType, n: dword)
    requires n <= 0x3FFF_F002
    ensures NeededFat(fmt, n) == match fmt case Fat12 => n * 3 / 2 + n % 2 case Fat16 => n * 2 case Fat32 => n * 4
  {
    SmallWrap(n * 3);
    SmallWrap(n * 3 / 2 + n % 2);
    SmallWrap(n * 2);
    SmallWrap(n * 4);
  }

  /** As many sectors as the bytes need, rounded up, are enough sectors, and no fewer are. */
  lemma CeilingIsPlain(need: nat, n: nat, ss: int)
    requires SectorSize(ss)
    ensures n >= SDiv(need + ss - 1, ss) <==> SMul(n, ss) >= need
  {
  }

  /** Which BPBs are accepted: if no sum of sectors wraps, and the count of clusters stays below what four bytes each
      can take, exactly those that name the sector size, one or two FATs, a
      cluster size, whole root directory sectors and a reserved area, that leave room for a cluster, that have root
      entries exactly if the cluster count does not make them FAT32, and whose FAT has room for every entry. */
  lemma AcceptedExactly(b: Bpb, bsect: dword, ss: nat)
    requires SectorSize(ss)
    requires bsect + b.rsvdSecCnt + (if b.numFats == 2 then 2 * b.fatSz else b.fatSz) + b.rootEntCnt / (ss / 32)
             <= 0xFFFF_FFFF
    requires b.secPerClus > 0 ==> b.totSec / b.secPerClus as int <= 0x3FFF_F000
    ensures var nfats, au := b.numFats as nat, b.secPerClus as nat;
            Analyse(b, bsect, ss).Accepted? <==>
              && b.bytsPerSec as int == ss && (nfats == 1 || nfats == 2) && au in {1, 2, 4, 8, 16, 32, 64, 128}
              && b.rootEntCnt % (ss / 32) == 0 && b.rsvdSecCnt > 0
              && var sys := b.rsvdSecCnt as nat + nfats * b.fatSz + b.rootEntCnt / (ss / 32);
              && sys + au <= b.totSec
              && var n := (b.totSec - sys) / au;
              && (b.rootEntCnt == 0 <==> n >= 65526)
              && b.fatSz * ss >= if n < 4086 then (n + 2) * 3 / 2 + (n + 2) % 2
                                 else if n < 65526 then (n + 2) * 2 else (n + 2) * 4
  {
    hide SectorSize, ClusterSize, Analyse, SystemSectors, FieldsOk, CDiv, SMul, EDiv, EMod;
    FieldsArePlain(b, ss);
    if FieldsOk(b, ss) { SumsArePlain(b, ss); }
    AcceptedByUnits(b, bsect, ss);
  }

  lemma FieldsArePlain(b: Bpb, ss: nat)
    requires SectorSize(ss)
    ensures FieldsOk(b, ss) <==>
      && b.bytsPerSec as int == ss && (b.numFats == 1 || b.numFats == 2)
      && b.secPerClus as nat in {1, 2, 4, 8, 16, 32, 64, 128}
      && b.rootEntCnt % (ss / 32) == 0 && b.rsvdSecCnt > 0
    ensures EDiv(b.rootEntCnt, ss) == b.rootEntCnt / (ss / 32)
    ensures FieldsOk(b, ss) ==> ClusterSize(b.secPerClus as int)
  {
    hide EMod, EDiv;
    ByUnitIsPlain(b.rootEntCnt, ss, 1);
  }

  lemma SystemIsSum(b: Bpb, ss: nat)
    requires SectorSize(ss) && FieldsOk(b, ss)
    ensures SystemSectors(b, ss) == b.rsvdSecCnt as nat + b.numFats as nat * b.fatSz + EDiv(b.rootEntCnt, ss)
  {
    hide EDiv, EMod, SectorSize, ClusterSize;
    if b.numFats == 1 { } else { }
  }

  lemma UnitIsPositive(au: int)
    requires ClusterSize(au)
    ensures au > 0
  {
  }

  lemma SumsArePlain(b: Bpb, ss: nat)
    requires SectorSize(ss) && FieldsOk(b, ss) && ClusterSize(b.secPerClus as int)
    ensures b.secPerClus > 0
    ensures SystemSectors(b, ss) == b.rsvdSecCnt as nat + b.numFats as nat * b.fatSz + b.rootEntCnt / (ss / 32)
    ensures CDiv(b.totSec - SystemSectors(b, ss), b.secPerClus as int)
            == (b.totSec - SystemSectors(b, ss)) / b.secPerClus as nat
    ensures CDiv(b.totSec, b.secPerClus as int) == b.totSec / b.secPerClus as nat
    ensures SMul(b.fatSz, ss) == b.fatSz * ss
  {
    hide CDiv, SMul, EDiv, EMod, SectorSize, ClusterSize, SystemSectors, FieldsOk;
    UnitIsPositive(b.secPerClus as int);
    SystemIsSum(b, ss);
    ByUnitIsPlain(b.rootEntCnt, ss, b.secPerClus as int);
    ByUnitIsPlain(b.fatSz, ss, b.secPerClus as int);
    ByUnitIsPlain(b.totSec, ss, b.secPerClus as int);
    ByUnitIsPlain(b.totSec - SystemSectors(b, ss), ss, b.secPerClus as int);
  }

  lemma AcceptedByUnits(b: Bpb, bsect: dword, ss: nat)
    requires SectorSize(ss)
    requires bsect + b.rsvdSecCnt + (if b.numFats == 2 then 2 * b.fatSz else b.fatSz) + EDiv(b.rootEntCnt, ss)
             <= 0xFFFF_FFFF
    requires FieldsOk(b, ss) ==> CDiv(b.totSec, b.secPerClus as int) <= 0x3FFF_F000
    ensures Analyse(b, bsect, ss).Accepted? <==>
      && FieldsOk(b, ss) && var sys, au := SystemSectors(b, ss), b.secPerClus as nat;
      && sys + au <= b.totSec
      && var n := CDiv(b.totSec - sys, au);
      && (b.rootEntCnt == 0 <==> n >= 65526)
      && SMul(b.fatSz, ss) >= if n < 4086 then (n + 2) * 3 / 2 + (n + 2) % 2
                              else if n < 65526 then (n + 2) * 2 else (n + 2) * 4
  {
    hide Analyse, CDiv, SDiv, SMul, EDiv, EMod, NeededFat, Wrap, SectorSize, ClusterSize;
    if !FieldsOk(b, ss) {
      BadField(b, bsect, ss);
    } else {
      SizesDecide(b, bsect, ss);
      var sys, au := SystemSectors(b, ss), b.secPerClus as nat;
      if sys <= b.totSec {
        AtLeastOne(b.totSec - sys, au);
        EntrySectors(b.rootEntCnt, ss);
        CountBelow(b.totSec, b.totSec - sys, au);
        var n := ClusterCount(b, ss);
        NeedUnwrapped(SubType(n), n + 2);
        CeilingIsPlain(NeededFat(SubType(n), n + 2), b.fatSz, ss);
      }
    }
  }

  lemma AtLeastOne(n: nat, cs: nat)
    requires ClusterSize(cs)
    ensures CDiv(n, cs) >= 1 <==> n >= cs
  {
  }

  /** What is accepted without a wrapped sum is taken for what it says. */
  lemma AcceptedAs(b: Bpb, bsect: dword, ss: nat)
    requires SectorSize(ss) && Analyse(b, bsect, ss).Accepted?
    requires bsect + b.rsvdSecCnt + (if b.numFats == 2 then 2 * b.fatSz else b.fatSz) + b.rootEntCnt / (ss / 32)
             <= 0xFFFF_FFFF
    requires b.secPerClus > 0 ==> b.totSec / b.secPerClus as int <= 0x3FFF_F000
    ensures var nfats, au, g := b.numFats as nat, b.secPerClus as nat, Analyse(b, bsect, ss).g;
            var sys := b.rsvdSecCnt as nat + nfats * b.fatSz + b.rootEntCnt / (ss / 32);
            && au > 0 && g.ss == ss && g.csize == au && g.nFats == nfats && g.nRootdir == b.rootEntCnt as nat
            && g.nFatent == (b.totSec - sys) / au + 2 && g.fsize == b.fatSz && g.volbase == bsect
            && g.fatbase == bsect + b.rsvdSecCnt && g.database == bsect + sys
            && g.fsType == (if g.nFatent - 2 < 4086 then Fat12 else if g.nFatent - 2 < 65526 then Fat16 else Fat32)
            && g.dirbase == if g.fsType == Fat32 then b.rootClus else bsect + b.rsvdSecCnt + nfats * b.fatSz
  {
    hide SectorSize, ClusterSize, Analyse, SystemSectors, ClusterCount, FieldsOk, CDiv, SMul, EDiv, EMod, Wrap, SubType;
    FieldsArePlain(b, ss);
    if !FieldsOk(b, ss) { BadField(b, bsect, ss); }
    SumsArePlain(b, ss);
    AcceptedSizes(b, bsect, ss);
  }

  lemma AcceptedSizes(b: Bpb, bsect: dword, ss: nat)
    requires SectorSize(ss) && Analyse(b, bsect, ss).Accepted? && FieldsOk(b, ss)
    requires bsect + b.rsvdSecCnt + (if b.numFats == 2 then 2 * b.fatSz else b.fatSz) + EDiv(b.rootEntCnt, ss)
             <= 0xFFFF_FFFF
    requires CDiv(b.totSec, b.secPerClus as int) <= 0x3FFF_F000
    ensures ClusterSize(b.secPerClus as int)
    ensures var g, sys, fasize := Analyse(b, bsect, ss).g, SystemSectors(b, ss), b.numFats as nat * b.fatSz;
            && g.ss == ss && g.csize == b.secPerClus as nat && g.nFats == b.numFats as nat
            && g.nRootdir == b.rootEntCnt as nat && g.nFatent == CDiv(b.totSec - sys, g.csize) + 2
            && g.fsize == b.fatSz && g.volbase == bsect
            && g.fatbase == bsect + b.rsvdSecCnt && g.database == bsect + sys
            && g.fsType == (if g.nFatent - 2 < 4086 then Fat12 else if g.nFatent - 2 < 65526 then Fat16 else Fat32)
            && g.dirbase == if g.fsType == Fat32 then b.rootClus else bsect + b.rsvdSecCnt + fasize
  {
    hide Analyse, CDiv, SDiv, EDiv, EMod, NeededFat, Wrap, SectorSize, ClusterSize;
    SupportedUnits(ss);
    EntrySectors(b.rootEntCnt, ss);
    SizesDecide(b, bsect, ss);
    AcceptedParts(b, bsect, ss);
    if b.numFats == 2 { SmallWrap(b.fatSz * 2); }
    SmallWrap(SystemSectors(b, ss));
    AcceptedType(b, bsect, ss);
    SmallWrap(bsect + b.rsvdSecCnt);
    SmallWrap(bsect + SystemSectors(b, ss));
    SmallWrap(ClusterCount(b, ss) + 2);
    SmallWrap(bsect + b.rsvdSecCnt + if b.numFats == 2 then b.fatSz * 2 else b.fatSz);
  }

  lemma AcceptedType(b: Bpb, bsect: dword, ss: nat)
    requires SectorSize(ss) && Analyse(b, bsect, ss).Accepted? && ClusterSize(b.secPerClus as int)
    ensures var g := Analyse(b, bsect, ss).g;
            var fasize := if b.numFats == 2 then Wrap(b.fatSz * 2) else b.fatSz;
            var sysect := Wrap(b.rsvdSecCnt + fasize + EDiv(b.rootEntCnt, ss));
            sysect <= b.totSec && g.fsType == SubType(CDiv(b.totSec - sysect, b.secPerClus as int))
            && (g.fsType == Fat32 ==> g.dirbase == b.rootClus)
  {
  }

  /** An accepted BPB that is not well formed: twice the FAT size wraps to 0, so the data area starts inside the FAT. */
  lemma WrappedIsAccepted()
    ensures var b := Bpb(4096, 1, 1, 2, 0, 70000, 0x8000_0000, 2, 1);
            && Analyse(b, 0, 4096).Accepted? && !InBounds(b, 0, 4096) && !Analyse(b, 0, 4096).g.WellFormed()
            && Analyse(b, 0, 4096).g.database < Analyse(b, 0, 4096).g.fatbase + Analyse(b, 0, 4096).g.fsize
  {
  }

  lemma CeilingFits(need: int, n: int, ss: int)
    requires SectorSize(ss) && 0 <= need && n >= SDiv(need + ss - 1, ss)
    ensures need <= SMul(n, ss)
  {
    SectorSplit(need + ss - 1, ss);
    RunFits(0, 1, ss);
    assert need <= SMul(SDiv(need + ss - 1, ss), ss);
    if n > SDiv(need + ss - 1, ss) { RunFits(SDiv(need + ss - 1, ss), n, ss); }
  }

  lemma CountBelow(a: int, b: int, cs: int)
    requires ClusterSize(cs) && b <= a
    ensures CDiv(b, cs) <= CDiv(a, cs)
    ensures 0 <= b ==> 0 <= CDiv(b, cs) <= b
  {
  }

  // ---------- find_volume ----------

  const FSI_LEADSIG: nat := 0
  const FSI_STRUCSIG: nat := 484
  const FSI_FREE_COUNT: nat := 488
  const FSI_NXT_FREE: nat := 492

  predicate Readable(d: Medium, ss: nat) {
    SectorSize(ss) && |d| <= 0xFFFF_FFFF && forall s :: 0 <= s < |d| ==> |d[s]| == ss
  }

  function KindAt(d: Medium, ss: nat, s: dword): BootKind
    requires Readable(d, ss)
  {
    if s < |d| then Kind(d[s]) else ReadError
  }

  /** First sector of the i-th partition of a partition table, 0 if there is none. */
  function Partition(w: seq<byte>, i: nat): dword
    requires |w| >= 512 && i < 4
  {
    if w[MBR_TABLE + i * SZ_PTE + 4] == 0 then 0 else LdDword(w, MBR_TABLE + i * SZ_PTE + 8)
  }

  /** Where an entry of the partition table lies. */
  lemma PartitionInBytes(w: seq<byte>, i: nat)
    requires |w| >= 512 && i < 4
    ensures var at := 446 + 16 * i;
            Partition(w, i) as int == if w[at + 4] == 0 then 0
                                      else w[at + 8] as int + w[at + 9] as int * 0x100 + w[at + 10] as int * 0x1_0000
                                           + w[at + 11] as int * 0x100_0000
  {
    LittleEndian(w, 446 + 16 * i + 8);
  }

  function PartitionKind(d: Medium, ss: nat, i: nat): BootKind
    requires Readable(d, ss) && |d| > 0 && i < 4
  {
    if Partition(d[0], i) == 0 then NoBoot else KindAt(d, ss, Partition(d[0], i))
  }

  datatype Volume = At(bsect: dword) | Nowhere | Unreadable

  function Other(k: BootKind): Volume {
    if k == ReadError then Unreadable else Nowhere
  }

  /** The first FAT volume among the partitions from the i-th on. */
  function FromPartition(d: Medium, ss: nat, i: nat): Volume
    requires Readable(d, ss) && |d| > 0 && i < 4
    decreases 4 - i
  {
    if PartitionKind(d, ss, i) == FatBoot then At(Partition(d[0], i))
    else if i == 3 then Other(PartitionKind(d, ss, i))
    else FromPartition(d, ss, i + 1)
  }

  /** Where the FAT volume of a drive begins: at sector 0, or in a partition. */
  function VolumeOf(d: Medium, ss: nat): Volume
    requires Readable(d, ss)
  {
    match KindAt(d, ss, 0)
    case FatBoot => At(0)
    case OtherBoot => FromPartition(d, ss, 0)
    case k => Other(k)
  }

  /** The i-th partition starts at b with a FAT boot sector. */
  predicate IsVolume(d: Medium, i: nat, b: dword)
    requires |d| > 0 && i < 4 && forall s :: 0 <= s < |d| ==> |d[s]| >= 512
  {
    Partition(d[0], i) == b && 0 < b < |d| && Kind(d[b]) == FatBoot
  }

  /** The volume of the k-th partition at b is the first one, from the i-th partition on. */
  predicate IsFirstVolume(d: Medium, i: nat, k: nat, b: dword)
    requires |d| > 0 && forall s :: 0 <= s < |d| ==> |d[s]| >= 512
  {
    i <= k < 4 && IsVolume(d, k, b) && forall j :: i <= j < k ==> !IsVolume(d, j, Partition(d[0], j))
  }

  /** The volume is at sector 0, or in the first partition that starts with a FAT boot sector; if there is none, the
      last one looked at says whether the drive failed. */
  lemma VolumeIsFirst(d: Medium, ss: nat)
    requires Readable(d, ss) && |d| > 0
    ensures Kind(d[0]) == FatBoot ==> VolumeOf(d, ss) == At(0)
    ensures Kind(d[0]) == NoBoot ==> VolumeOf(d, ss) == Nowhere
    ensures Kind(d[0]) == OtherBoot ==>
      match VolumeOf(d, ss)
      case At(b) => exists k :: IsFirstVolume(d, 0, k, b)
      case v =>
        && (forall j :: 0 <= j < 4 ==> !IsVolume(d, j, Partition(d[0], j)))
        && (v == Unreadable <==> Partition(d[0], 3) >= |d|)
  {
    hide Kind, Partition, IsFirstVolume, IsVolume;
    if Kind(d[0]) == OtherBoot { FirstOfFour(d, ss, 0); }
  }

  lemma {:induction false} FirstOfFour(d: Medium, ss: nat, i: nat)
    requires Readable(d, ss) && |d| > 0 && i < 4
    ensures match FromPartition(d, ss, i)
            case At(b) => exists k :: IsFirstVolume(d, i, k, b)
            case v =>
              && (forall j :: i <= j < 4 ==> !IsVolume(d, j, Partition(d[0], j)))
              && (v == Unreadable <==> Partition(d[0], 3) >= |d|)
    decreases 4 - i
  {
    hide Partition, IsVolume, FromPartition;
    LookOn(d, ss, i);
    if IsVolume(d, i, Partition(d[0], i)) {
      assert IsFirstVolume(d, i, i, Partition(d[0], i));
    } else if i < 3 {
      FirstOfFour(d, ss, i + 1);
      if FromPartition(d, ss, i).At? {
        var b := FromPartition(d, ss, i).bsect;
        var k :| IsFirstVolume(d, i + 1, k, b);
        assert IsFirstVolume(d, i, k, b);
      }
    }
  }

  lemma LookOn(d: Medium, ss: nat, i: nat)
    requires Readable(d, ss) && |d| > 0 && i < 4
    ensures FromPartition(d, ss, i)
            == if IsVolume(d, i, Partition(d[0], i)) then At(Partition(d[0], i))
               else if i < 3 then FromPartition(d, ss, i + 1)
               else if Partition(d[0], 3) >= |d| then Unreadable else Nowhere
  {
    hide Partition, Kind;
    var b := Partition(d[0], i);
    if b < |d| { KindInBytes(d[b]); }
  }

  /** The FSINFO sector: its three signatures. */
  lemma InfoInBytes(w: seq<byte>)
    requires |w| >= 512
    ensures FsInfoValid(w) <==>
      && w[510..512] == [0x55, 0xAA] && w[..4] == [0x52, 0x52, 0x61, 0x41] && w[484..488] == [0x72, 0x72, 0x41, 0x61]
  {
    assert w[510..512] == [w[510], w[511]];
    assert w[..4] == [w[0], w[1], w[2], w[3]] && w[484..488] == [w[484], w[485], w[486], w[487]];
  }

  predicate FsInfoValid(w: seq<byte>)
    requires |w| >= 512
  {
    LdWord(w, BS_55AA) == SIGNATURE && LdDword(w, FSI_LEADSIG) == 0x41615252 && LdDword(w, FSI_STRUCSIG) == 0x61417272
  }

  datatype Mounted = Mounted(g: Geometry, freeClust: dword, lastClust: dword, fsiFlag: byte)

  /** The volume as mounted: geometry and allocation hints. */
  function MountOf(d: Medium, ss: nat, bsect: dword, g: Geometry, b: Bpb): Mounted
    requires Readable(d, ss)
  {
    if g.fsType == Fat32 && b.fsInfo == 1 && Wrap(bsect + 1) < |d| then
      var w := d[Wrap(bsect + 1)];
      if FsInfoValid(w) then Mounted(g, LdDword(w, FSI_FREE_COUNT), LdDword(w, FSI_NXT_FREE), 0)
      else Mounted(g, UNKNOWN, UNKNOWN, 0)
    else
      Mounted(g, UNKNOWN, UNKNOWN, 0x80)
  }

  /** The hints of a mount: from FSINFO behind the boot sector on FAT32, if the BPB says so; unknown otherwise. */
  lemma HintsInBytes(d: Medium, ss: nat, bsect: dword, g: Geometry, b: Bpb)
    requires Readable(d, ss)
    ensures var m, at := MountOf(d, ss, bsect, g, b), (bsect + 1) % 0x1_0000_0000;
            && m.g == g
            && if g.fsType == Fat32 && b.fsInfo == 1 && at < |d| then
                 && m.fsiFlag == 0 && |d[at]| >= 512
                 && if && d[at][510..512] == [0x55, 0xAA] && d[at][..4] == [0x52, 0x52, 0x61, 0x41]
                       && d[at][484..488] == [0x72, 0x72, 0x41, 0x61]
                    then m.freeClust == LdDword(d[at], 488) && m.lastClust == LdDword(d[at], 492)
                    else m.freeClust == m.lastClust == 0xFFFF_FFFF
               else m.fsiFlag == 0x80 && m.freeClust == m.lastClust == 0xFFFF_FFFF
  {
    hide FsInfoValid, LdDword;
    var at := (bsect + 1) % 0x1_0000_0000;
    if at < |d| { InfoInBytes(d[at]); }
  }

  datatype MountResult = Done(m: Mounted) | Failed(res: FResult)

  /** The outcome of a mount of a medium that can be read. */
  function Mount(d: Medium, ss: nat): MountResult
    requires Readable(d, ss)
  {
    match VolumeOf(d, ss)
    case Unreadable => Failed(FrDiskErr)
    case Nowhere => Failed(FrNoFilesystem)
    case At(bsect) =>
      if bsect >= |d| then Failed(FrDiskErr)
      else
        var b := ReadBpb(d[bsect]);
        match Analyse(b, bsect, ss)
        case Refused => Failed(FrNoFilesystem)
        case Accepted(g) => Done(MountOf(d, ss, bsect, g, b))
  }

  /** The outcome of a mount, whatever sector 0 is: what the analysis of the boot sector found first says, or why none
      was found. */
  lemma MountOutcome(d: Medium, ss: nat, k: nat, b: dword)
    requires Readable(d, ss) && |d| > 0
    ensures Kind(d[0]) == NoBoot ==> Mount(d, ss) == Failed(FrNoFilesystem)
    ensures Kind(d[0]) == OtherBoot && (forall j :: 0 <= j < 4 ==> !IsVolume(d, j, Partition(d[0], j))) ==>
      Mount(d, ss) == Failed(if Partition(d[0], 3) >= |d| then FrDiskErr else FrNoFilesystem)
    ensures (Kind(d[0]) == OtherBoot && IsFirstVolume(d, 0, k, b)) || (Kind(d[0]) == FatBoot && b == 0) ==>
      b < |d| && Mount(d, ss) == match Analyse(ReadBpb(d[b]), b, ss)
                                 case Refused => Failed(FrNoFilesystem)
                                 case Accepted(g) => Done(MountOf(d, ss, b, g, ReadBpb(d[b])))
  {
    hide Kind, Partition, IsVolume, IsFirstVolume, Analyse, ReadBpb, MountOf, VolumeOf, FromPartition;
    VolumeIsFirst(d, ss);
    if Kind(d[0]) == OtherBoot {
      if IsFirstVolume(d, 0, k, b) { OneFirst(d, k, b); }
      match VolumeOf(d, ss) {
        case At(c) =>
          var m: nat :| IsFirstVolume(d, 0, m, c);
          OneFirst(d, m, c);
          if IsFirstVolume(d, 0, k, b) { FirstTwice(d, k, b, m, c); }
        case _ =>
      }
    }
  }

  lemma FirstTwice(d: Medium, k: nat, b: dword, m: nat, c: dword)
    requires |d| > 0 && forall s :: 0 <= s < |d| ==> |d[s]| >= 512
    requires IsFirstVolume(d, 0, k, b) && IsFirstVolume(d, 0, m, c)
    ensures k == m && b == c
  {
    hide Partition, Kind;
  }

  lemma OneFirst(d: Medium, k: nat, b: dword)
    requires |d| > 0 && (forall s :: 0 <= s < |d| ==> |d[s]| >= 512) && IsFirstVolume(d, 0, k, b)
    ensures k < 4 && IsVolume(d, k, b) && b == Partition(d[0], k) && b < |d|
  {
  }

  /** check_fs */
  method CheckFs(drive: Drive, win: array<byte>, sect: dword) returns (k: BootKind)
    requires drive.Valid() && win.Length == drive.ss
    modifies win
    ensures k != ReadError ==> sect < |drive.sectors| && win[..] == drive.sectors[sect] && k == Kind(win[..])
    ensures drive.reliable ==> k == KindAt(drive.sectors, drive.ss, sect)
  {
    var ok := drive.ReadSector(win, sect);
    k := if ok then Kind(win[..]) else ReadError;
  }

  /** The search for the boot sector: sector 0, then the partitions in turn. */
  method FindBoot(drive: Drive, win: array<byte>) returns (k: BootKind, bsect: dword)
    requires drive.Valid() && win.Length == drive.ss
    modifies win
    ensures k == FatBoot ==> bsect < |drive.sectors| && win[..] == drive.sectors[bsect]
    ensures drive.reliable ==> VolumeOf(drive.sectors, drive.ss) == if k == FatBoot then At(bsect) else Other(k)
  {
    hide Kind, LdDword, LdWord;
    ghost var d, ss := drive.sectors, drive.ss;
    bsect := 0;
    k := CheckFs(drive, win, bsect);
    if k == OtherBoot {
      var br: seq<dword> := [Partition(win[..], 0), Partition(win[..], 1), Partition(win[..], 2),
        Partition(win[..], 3)];
      var i := 0;
      while true
        invariant 0 <= i < 4 && forall j :: 0 <= j < 4 ==> br[j] == Partition(d[0], j)
        invariant drive.reliable ==> VolumeOf(d, ss) == FromPartition(d, ss, i)
        decreases 4 - i
      {
        bsect := br[i];
        if bsect != 0 {
          k := CheckFs(drive, win, bsect);
        } else {
          k := NoBoot;
        }
        if k == FatBoot || i == 3 { break; }
        i := i + 1;
      }
    }
  }

  /** The allocation hints of a FAT32 volume. */
  method ReadHints(drive: Drive, win: array<byte>, bsect: dword, g: Geometry, b: Bpb) returns (m: Mounted)
    requires drive.Valid() && win.Length == drive.ss
    modifies win
    ensures m.g == g && (drive.reliable ==> m == MountOf(drive.sectors, drive.ss, bsect, g, b))
  {
    hide FsInfoValid, LdDword;
    m := Mounted(g, UNKNOWN, UNKNOWN, 0x80);
    if g.fsType == Fat32 && b.fsInfo == 1 {
      var ok := drive.ReadSector(win, Wrap(bsect + 1));
      if ok {
        m := m.(fsiFlag := 0);
        if FsInfoValid(win[..]) {
          m := m.(freeClust := LdDword(win[..], FSI_FREE_COUNT), lastClust := LdDword(win[..], FSI_NXT_FREE));
        }
      }
    }
  }

  /** The search for the boot sector and its analysis. */
  method FindVolume(drive: Drive, win: array<byte>) returns (r: MountResult)
    requires drive.Valid() && win.Length == drive.ss
    modifies win
    ensures drive.reliable ==> r == Mount(drive.sectors, drive.ss)
    ensures r.Done? ==>
      exists bsect :: 0 <= bsect < |drive.sectors|
        && Analyse(ReadBpb(drive.sectors[bsect]), bsect, drive.ss) == Accepted(r.m.g)
  {
    hide Analyse, ReadBpb, Kind, VolumeOf, MountOf;
    var k, bsect := FindBoot(drive, win);
    if k == ReadError { return Failed(FrDiskErr); }
    if k != FatBoot { return Failed(FrNoFilesystem); }
    var b := ReadBpb(win[..]);
    var a := Analyse(b, bsect, drive.ss);
    if a.Refused? { return Failed(FrNoFilesystem); }
    var m := ReadHints(drive, win, bsect, a.g, b);
    r := Done(m);
  }
}
