/** The entries of a FAT as numbers packed into a byte string. */
module PackedTable {
  import opened Bytes
  import opened Layout

  /** Entry c is the value get_fat would report for an in-range cluster. */
  type Table = seq<nat>

  /** First byte of an entry. */
  function EntryOfs(t: FatType, c: nat): nat {
    match t
    case Fat12 => c + c / 2
    case Fat16 => 2 * c
    case Fat32 => 4 * c
  }

  function EntryLen(t: FatType): nat {
    if t == Fat32 then 4 else 2
  }

  predicate Fits(t: FatType, b: seq<byte>, c: int) {
    0 <= c && EntryOfs(t, c) + EntryLen(t) <= |b|
  }

  /** The two or four bytes of an entry as one little-endian number. */
  function Raw(t: FatType, b: seq<byte>, c: nat): dword
    requires Fits(t, b, c)
  {
    if t == Fat32 then LdDword(b, 4 * c) else LdWord(b, EntryOfs(t, c))
  }

  function Entry(t: FatType, b: seq<byte>, c: nat): (r: nat)
    requires Fits(t, b, c)
    ensures r <= 0x0FFF_FFFF
  {
    match t
    case Fat12 => if c % 2 == 1 then Raw(t, b, c) / 0x10 else Raw(t, b, c) % 0x1000
    case Fat16 => Raw(t, b, c)
    case Fat32 => Raw(t, b, c) % 0x1000_0000
  }

  /** Where the digits of an entry lie. */
  lemma EntryInBytes(t: FatType, b: seq<byte>, c: nat)
    requires Fits(t, b, c)
    ensures match t
            case Fat12 =>
              var o := c * 3 / 2;
              && o + 1 < |b|
              && Entry(t, b, c) == if c % 2 == 0 then b[o] as int + b[o + 1] as int % 16 * 0x100
                                   else b[o] as int / 16 + b[o + 1] as int * 16
            case Fat16 => 2 * c + 1 < |b| && Entry(t, b, c) == b[2 * c] as int + b[2 * c + 1] as int * 0x100
            case Fat32 =>
              && 4 * c + 3 < |b|
              && Entry(t, b, c) == b[4 * c] as int + b[4 * c + 1] as int * 0x100 + b[4 * c + 2] as int * 0x1_0000
                                   + b[4 * c + 3] as int % 16 * 0x100_0000
  {
    if t == Fat12 {
      LowBits(b[c * 3 / 2], b[c * 3 / 2 + 1]);
      HighBits(b[c * 3 / 2], b[c * 3 / 2 + 1]);
    } else if t == Fat32 {
      LowDigits(b[4 * c], b[4 * c + 1], b[4 * c + 2], b[4 * c + 3]);
    }
  }

  lemma HighBits(lo: byte, hi: byte)
    ensures (lo as int + hi as int * 0x100) / 0x10 == lo as int / 0x10 + hi as int * 0x10
  {
  }

  lemma LowDigits(b0: byte, b1: byte, b2: byte, b3: byte)
    ensures (b0 as int + b1 as int * 0x100 + b2 as int * 0x1_0000 + b3 as int * 0x100_0000) % 0x1000_0000
            == b0 as int + b1 as int * 0x100 + b2 as int * 0x1_0000 + b3 as int % 16 * 0x100_0000
  {
    var q, r: int := b3 as int / 16, b3 as int % 16;
    var low: int := b0 as int + b1 as int * 0x100 + b2 as int * 0x1_0000;
    assert low + b3 as int * 0x100_0000 == 0x1000_0000 * q + (low + r * 0x100_0000);
  }

  /** A value as an entry of the given type can hold it. */
  function Cut(t: FatType, v: dword): nat {
    match t
    case Fat12 => v % 0x1000
    case Fat16 => v % 0x1_0000
    case Fat32 => v % 0x1000_0000
  }

  /** Bitwise or of two half bytes. */
  function Or4(a: int, b: int): (r: int)
    requires 0 <= a < 16 && 0 <= b < 16
    ensures 0 <= r < 16
    ensures a == 0 ==> r == b
  {
    (if a / 8 == 1 || b / 8 == 1 then 8 else 0) + (if a / 4 % 2 == 1 || b / 4 % 2 == 1 then 4 else 0)
    + (if a / 2 % 2 == 1 || b / 2 % 2 == 1 then 2 else 0) + (if a % 2 == 1 || b % 2 == 1 then 1 else 0)
  }

  /** The first byte put_fat stores for FAT12, given the byte already there. */
  function Low12(c: nat, prev: byte, v: dword): byte {
    if c % 2 == 1 then prev % 0x10 + v % 0x10 * 0x10 else v % 0x100
  }

  /** The second byte put_fat stores for FAT12. */
  function High12(c: nat, prev: byte, v: dword): byte {
    if c % 2 == 1 then v / 0x10 % 0x100 else prev - prev % 0x10 + v / 0x100 % 0x10
  }

  /** The number put_fat stores for FAT32: the top four bits already there are or-ed in. */
  function Merge32(prev: dword, v: dword): dword {
    v % 0x1000_0000 + 0x1000_0000 * Or4(v / 0x1000_0000, prev / 0x1000_0000)
  }

  /** The byte string after a store to entry c. */
  function PutEntry(t: FatType, b: seq<byte>, c: nat, v: dword): (r: seq<byte>)
    requires Fits(t, b, c)
    ensures |r| == |b|
  {
    match t
    case Fat12 =>
      var o := c + c / 2;
      b[o := Low12(c, b[o], v)][o + 1 := High12(c, b[o + 1], v)]
    case Fat16 => PutWord(b, 2 * c, v)
    case Fat32 => PutDword(b, 4 * c, Merge32(Raw(t, b, c), v))
  }

  lemma PutRaw(t: FatType, b: seq<byte>, c: nat, v: dword, k: nat)
    requires t != Fat12 && Fits(t, b, c) && Fits(t, b, k)
    ensures Raw(t, PutEntry(t, b, c, v), k)
            == if k != c then Raw(t, b, k) else if t == Fat16 then v % 0x1_0000 else Merge32(Raw(t, b, c), v)
  {
  }

  lemma Pack12Odd(p: int, h: int, l: int, v: nat)
    requires 0 <= p < 0x10 && h == v / 0x10 % 0x100 && l == v % 0x10
    ensures (h * 0x100 + p + l * 0x10) / 0x10 == v % 0x1000
    ensures (p + l * 0x10) % 0x10 == p
  {
    var q := v / 0x10 / 0x100;
    assert v == q * 0x1000 + h * 0x10 + l;
  }

  lemma Remainder4096(n: int, q: int, r: int)
    requires n == q * 0x1000 + r && 0 <= r < 0x1000
    ensures n % 0x1000 == r
  {
  }

  lemma Pack12Even(u: int, h: int, l: int, v: nat)
    requires 0 <= u < 0x10 && h == v / 0x100 % 0x10 && l == v % 0x100
    ensures ((u * 0x10 + h) * 0x100 + l) % 0x1000 == v % 0x1000
    ensures (u * 0x10 + h) / 0x10 == u
  {
    var q := v / 0x100 / 0x10;
    assert v == q * 0x1000 + h * 0x100 + l;
    assert v % 0x1000 == h * 0x100 + l by { Remainder4096(v, q, h * 0x100 + l); }
    Remainder4096((u * 0x10 + h) * 0x100 + l, u, h * 0x100 + l);
  }

  lemma Pack12(c: nat, p0: byte, p1: byte, v: dword)
    ensures var w := (High12(c, p1, v) as int) * 0x100 + Low12(c, p0, v) as int;
            (if c % 2 == 1 then w / 0x10 else w % 0x1000) == v % 0x1000
    ensures c % 2 == 1 ==> Low12(c, p0, v) % 0x10 == p0 % 0x10
    ensures c % 2 == 0 ==> High12(c, p1, v) / 0x10 == p1 / 0x10
  {
    if c % 2 == 1 {
      Pack12Odd(p0 % 0x10, v / 0x10 % 0x100, v % 0x10, v);
    } else {
      Pack12Even(p1 / 0x10, v / 0x100 % 0x10, v % 0x100, v);
    }
  }

  /** A FAT12 entry shares a byte with at most one neighbour, and leaves the neighbour's half alone. */
  lemma Put12(b: seq<byte>, c: nat, v: dword, k: nat)
    requires Fits(Fat12, b, c) && Fits(Fat12, b, k)
    ensures Entry(Fat12, PutEntry(Fat12, b, c, v), k) == if k == c then v % 0x1000 else Entry(Fat12, b, k)
  {
    var o, p := c + c / 2, k + k / 2;
    var r := PutEntry(Fat12, b, c, v);
    Pack12(c, b[o], b[o + 1], v);
    if k == c {
    } else if k == c + 1 && c % 2 == 0 {
      Upper12(r, b, k);
    } else if c == k + 1 && k % 2 == 0 {
      Lower12(r, b, k);
    } else {
      assert p + 1 < o || o + 1 < p;
    }
  }

  lemma Upper12(r: seq<byte>, b: seq<byte>, k: nat)
    requires Fits(Fat12, b, k) && |r| == |b| && k % 2 == 1
    requires r[k + k / 2] / 0x10 == b[k + k / 2] / 0x10 && r[k + k / 2 + 1] == b[k + k / 2 + 1]
    ensures Entry(Fat12, r, k) == Entry(Fat12, b, k)
  {
    var p := k + k / 2;
    assert LdWord(r, p) / 0x10 == (r[p + 1] as int) * 0x10 + r[p] / 0x10;
  }

  lemma Lower12(r: seq<byte>, b: seq<byte>, k: nat)
    requires Fits(Fat12, b, k) && |r| == |b| && k % 2 == 0
    requires r[k + k / 2] == b[k + k / 2] && r[k + k / 2 + 1] % 0x10 == b[k + k / 2 + 1] % 0x10
    ensures Entry(Fat12, r, k) == Entry(Fat12, b, k)
  {
    var p := k + k / 2;
    LowBits(r[p], r[p + 1]);
    LowBits(b[p], b[p + 1]);
  }

  lemma LowBits(lo: byte, hi: byte)
    ensures (lo as int + hi as int * 0x100) % 0x1000 == lo as int + hi as int % 0x10 * 0x100
  {
    var q, r: int := hi as int / 0x10, hi as int % 0x10;
    assert lo as int + hi as int * 0x100 == 0x1000 * q + (lo as int + r * 0x100);
  }

  /** A store is read back cut to the entry's width, and no other entry changes. */
  lemma PutThenGet(t: FatType, b: seq<byte>, c: nat, v: dword, k: nat)
    requires Fits(t, b, c) && Fits(t, b, k)
    ensures Entry(t, PutEntry(t, b, c, v), k) == if k == c then Cut(t, v) else Entry(t, b, k)
    ensures Cut(t, v) == match t case Fat12 => v % 0x1000 case Fat16 => v % 0x1_0000 case Fat32 => v % 0x1000_0000
  {
    hide PutEntry, Raw, Merge32, Fits;
    if t == Fat12 {
      Put12(b, c, v, k);
    } else {
      PutRaw(t, b, c, v, k);
      MergedLow(Raw(t, b, c), v);
    }
  }

  lemma MergedLow(prev: dword, v: dword)
    ensures Merge32(prev, v) % 0x1000_0000 == v % 0x1000_0000
  {
    hide Or4;
    var m := Or4(v / 0x1000_0000, prev / 0x1000_0000);
    assert 0 <= m < 16;
  }

  /** On FAT32 the top four bits stored in an entry survive every 28-bit store. */
  lemma TopBitsSurvive(b: seq<byte>, c: nat, v: dword, k: nat)
    requires Fits(Fat32, b, c) && Fits(Fat32, b, k) && v <= 0x0FFF_FFFF
    ensures Raw(Fat32, PutEntry(Fat32, b, c, v), k) / 0x1000_0000 == Raw(Fat32, b, k) / 0x1000_0000
    ensures PutEntry(Fat32, b, c, v)[4 * k + 3] / 16 == b[4 * k + 3] / 16
  {
    PutRaw(Fat32, b, c, v, k);
    TopDigit(b, k);
    TopDigit(PutEntry(Fat32, b, c, v), k);
  }

  lemma TopDigit(b: seq<byte>, k: nat)
    requires Fits(Fat32, b, k)
    ensures Raw(Fat32, b, k) / 0x1000_0000 == b[4 * k + 3] as int / 16
  {
    var low: int := b[4 * k] as int + b[4 * k + 1] as int * 0x100 + b[4 * k + 2] as int * 0x1_0000;
    assert Raw(Fat32, b, k) == low + b[4 * k + 3] as int * 0x100_0000;
  }
}

/** The FAT as a table of numbers, decoded from a medium. */
module FatTable {
  import opened Bytes
  import opened Units
  import opened Layout
  import opened Disk
  import opened PackedTable

  predicate MediumOk(d: Medium, g: Geometry) {
    && g.WellFormed() && SectorSize(g.ss) && ClusterSize(g.csize)
    && g.DataEnd() <= |d| <= 0xFFFF_FFFF
    && forall s :: 0 <= s < |d| ==> |d[s]| == g.ss
  }

  predicate Region(d: Medium, base: int, n: int, ss: int) {
    && SectorSize(ss) && 0 <= base && 0 <= n && base + n <= |d|
    && forall s :: 0 <= s < |d| ==> |d[s]| == ss
  }

  /** The bytes of n consecutive sectors. */
  function RegionBytes(d: Medium, base: int, n: int, ss: int): (b: seq<byte>)
    requires Region(d, base, n, ss)
    ensures |b| == SMul(n, ss)
    ensures forall o :: 0 <= o < |b| ==> b[o] == d[base + SDiv(o, ss)][SMod(o, ss)]
  {
    seq(SMul(n, ss), o requires 0 <= o < SMul(n, ss) => d[base + SDiv(o, ss)][SMod(o, ss)])
  }

  lemma TableRegion(d: Medium, g: Geometry)
    requires MediumOk(d, g)
    ensures Region(d, g.fatbase, g.fsize, g.ss)
  {
  }

  /** The bytes of the first FAT copy. */
  function FatBytes(d: Medium, g: Geometry): (b: seq<byte>)
    requires MediumOk(d, g)
  {
    TableRegion(d, g);
    RegionBytes(d, g.fatbase, g.fsize, g.ss)
  }

  lemma EntryFits(g: Geometry, c: nat)
    requires g.WellFormed() && c < g.nFatent
    ensures EntryOfs(g.fsType, c) + EntryLen(g.fsType) <= SMul(g.fsize, g.ss)
  {
    hide SMul, EMod, EDiv, CMul, SectorSize, ClusterSize, Geometry.DataEnd, Geometry.FatEnd,
      Geometry.TypeMatchesCount;
  }

  function TableOf(d: Medium, g: Geometry): (t: Table)
    requires MediumOk(d, g)
    ensures |t| == g.nFatent
  {
    EntriesFit(d, g);
    seq(g.nFatent, c requires 0 <= c < g.nFatent && Fits(g.fsType, FatBytes(d, g), c) =>
      Entry(g.fsType, FatBytes(d, g), c))
  }

  lemma EntriesFit(d: Medium, g: Geometry)
    requires MediumOk(d, g)
    ensures forall c :: 0 <= c < g.nFatent ==> Fits(g.fsType, FatBytes(d, g), c)
  {
    forall c | 0 <= c < g.nFatent ensures Fits(g.fsType, FatBytes(d, g), c) {
      EntryFits(g, c);
    }
  }

  /** The bytes of the FAT are those of its sectors in turn. */
  lemma FatByte(d: Medium, g: Geometry, o: nat)
    requires MediumOk(d, g) && o < g.fsize * g.ss
    ensures |FatBytes(d, g)| == g.fsize * g.ss && 0 <= g.fatbase + o / g.ss < |d|
    ensures FatBytes(d, g)[o] == d[g.fatbase + o / g.ss][o % g.ss]
  {
    hide Geometry.WellFormed;
    TableRegion(d, g);
    ByUnitIsPlain(g.fsize, g.ss, g.csize);
    ByUnitIsPlain(o, g.ss, g.csize);
    RunByte(o, g.fsize, g.ss);
  }

  /** What the table says of a cluster, in bytes of the FAT. */
  lemma TableInBytes(d: Medium, g: Geometry, c: nat)
    requires MediumOk(d, g) && c < g.nFatent
    ensures var b, t := FatBytes(d, g), TableOf(d, g);
            match g.fsType
            case Fat12 =>
              var o := c * 3 / 2;
              && o + 1 < |b|
              && t[c] == if c % 2 == 0 then b[o] as int + b[o + 1] as int % 16 * 0x100
                         else b[o] as int / 16 + b[o + 1] as int * 16
            case Fat16 => 2 * c + 1 < |b| && t[c] == b[2 * c] as int + b[2 * c + 1] as int * 0x100
            case Fat32 =>
              && 4 * c + 3 < |b|
              && t[c] == b[4 * c] as int + b[4 * c + 1] as int * 0x100 + b[4 * c + 2] as int * 0x1_0000
                         + b[4 * c + 3] as int % 16 * 0x100_0000
  {
    hide Geometry.WellFormed, FatBytes, Entry, Fits;
    EntriesFit(d, g);
    EntryInBytes(g.fsType, FatBytes(d, g), c);
  }

  ghost predicate SameOutsideFat(d: Medium, e: Medium, g: Geometry) {
    |d| == |e| && forall s :: 0 <= s < |d| && !g.InFat(s) ==> d[s] == e[s]
  }


  /** put_fat then get_fat: the table of the new medium differs in the one entry, cut to its width. */
  lemma StoredTable(d: Medium, e: Medium, g: Geometry, c: nat, v: dword)
    requires MediumOk(d, g) && MediumOk(e, g) && c < g.nFatent
    requires Fits(g.fsType, FatBytes(d, g), c)
    requires FatBytes(e, g) == PutEntry(g.fsType, FatBytes(d, g), c, v)
    ensures TableOf(e, g) == TableOf(d, g)[c := Cut(g.fsType, v)]
  {
    hide Geometry.WellFormed, PutEntry, Entry, Fits;
    EntriesFit(d, g);
    forall k | 0 <= k < g.nFatent
      ensures TableOf(e, g)[k] == TableOf(d, g)[c := Cut(g.fsType, v)][k]
    {
      PutThenGet(g.fsType, FatBytes(d, g), c, v, k);
    }
  }

  /** A string of bytes stored inside one sector is stored inside the region. */
  lemma StoreInSector(d: Medium, base: int, n: int, ss: int, o: int, len: nat, data: Sector)
    requires Region(d, base, n, ss) && 0 <= o && 0 < len && o + len <= SMul(n, ss)
    requires SMod(o, ss) + len <= ss && |data| == ss
    requires forall j :: 0 <= j < ss && !(SMod(o, ss) <= j < SMod(o, ss) + len) ==>
      data[j] == d[base + SDiv(o, ss)][j]
    ensures var r := RegionBytes(d[base + SDiv(o, ss) := data], base, n, ss);
            var b := RegionBytes(d, base, n, ss);
            forall p :: 0 <= p < |b| ==>
              r[p] == if o <= p < o + len then data[p - o + SMod(o, ss)] else b[p]
  {
    var r := RegionBytes(d[base + SDiv(o, ss) := data], base, n, ss);
    var b := RegionBytes(d, base, n, ss);
    forall p | 0 <= p < |b|
      ensures r[p] == if o <= p < o + len then data[p - o + SMod(o, ss)] else b[p]
    {
      SectorSplit(o, ss);
      SectorSplit(p, ss);
      if o <= p < o + len {
        SectorSplitUnique(p, ss, SDiv(o, ss), p - o + SMod(o, ss));
      }
    }
  }
}
