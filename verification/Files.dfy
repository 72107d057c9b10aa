/** File objects: f_read, f_write, f_lseek and f_truncate on one open file. */
module Files {
  import opened Bytes
  import opened Units
  import opened Layout
  import opened Disk
  import opened PackedTable
  import opened FatTable
  import opened LogicalDisk
  import opened Volume
  import opened FatAccess
  import opened Chains
  import opened Allocation
  import opened ClusterOps
  import opened DataAccess
  import opened LinkMap
  import opened FileData
  import opened FileCursor

  class Fil {
    const fs: Fatfs
    const buf: array<byte>
    /** FA_READ, FA_WRITE, FA__DIRTY and FA__WRITTEN of the flag byte. */
    var canRead: bool
    var canWrite: bool
    var dirty: bool
    var written: bool
    /** The abort flag: FrOk, or the error that stopped the file. */
    var err: FResult
    var fptr: dword
    var fsize: dword
    var sclust: dword
    var clust: dword
    var dsect: dword
    var cltbl: array?<dword>
    /** The cluster chain of the file, and the other chains of the volume. */
    ghost var chain: Chain
    ghost var others: set<Chain>

    /** The file object names its chain and sectors of its own; nothing is said about a clean buffer. */
    ghost predicate Shell()
      reads `dirty, `sclust, `dsect, `chain, `others, buf, fs`winsect, fs`wflag, fs.drive, fs.win
      ensures Shell() ==> fs.Valid() && buf.Length == fs.g.ss && buf != fs.win
      ensures Shell() ==> InRange(fs.g, chain) && fs.g.DataEnd() <= |fs.Logical()|
    {
      && fs.Valid() && buf.Length == fs.g.ss && buf != fs.win
      && Linked(fs.g, fs.Table(), others, chain, sclust)
      && (dsect == 0 ==> !dirty)
      && (dsect != 0 ==> Own(fs.g, others, dsect) && dsect < |fs.Logical()|)
      && !Own(fs.g, others, fs.winsect)
    }

    /** The file object and the volume agree; nothing is said about the pointer. */
    ghost predicate Base()
      reads `dirty, `sclust, `dsect, `chain, `others, buf, fs`winsect, fs`wflag, fs.drive, fs.win
      ensures Base() ==> Shell()
    {
      Shell() && (dsect != 0 && !dirty ==> buf[..] == fs.Logical()[dsect])
    }

    /** The file as a sequence of sectors, the dirty buffer included. */
    ghost function Sectors(): (v: seq<Sector>)
      requires Shell()
      reads `dirty, `sclust, `dsect, `chain, `others, buf, fs`winsect, fs`wflag, fs.drive, fs.win
      ensures |v| == Span(fs.g, chain) && forall k :: 0 <= k < |v| ==> |v[k]| == fs.g.ss
    {
      SectorsInRange(fs.g, chain, fs.Logical());
      View(fs.g, chain, fs.Logical(), dirty, dsect, buf[..])
    }

    ghost predicate Cursor()
      requires fs.Valid()
      reads `fptr, `clust, `dsect, `chain, fs`winsect, fs`wflag, fs.drive, fs.win
    {
      CursorOk(fs.g, chain, fptr, clust, dsect)
    }

    /** The link map table is set and is the map of s. */
    ghost predicate Mapped(s: Chain)
      reads `cltbl, cltbl
    {
      && cltbl != null && (cltbl as object) != fs.win && (cltbl as object) != buf
      && Maps(cltbl[..], s) && InRange(fs.g, s) && forall i :: 0 <= i < |s| ==> s[i] < 0x1_0000_0000
    }

    /** A link map table, if set, is the map of the chain. */
    ghost predicate MapOk()
      reads `cltbl, `chain, cltbl
    {
      cltbl != null ==> Mapped(chain)
    }

    /** The table serves every write: it is the map of the chain, or it and the file have at most one cluster. */
    ghost predicate MapHeld()
      reads `cltbl, `chain, cltbl
    {
      cltbl != null ==> exists s :: Mapped(s) && (s == chain || (|s| <= 1 && |chain| <= 1))
    }

    /** The table serves every seek: it maps a chain that has been cut since, if at all, or it was made while the file
        had no chain and the file has at most its first cluster now. */
    ghost predicate MapSeeks()
      reads `cltbl, `chain, cltbl
    {
      cltbl != null ==> exists s :: Mapped(s) && (chain <= s || (s == [] && |chain| <= 1))
    }

    /** The table serves every read: the same, or the file has at most one cluster, which is found without it. */
    ghost predicate MapReads()
      reads `cltbl, `chain, cltbl
    {
      cltbl != null ==> exists s :: Mapped(s) && (|chain| <= 1 || chain <= s)
    }

    /** The table serves a write of n bytes at the pointer: any write, or, after the file has been cut, one that ends
        in the clusters that are left (in the first one, if none is left). */
    ghost predicate MapServes(n: int)
      requires SectorSize(fs.g.ss) && ClusterSize(fs.g.csize)
      reads `fptr, `cltbl, `chain, cltbl
    {
      MapHeld() || (MapReads() && fptr + n <= if chain == [] then ClusterBytes(fs.g) else Capacity(fs.g, chain))
    }

    /** A valid file object but for the link map. */
    ghost predicate Placed()
      reads `fptr, `fsize, `clust, `dirty, `sclust, `dsect, `chain, `others, buf,
            fs`winsect, fs`wflag, fs.drive, fs.win
    {
      Base() && Cursor() && fptr <= fsize <= Capacity(fs.g, chain)
    }

    ghost predicate Valid()
      reads `fptr, `fsize, `clust, `dirty, `sclust, `dsect, `chain, `others, `cltbl, cltbl, buf,
            fs`winsect, fs`wflag, fs.drive, fs.win
    {
      && Base() && Cursor() && MapOk()
      && fptr <= fsize <= Capacity(fs.g, chain)
    }

    /** What the file holds: a plain byte string. */
    ghost function Bytes(): (r: seq<byte>)
      requires Shell() && fsize <= Capacity(fs.g, chain)
      reads `fsize, `dirty, `sclust, `dsect, `chain, `others, buf, fs`winsect, fs`wflag, fs.drive, fs.win
      ensures |r| == fsize
    {
      Content(Sectors(), fs.g.ss, fsize)
    }

    /** The file object as f_open leaves it, for a directory entry that names sclust and fsize. */
    constructor (fs: Fatfs, canRead: bool, canWrite: bool, sclust: dword, fsize: dword,
                 ghost chain: Chain, ghost others: set<Chain>)
      requires fs.Valid() && Linked(fs.g, fs.Table(), others, chain, sclust)
      requires fsize <= Capacity(fs.g, chain) && !Own(fs.g, others, fs.winsect)
      ensures Valid() && fresh(buf) && fptr == 0 && err == FrOk && cltbl == null
      ensures !dirty && !written && dsect == 0
      ensures this.fs == fs && this.fsize == fsize && this.sclust == sclust
      ensures this.chain == chain && this.others == others
      ensures this.canRead == canRead && this.canWrite == canWrite
    {
      hide Geometry.WellFormed, FatBytes, TableOf, Overlay, Mirrored, MediumOk, Fatfs.Valid, Fatfs.Logical,
        View, Linked, SectorNo, Own, Maps;
      EmptyCursor(fs.g, chain, 0, 0);
      this.fs := fs;
      this.buf := new byte[fs.g.ss](_ => 0);
      this.canRead, this.canWrite, this.dirty, this.written := canRead, canWrite, false, false;
      this.err := FrOk;
      this.fptr, this.fsize, this.sclust, this.clust, this.dsect := 0, fsize, sclust, 0, 0;
      this.cltbl := null;
      this.chain, this.others := chain, others;
    }
  }

  /** The table of a file is the map of one chain only. */
  lemma OneMapped(fp: Fil, s: Chain, r: Chain)
    requires fp.Mapped(s) && fp.Mapped(r)
    ensures s == r
  {
    NoClusterZero(fp.fs.g, s);
    NoClusterZero(fp.fs.g, r);
    OneMap(fp.cltbl[..], s, r);
  }

  lemma NoClusterZero(g: Geometry, s: Chain)
    requires InRange(g, s)
    ensures 0 !in s
  {
  }
}
