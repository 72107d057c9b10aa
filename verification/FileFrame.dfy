/** What the operations on an open file keep of everything else. */
module FileFrame {
  import opened Bytes
  import opened Units
  import opened Layout
  import opened Disk
  import opened PackedTable
  import opened FatTable
  import opened LogicalDisk
  import opened Volume
  import opened Chains
  import opened Allocation
  import opened ClusterOps
  import opened FileData
  import opened FileCursor
  import opened Files

  /** No other file and nothing outside the FAT and the file's own data has changed. */
  twostate predicate OthersKept(fp: Fil)
    reads fp`chain, fp`others, fp.fs`winsect, fp.fs`wflag, fp.fs.drive, fp.fs.win
  {
    && old(fp.fs.Valid()) && fp.fs.Valid() && fp.others == old(fp.others)
    && Untouched(fp.fs.g, fp.others, old(fp.chain), fp.chain, old(fp.fs.Logical()), fp.fs.Logical())
  }

  twostate lemma NothingTouched(fp: Fil)
    requires old(fp.fs.Valid()) && fp.fs.Valid() && fp.fs.Logical() == old(fp.fs.Logical())
    requires fp.chain == old(fp.chain) && fp.others == old(fp.others)
    ensures OthersKept(fp)
  {
    hide Untouched, Fatfs.Valid, Fatfs.Logical;
    UntouchedSame(fp.fs.g, fp.others, fp.chain, fp.fs.Logical());
  }

  /** The chain may have grown at the end by clusters that were free; the other chains and files of the volume
      are untouched. */
  twostate predicate Extended(fp: Fil)
    reads fp`dirty, fp`sclust, fp`dsect, fp`chain, fp`others, fp.buf,
          fp.fs`winsect, fp.fs`wflag, fp.fs`freeClust, fp.fs.drive, fp.fs.win
  {
    && old(fp.Base()) && fp.Base()
    && old(fp.chain) <= fp.chain && fp.others == old(fp.others)
    && (old(fp.chain) != [] ==> fp.sclust == old(fp.sclust))
    && FreeCount(fp.fs.Table()) + |fp.chain| == old(FreeCount(fp.fs.Table()) + |fp.chain|)
    && Promises(fp.fs) && OthersKept(fp)
  }

  /** What Extended speaks about as values, so that steps can be chained. */
  datatype Snapshot = Snapshot(chain: Chain, others: set<Chain>, sclust: dword, free: nat, disk: Medium,
                       countOk: bool, orderOk: bool, agree: bool)

  ghost function SnapshotOf(fp: Fil): Snapshot
    requires fp.Base()
    reads fp`dirty, fp`sclust, fp`dsect, fp`chain, fp`others, fp.buf,
          fp.fs`winsect, fp.fs`wflag, fp.fs`freeClust, fp.fs.drive, fp.fs.win
  {
    Snapshot(fp.chain, fp.others, fp.sclust, FreeCount(fp.fs.Table()), fp.fs.Logical(),
         CountOk(fp.fs), WriteOrderOk(fp.fs), fp.fs.CopiesAgree())
  }

  ghost predicate Extends(g: Geometry, reliable: bool, a: Snapshot, b: Snapshot) {
    && a.chain <= b.chain && b.others == a.others && (a.chain != [] ==> b.sclust == a.sclust)
    && b.free + |b.chain| == a.free + |a.chain|
    && (a.countOk ==> b.countOk) && (g.fsType != Fat12 && a.orderOk ==> b.orderOk)
    && (reliable && a.agree ==> b.agree)
    && Untouched(g, a.others, a.chain, b.chain, a.disk, b.disk)
  }

  twostate lemma ExtendedIs(fp: Fil)
    requires old(fp.Base()) && fp.Base()
    ensures Extended(fp) <==> Extends(fp.fs.g, fp.fs.drive.reliable, old(SnapshotOf(fp)), SnapshotOf(fp))
    ensures Extended(fp) ==> old(fp.chain) <= fp.chain
  {
    hide Untouched, Fatfs.Logical, Fatfs.CopiesAgree, CountOk, WriteOrderOk, Fil.Shell, FreeCount;
  }

  lemma ExtendsAgain(g: Geometry, reliable: bool, a: Snapshot, b: Snapshot, c: Snapshot)
    requires Extends(g, reliable, a, b) && Extends(g, reliable, b, c)
    ensures Extends(g, reliable, a, c)
  {
    hide Untouched;
    UntouchedAgain(g, a.others, a.chain, b.chain, c.chain, a.disk, b.disk, c.disk);
  }

  lemma ExtendsSame(fp: Fil)
    requires fp.Base()
    ensures Extends(fp.fs.g, fp.fs.drive.reliable, SnapshotOf(fp), SnapshotOf(fp))
  {
    hide Untouched, CountOk, WriteOrderOk, Fatfs.CopiesAgree, FreeCount, Linked, View;
    UntouchedSame(fp.fs.g, fp.others, fp.chain, fp.fs.Logical());
  }
}
