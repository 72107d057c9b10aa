/** Runs of create_chain, and the reuse of the hole that an overwritten file leaves. */
module Reuse {
  import opened Bytes
  import opened Units
  import opened Layout
  import opened Disk
  import opened PackedTable
  import opened FatTable
  import opened LogicalDisk
  import opened Volume
  import opened Chains
  import opened Allocation
  import opened ClusterOps

  /** A consistent FAT on a drive that has not been written since the mount is a safe start. */
  lemma SafeStart(fs: Fatfs, cs: set<Chain>)
    requires fs.Valid() && !fs.wflag && |fs.drive.history| == fs.since + 1 && Forest(fs.Table(), cs)
    ensures WriteOrderOk(fs)
  {
    hide Geometry.WellFormed, FatBytes, TableOf, NoLinkToFree, Forest, Overlay;
    ForestIsSafe(fs.Table(), cs);
    CleanFat(fs.drive.sectors, fs.g, fs.winsect, fs.win[..]);
    SameBytesSameTable(fs.drive.sectors, fs.Logical(), fs.g);
  }

  /** Taking a cluster for a table in good order appends it to the one chain that ends at clst, or starts a chain. */
  lemma TakenForest(t: Table, cs: set<Chain>, clst: nat, c: nat, mark: nat) returns (ds: set<Chain>)
    requires Forest(t, cs) && NeedsNew(t, clst) && 2 <= c < |t| && t[c] == 0 && mark >= |t|
    ensures clst < |t| && Forest(Taken(t, clst, c, mark), ds)
    ensures if clst == 0 then ds == cs + {[c]}
            else exists s :: s in cs && |s| > 0 && s[|s| - 1] == clst && ds == cs - {s} + {s + [c]}
  {
    if clst == 0 {
      ds := cs + {[c]};
      StartChain(t, cs, c, mark);
    } else {
      var s, i := Covering(t, cs, clst);
      ds := cs - {s} + {s + [c]};
      AppendCluster(t, cs, s, c, mark);
      assert i == |s| - 1;
    }
  }

  /** Any run of create_chain calls, whatever their arguments.  On FAT16/32 every state the medium goes through, after
      each single disk write,
        has no link to a free cluster in its first FAT copy.  A table of disjoint chains stays one. */
  method CreateChains(fs: Fatfs, clsts: seq<dword>, ghost cs: set<Chain>)
      returns (got: seq<dword>, ghost ds: set<Chain>)
    requires fs.Valid()
    modifies fs, fs.drive, fs.win
    ensures fs.Valid() && |got| <= |clsts|
    ensures fs.drive.reliable ==> |got| == |clsts|
    ensures fs.drive.reliable && Forest(old(fs.Table()), cs) ==> Forest(fs.Table(), ds)
    ensures SameOutsideFat(old(fs.Logical()), fs.Logical(), fs.g) || !fs.drive.reliable
    ensures fs.drive.reliable && old(CountOk(fs)) ==> CountOk(fs)
    ensures fs.drive.reliable && fs.g.fsType != Fat12 && old(WriteOrderOk(fs)) ==> WriteOrderOk(fs)
    ensures fs.drive.reliable && old(fs.CopiesAgree()) ==> fs.CopiesAgree()
  {
    hide Geometry.WellFormed, FatBytes, TableOf, Overlay, Mirrored, Wrote, MediumOk, FirstStop, Cut, NoLinkToFree,
      SafeHistory, Fatfs.Valid, Fatfs.Logical, Fatfs.CopiesAgree, FreeCount, Taken, Forest;
    got, ds := [], cs;
    for n := 0 to |clsts|
      invariant fs.Valid() && |got| == n && SameOutsideFat(old(fs.Logical()), fs.Logical(), fs.g)
      invariant Forest(old(fs.Table()), cs) ==> Forest(fs.Table(), ds)
      invariant old(CountOk(fs)) ==> CountOk(fs)
      invariant fs.g.fsType != Fat12 && old(WriteOrderOk(fs)) ==> WriteOrderOk(fs)
      invariant fs.drive.reliable && old(fs.CopiesAgree()) ==> fs.CopiesAgree()
    {
      ghost var d, t := fs.Logical(), fs.Table();
      MarkIsLast(fs.g);
      var ncl := CreateChain(fs, clsts[n]);
      if ncl == DISK_ERROR { return; }
      if ncl >= 2 && NeedsNew(t, clsts[n]) && Forest(t, ds) {
        ds := TakenForest(t, ds, clsts[n], ncl, Cut(fs.g.fsType, LAST_LINK));
      }
      OutsideAgain(old(fs.Logical()), d, fs.Logical(), fs.g);
      got := got + [ncl];
    }
  }

  lemma OutsideAgain(d: Medium, e: Medium, f: Medium, g: Geometry)
    requires SameOutsideFat(d, e, g) && SameOutsideFat(e, f, g)
    ensures SameOutsideFat(d, f, g)
  {
    forall s | 0 <= s < |d| && !g.InFat(s) ensures d[s] == f[s] {
      assert d[s] == e[s];
    }
  }

  /** The part of an overwriting f_open that gives the old clusters back: the window returns to the directory entry,
      and the next allocation is set to start at the hole. */
  method DropContents(fs: Fatfs, cl: dword, ghost cs: set<Chain>, ghost s: Chain) returns (res: FResult)
    requires fs.Valid() && Forest(fs.Table(), cs) && s in cs && |s| > 0 && s[0] == cl && fs.winsect != NO_SECTOR
    modifies fs, fs.drive, fs.win
    ensures fs.Valid() && (res != FrOk ==> !fs.drive.reliable)
    ensures res == FrOk ==>
      && fs.Table() == Zeroed(old(fs.Table()), s) && Forest(fs.Table(), cs - {s})
      && fs.lastClust == cl - 1 && fs.winsect == old(fs.winsect)
      && SameOutsideFat(old(fs.Logical()), fs.Logical(), fs.g) && Promises(fs)
  {
    hide Geometry.WellFormed, FatBytes, TableOf, Overlay, Mirrored, Wrote, NoLinkToFree, Detached, SafeHistory,
      Fatfs.CopiesAgree, FreeCount, Forest, IsChain, Zeroed;
    ghost var t := fs.Table();
    HeadDetached(t, cs, s);
    RemovedIsZeroed(t, s);
    FreeChain(t, cs, s);
    HeadInRange(t, s);
    var dw := fs.winsect;
    res := RemoveChain(fs, cl);
    if res != FrOk { return; }
    fs.lastClust := cl - 1;
    ghost var d, h := fs.Logical(), fs.drive.history;
    res := fs.MoveWindow(dw);
    if fs.g.fsType != Fat12 && old(WriteOrderOk(fs)) { StillSafe(h, fs.drive.history, fs.g, d, fs.since); }
  }

  lemma HeadInRange(t: Table, s: Chain)
    requires IsChain(t, s)
    ensures |s| > 0 && 2 <= s[0] < |t|
  {
  }

  /** With the hint set to cl - 1 and cl free, the next new chain begins at cl: the hole is reused first. */
  lemma HoleFirst(t: Table, cl: nat, c: nat)
    requires 2 <= cl < |t| && t[cl] == 0
    ensures FirstStop(t, SearchStart(|t|, cl - 1, 0), c) ==> c == cl
  {
    var start := SearchStart(|t|, cl - 1, 0);
    assert start == cl - 1;
    if FirstStop(t, start, c) {
      var k :| 1 <= k <= |t| - 2 && c == Candidate(|t|, start, k) && PassedOver(t, start, k - 1) && t[c] < 2;
      assert Candidate(|t|, start, 1) == cl;
    }
  }
}
