/** The cluster link map table (CLMT): an index of a chain, one length and one top per fragment. */
module LinkMap {
  import opened Bytes
  import opened Units
  import opened Layout
  import opened PackedTable
  import opened Chains
  import opened LogicalDisk
  import opened Volume
  import opened FatTable
  import opened FatAccess
  import opened Allocation

  // ---------- maximal runs ----------

  /** The first m clusters are consecutive, and the run goes no further. */
  ghost predicate IsRun(s: Chain, m: int) {
    && 1 <= m <= |s|
    && (forall i :: 0 <= i < m ==> s[i] == s[0] + i)
    && (m < |s| ==> s[m] != s[m - 1] + 1)
  }

  /** Length of the longest run of consecutive clusters at the front. */
  function RunLen(s: Chain): (m: nat)
    requires |s| > 0
    ensures 1 <= m <= |s| && IsRun(s, m)
  {
    if |s| == 1 || s[1] != s[0] + 1 then 1 else 1 + RunLen(s[1..])
  }

  /** The maximal-run encoding: length and top of each fragment in turn. */
  function Fragments(s: Chain): (f: seq<nat>)
    ensures |f| % 2 == 0 && |f| <= 2 * |s|
    decreases |s|
  {
    if s == [] then [] else [RunLen(s), s[0]] + Fragments(s[RunLen(s)..])
  }

  /** What a table says about cluster number cl of the file. */
  function Lookup(f: seq<nat>, cl: nat): nat {
    if |f| < 2 || f[0] == 0 then 0 else if cl < f[0] then cl + f[1] else Lookup(f[2..], cl - f[0])
  }

  /** The index agrees with the chain it replaces, and answers 0 past its end. */
  lemma {:induction false} LookupIsChain(s: Chain, cl: nat)
    ensures Lookup(Fragments(s), cl) == if cl < |s| then s[cl] else 0
    decreases |s|
  {
    if s != [] {
      var m := RunLen(s);
      var f := Fragments(s);
      assert f[2..] == Fragments(s[m..]);
      if cl >= m {
        LookupIsChain(s[m..], cl - m);
      }
    }
  }

  /** The encoding determines the chain. */
  lemma FragmentsInjective(s: Chain, r: Chain)
    requires Fragments(s) == Fragments(r) && 0 !in s && 0 !in r
    ensures s == r
  {
    LookupIsChain(s, |s|);
    LookupIsChain(r, |s|);
    LookupIsChain(s, |r|);
    LookupIsChain(r, |r|);
    forall i | 0 <= i < |s| && |s| == |r| ensures s[i] == r[i] {
      LookupIsChain(s, i);
      LookupIsChain(r, i);
    }
  }

  /** The items of the map in plain numbers: length and first cluster of each run, in the order of the file. */
  lemma FragmentsOfRun(run: Chain, rest: Chain)
    requires |run| > 0 && forall i :: 0 <= i < |run| ==> run[i] == run[0] + i
    requires rest == [] || rest[0] != run[0] + |run|
    ensures Fragments(run + rest) == [|run|, run[0]] + Fragments(rest) && Fragments([]) == []
  {
    hide RunLen, Fragments;
    RunIsFirst(run, rest);
    FragmentsUnfold(run + rest);
    assert (run + rest)[|run|..] == rest;
    NoneLeft(run);
    assert run[|run|..] == [];
  }

  lemma RunIsFirst(run: Chain, rest: Chain)
    requires |run| > 0 && forall i :: 0 <= i < |run| ==> run[i] == run[0] + i
    requires rest == [] || rest[0] != run[0] + |run|
    ensures RunLen(run + rest) == |run|
  {
    hide RunLen;
    assert IsRun(run + rest, |run|);
    RunLenUnique(run + rest, |run|);
  }

  /** The table after its first item holds the map of the chain, closed by a 0. */
  ghost predicate Maps(tbl: seq<dword>, s: Chain) {
    && 1 + |Fragments(s)| < |tbl|
    && tbl[1..1 + |Fragments(s)|] == Fragments(s)
    && tbl[1 + |Fragments(s)|] == 0
  }

  /** A prefix of a chain has no more fragments. */
  lemma {:induction false} PrefixFragments(s: Chain, n: nat)
    requires n <= |s|
    ensures |Fragments(s[..n])| <= |Fragments(s)|
    decreases |s|
  {
    hide RunLen, Fragments;
    if n > 0 {
      var m := RunLen(s);
      PrefixRun(s, n);
      FragmentsUnfold(s);
      FragmentsUnfold(s[..n]);
      if n <= m {
        NoneLeft(s[..n]);
      } else {
        PrefixFragments(s[m..], n - m);
        assert s[..n][m..] == s[m..][..n - m];
      }
    } else {
      NoneLeft(s[..n]);
    }
  }

  lemma PrefixRun(s: Chain, n: nat)
    requires 0 < n <= |s|
    ensures RunLen(s[..n]) == if n <= RunLen(s) then n else RunLen(s)
  {
    hide RunLen;
    var k := if n <= RunLen(s) then n else RunLen(s);
    assert IsRun(s[..n], k);
    RunLenUnique(s[..n], k);
  }

  lemma NoneLeft(s: Chain)
    ensures Fragments(s[|s|..]) == []
  {
  }

  /** No fragment is empty, so a 0 can only be the end of the table. */
  lemma {:induction false} FragmentsPositive(s: Chain)
    ensures forall q :: 0 <= q < |Fragments(s)| && q % 2 == 0 ==> Fragments(s)[q] > 0
    decreases |s|
  {
    if s != [] {
      FragmentsPositive(s[RunLen(s)..]);
    }
  }

  lemma LookupStep(f: seq<nat>, q: nat, cl: nat)
    requires |f| % 2 == 0 && q % 2 == 0 && q < |f| && f[q] > 0
    ensures Lookup(f[q..], cl) == if cl < f[q] then cl + f[q + 1] else Lookup(f[q + 2..], cl - f[q])
  {
    assert f[q..][2..] == f[q + 2..];
  }

  /** A table is the map of one chain only. */
  lemma OneMap(tbl: seq<dword>, s: Chain, r: Chain)
    requires Maps(tbl, s) && Maps(tbl, r) && 0 !in s && 0 !in r
    ensures s == r
  {
    FragmentsPositive(s);
    FragmentsPositive(r);
    hide Fragments;
    MapLength(tbl, s, r);
    MapLength(tbl, r, s);
    assert Fragments(s) == Fragments(r);
    FragmentsInjective(s, r);
  }

  lemma MapLength(tbl: seq<dword>, s: Chain, r: Chain)
    requires Maps(tbl, s) && Maps(tbl, r)
    ensures |Fragments(s)| >= |Fragments(r)|
  {
    FragmentsPositive(r);
    hide Fragments;
    var a, b := Fragments(s), Fragments(r);
    forall p | 0 <= p < |b| ensures b[p] == tbl[1 + p] {
      assert tbl[1..1 + |b|][p] == tbl[1 + p];
    }
  }

  // ---------- lookup ----------

  /** Convert a cluster order into a cluster number by the table (clmt_clust). */
  method ClmtClust(tbl: array<dword>, order: nat, ghost s: Chain) returns (r: dword)
    requires Maps(tbl[..], s) && (forall i :: 0 <= i < |s| ==> s[i] < 0x1_0000_0000)
    ensures r == if order < |s| then s[order] else 0
  {
    LookupIsChain(s, order);
    FragmentsPositive(s);
    hide Fragments, RunLen, Lookup;
    ghost var f := Fragments(s);
    assert forall p :: 1 <= p <= |f| ==> tbl[p] == tbl[..][1..1 + |f|][p - 1];
    var p: nat, cl: nat := 1, order;
    LookupEmpty(f);
    while true
      invariant 1 <= p <= 1 + |f| && (p - 1) % 2 == 0
      invariant Lookup(f[p - 1..], cl) == Lookup(f, order)
      decreases 1 + |f| - p
    {
      var ncl := tbl[p];
      if ncl == 0 { return 0; }
      LookupStep(f, p - 1, cl);
      p := p + 1;
      if cl < ncl { break; }
      cl := cl - ncl;
      p := p + 1;
    }
    var top: int := tbl[p];
    r := cl + top;
  }

  lemma LookupEmpty(f: seq<nat>)
    ensures f[0..] == f && forall cl :: Lookup(f[|f|..], cl) == 0
  {
  }

  // ---------- building ----------

  /** f lists runs of consecutive clusters that make up s, none of which could be longer. */
  ghost predicate Encodes(f: seq<nat>, s: Chain)
    decreases |f|
  {
    if s == [] then f == []
    else |f| >= 2 && IsRun(s, f[0]) && f[1] == s[0] && Encodes(f[2..], s[f[0]..])
  }

  /** There is exactly one such list. */
  lemma {:induction false} EncodingIsFragments(f: seq<nat>, s: Chain)
    ensures Encodes(f, s) <==> f == Fragments(s)
    decreases |s|
  {
    if s != [] {
      FragmentsUnfold(s);
      var m, rest := RunLen(s), Fragments(s[RunLen(s)..]);
      if Encodes(f, s) {
        RunLenUnique(s, f[0]);
        EncodingIsFragments(f[2..], s[m..]);
        assert f == [f[0], f[1]] + f[2..];
      }
      if f == Fragments(s) {
        assert f[2..] == rest;
        EncodingIsFragments(rest, s[m..]);
      }
    }
  }

  lemma RunLenUnique(s: Chain, m: nat)
    requires |s| > 0 && IsRun(s, m)
    ensures RunLen(s) == m
  {
  }

  /** The walk cannot tell an end mark equal to n_fatent, stored in the last cluster of the volume, from a
      link to the next cluster. */
  ghost predicate EndLooksLinked(t: Table, s: Chain) {
    |s| > 0 && s[|s| - 1] == |t| - 1 && t[s[|s| - 1]] == |t|
  }

  /** It happens: a one-cluster chain in the last cluster of a volume of LAST_LINK entries, ended by the mark that
      create_chain itself stores.  A FAT32 volume may have that many. */
  lemma EndCanLookLinked() returns (t: Table, s: Chain)
    ensures |t| == LAST_LINK && IsChain(t, s) && EndLooksLinked(t, s)
    ensures t[s[|s| - 1]] == Cut(Fat32, LAST_LINK)
  {
    t := seq(LAST_LINK, c => if c == LAST_LINK - 1 then LAST_LINK else 0);
    s := [LAST_LINK - 1];
  }

  /** On every smaller volume the mark that create_chain and f_truncate store never looks like a link. */
  lemma OwnMarkNeverLooksLinked(g: Geometry, t: Table, s: Chain)
    requires g.WellFormed() && |t| == g.nFatent && IsChain(t, s) && t[s[|s| - 1]] == Cut(g.fsType, LAST_LINK)
    ensures EndLooksLinked(t, s) ==> g.nFatent == LAST_LINK
  {
    hide Geometry.FatBytes, Geometry.FatEnd, Geometry.DataEnd;
  }

  /** One link of a chain, and the chain that follows it. */
  lemma ChainLink(t: Table, s: Chain)
    requires IsChain(t, s)
    ensures |s| > 0 && 2 <= s[0] < |t| && t[s[0]] >= 2
    ensures |s| == 1 ==> t[s[0]] >= |t|
    ensures |s| > 1 ==> t[s[0]] == s[1] && IsChain(t, s[1..])
  {
    if |s| > 1 {
      var r := s[1..];
      forall i | 0 <= i < |r| - 1 ensures t[r[i]] == r[i + 1] {
        assert t[s[i + 1]] == s[i + 2];
      }
    }
  }

  lemma RunStep(s: Chain)
    requires |s| > 0
    ensures RunLen(s) == if |s| == 1 || s[1] != s[0] + 1 then 1 else 1 + RunLen(s[1..])
  {
  }

  /** The walk along the first fragment of s has counted ncl clusters and stands at cl.
      Either cl is the next cluster of a run that may go on, or (past) it is the end mark, taken for a link. */
  ghost predicate Walk(t: Table, s: Chain, ncl: nat, cl: nat, past: bool) {
    && IsChain(t, s) && ncl <= |s|
    && if past then EndLooksLinked(t, s) && cl == |t| && ncl == |s|
       else ncl < |s| && s[ncl] == cl && IsChain(t, s[ncl..]) && RunLen(s) == ncl + RunLen(s[ncl..])
  }

  lemma WalkStart(t: Table, s: Chain)
    requires IsChain(t, s)
    ensures |s| > 0 && Walk(t, s, 0, s[0], false) && |s| <= |t|
  {
    ChainLength(t, s);
    assert s[0..] == s;
  }

  /** One link further: what the entry of cl says about the walk. */
  lemma WalkStep(t: Table, s: Chain, ncl: nat, cl: nat)
    requires Walk(t, s, ncl, cl, false)
    ensures ncl < |s| && 2 <= cl < |t| && t[cl] >= 2
    ensures t[cl] == cl + 1 ==> Walk(t, s, ncl + 1, t[cl], ncl + 1 == |s|)
    ensures t[cl] != cl + 1 ==>
      && ncl + 1 == RunLen(s) && !(ncl + 1 == |s| && EndLooksLinked(t, s))
      && if ncl + 1 < |s| then t[cl] == s[ncl + 1] else t[cl] >= |t|
  {
    var r := s[ncl..];
    ChainLink(t, r);
    RunStep(r);
    assert |r| > 1 ==> r[1..] == s[ncl + 1..] && r[1] == s[ncl + 1];
    assert |r| == 1 ==> s[|s| - 1] == cl;
  }

  /** Follow the chain s from its head to the end of its first fragment. */
  method ScanFragment(fs: Fatfs, top: dword, ghost s: Chain) returns (res: FResult, ncl: dword, cl: dword)
    requires fs.Valid() && IsChain(fs.Table(), s) && |s| > 0 && s[0] == top
    modifies fs`winsect, fs`wflag, fs.drive, fs.win
    ensures SameDisk(fs)
    ensures res != FrDiskErr ==> fs.g.InFat(fs.winsect) || fs.winsect == old(fs.winsect)
    ensures res == FrOk || res == FrIntErr || (res == FrDiskErr && !fs.drive.reliable)
    ensures res == FrOk ==> ncl == RunLen(s) && if ncl < |s| then cl == s[ncl] else cl >= fs.g.nFatent
    ensures res == FrIntErr || (res == FrOk && ncl == |s|) ==> (EndLooksLinked(fs.Table(), s) <==> res == FrIntErr)
  {
    hide Geometry.WellFormed, FatBytes, TableOf, Overlay, Mirrored, Wrote, MediumOk, RunLen, IsRun, IsChain, Walk,
      EndLooksLinked, Fatfs.Valid, Fatfs.Logical, Fatfs.CopiesAgree;
    ghost var t := fs.Table();
    res := FrOk;
    cl, ncl := top, 0;
    ghost var past := false;
    WalkStart(t, s);
    WroteNothing(fs.drive.history, fs.g, {fs.Fat()});
    while true
      invariant fs.g.InFat(fs.winsect) || fs.winsect == old(fs.winsect)
      invariant SameDisk(fs) && fs.Table() == t && ncl <= |s|
      invariant Walk(t, s, ncl, cl, past)
      decreases !past, |s| - ncl
    {
      var pcl := cl;
      ghost var h := fs.drive.history;
      if past { WalkPast(t, s, ncl, cl); } else { WalkStep(t, s, ncl, cl); }
      cl := GetFat(fs, cl);
      WroteThenWrote(old(fs.drive.history), h, fs.drive.history, fs.g, {fs.Fat()});
      ncl := ncl + 1;
      if cl <= 1 { res := FrIntErr; return; }
      if cl == DISK_ERROR { res := FrDiskErr; return; }
      if cl != pcl + 1 { break; }
      past := ncl == |s|;
    }
  }

  lemma WalkPast(t: Table, s: Chain, ncl: nat, cl: nat)
    requires Walk(t, s, ncl, cl, true)
    ensures EndLooksLinked(t, s) && cl == |t|
  {
  }

  /** The first fragments of a chain, as a table stores them. */
  lemma FragmentsUnfold(s: Chain)
    requires |s| > 0
    ensures Fragments(s) == [RunLen(s), s[0]] + Fragments(s[RunLen(s)..])
  {
  }

  lemma SuffixIsChain(t: Table, s: Chain, k: nat)
    requires IsChain(t, s) && k < |s|
    ensures IsChain(t, s[k..]) && s[k..][|s| - k - 1] == s[|s| - 1]
  {
    var r := s[k..];
    forall i | 0 <= i < |r| - 1 ensures t[r[i]] == r[i + 1] {
      assert t[s[k + i]] == s[k + i + 1];
    }
  }

  /** The table so far: used items ulen, the fragments of f that fit stored in front, nothing past tlen touched. */
  ghost predicate Stored(tbl: seq<dword>, was: seq<dword>, f: seq<nat>, done: nat, p: nat, tlen: nat) {
    && |tbl| == |was| && tlen <= |tbl| && 1 <= |tbl| && done <= |f|
    && (2 + done <= tlen ==> p == 1 + done && tbl[1..p] == f[..done])
    && (forall i :: 0 <= i < |tbl| && i >= tlen ==> tbl[i] == was[i])
    && tbl[0] == was[0]
  }

  lemma StoredStep(tbl: seq<dword>, was: seq<dword>, f: seq<nat>, done: nat, p: nat, tlen: nat, ncl: dword, tcl: dword)
    requires Stored(tbl, was, f, done, p, tlen) && done + 2 <= |f| && f[done] == ncl && f[done + 1] == tcl
    ensures 4 + done <= tlen ==>
      p + 1 < |tbl| && Stored(tbl[p := ncl][p + 1 := tcl], was, f, done + 2, p + 2, tlen)
    ensures 4 + done > tlen ==> Stored(tbl, was, f, done + 2, p, tlen)
  {
    if 4 + done <= tlen {
      var u := tbl[p := ncl][p + 1 := tcl];
      assert u[1..p + 2] == tbl[1..p] + [ncl, tcl];
      assert f[..done + 2] == f[..done] + [f[done], f[done + 1]];
    }
  }

  lemma StoredAll(tbl: seq<dword>, was: seq<dword>, s: Chain, p: nat, tlen: nat, ulen: dword)
    requires Stored(tbl, was, Fragments(s), |Fragments(s)|, p, tlen) && ulen == |Fragments(s)| + 2
    ensures var u := tbl[0 := ulen];
            if ulen <= tlen then 0 < p < |tbl| && p < tlen && Maps(u[p := 0], s) else true
    ensures forall i :: 1 <= i < |tbl| && i >= tlen ==> tbl[i] == was[i]
  {
    hide Fragments;
    if ulen <= tlen {
      var u := tbl[0 := ulen][p := 0];
      assert u[1..1 + |Fragments(s)|] == tbl[1..p];
      assert Fragments(s)[..|Fragments(s)|] == Fragments(s);
    }
  }

  lemma StoredFrame(tbl: seq<dword>, was: seq<dword>, f: seq<nat>, done: nat, p: nat, tlen: nat)
    requires Stored(tbl, was, f, done, p, tlen)
    ensures |tbl| == |was| && forall i :: 1 <= i < |tbl| && i >= tlen ==> tbl[i] == was[i]
  {
  }

  lemma SameEnd(t: Table, s: Chain, r: Chain)
    requires |s| > 0 && |r| > 0 && s[|s| - 1] == r[|r| - 1] < |t|
    ensures EndLooksLinked(t, s) == EndLooksLinked(t, r)
  {
  }

  lemma NoFragments(t: Table)
    ensures Fragments([]) == [] && !EndLooksLinked(t, [])
  {
  }

  function From(s: Chain, k: nat): Chain
    requires k <= |s|
  {
    s[k..]
  }

  /** The builder has consumed k clusters into done items and stands at cl. */
  ghost predicate Building(t: Table, s: Chain, k: nat, done: nat, cl: nat) {
    && IsChain(t, s) && k <= |s| && done <= |Fragments(s)| && Fragments(s)[done..] == Fragments(s[k..])
    && if k == |s| then cl >= |t| && !EndLooksLinked(t, s)
       else cl == s[k] && IsChain(t, s[k..]) && EndLooksLinked(t, s) == EndLooksLinked(t, s[k..])
  }

  lemma BuildingStart(t: Table, s: Chain)
    requires IsChain(t, s)
    ensures |s| > 0 && Building(t, s, 0, 0, s[0]) && |Fragments(s)| <= 2 * |t|
  {
    ChainLength(t, s);
    assert s[0..] == s && Fragments(s)[0..] == Fragments(s);
  }

  /** The next fragment, as ScanFragment reports it, gives the next two items. */
  lemma BuildingStep(t: Table, s: Chain, k: nat, done: nat, cl: nat, ncl: nat, next: nat)
    requires Building(t, s, k, done, cl) && k < |s|
    requires ncl == RunLen(s[k..])
    requires if ncl < |s[k..]| then next == s[k..][ncl] else next >= |t| && !EndLooksLinked(t, s[k..])
    ensures done + 2 <= |Fragments(s)| && Fragments(s)[done] == ncl && Fragments(s)[done + 1] == cl
    ensures k + ncl <= |s| && Building(t, s, k + ncl, done + 2, next)
  {
    hide IsChain, RunLen, EndLooksLinked, Fragments;
    StepItems(s, k, done, ncl);
    StepSuffix(t, s, k, ncl);
    assert |s[k..]| == |s| - k;
  }

  lemma StepItems(s: Chain, k: nat, done: nat, ncl: nat)
    requires k < |s| && done <= |Fragments(s)| && Fragments(s)[done..] == Fragments(s[k..]) && ncl == RunLen(s[k..])
    ensures done + 2 <= |Fragments(s)| && Fragments(s)[done] == ncl && Fragments(s)[done + 1] == s[k]
    ensures k + ncl <= |s| && Fragments(s)[done + 2..] == Fragments(s[k + ncl..])
  {
    hide Fragments, RunLen;
    var f, r := Fragments(s), s[k..];
    FragmentsUnfold(r);
    assert f[done..][2..] == f[done + 2..];
    assert r[ncl..] == s[k + ncl..];
    assert f[done..][0] == f[done] && f[done..][1] == f[done + 1];
  }

  lemma StepSuffix(t: Table, s: Chain, k: nat, ncl: nat)
    requires IsChain(t, s) && k < |s| && k + ncl <= |s|
    requires EndLooksLinked(t, s) == EndLooksLinked(t, s[k..])
    ensures k + ncl < |s| ==>
      && IsChain(t, s[k + ncl..]) && s[k..][ncl] == s[k + ncl]
      && EndLooksLinked(t, s) == EndLooksLinked(t, s[k + ncl..])
  {
    if k + ncl < |s| {
      SuffixIsChain(t, s, k + ncl);
      SuffixIsChain(t, s, |s| - 1);
      ChainLink(t, s[|s| - 1..]);
      SameEnd(t, s, s[k + ncl..]);
    }
  }

  lemma BuildingMore(t: Table, s: Chain, k: nat, done: nat, cl: nat)
    requires Building(t, s, k, done, cl)
    ensures k <= |s| && (cl < |t| <==> k < |s|)
    ensures k < |s| ==> s != [] && IsChain(t, From(s, k)) && |From(s, k)| > 0 && From(s, k)[0] == cl
    ensures k < |s| ==> EndLooksLinked(t, s) == EndLooksLinked(t, From(s, k))
    ensures k == |s| ==> done == |Fragments(s)| && !EndLooksLinked(t, s)
  {
    if k < |s| { ChainLink(t, s[k..]); }
  }

  /** Store a fragment if the table has room for it and the terminator. */
  method StoreFragment(tbl: array<dword>, p: nat, tlen: dword, ulen: dword, ncl: dword, tcl: dword,
                       ghost was: seq<dword>, ghost f: seq<nat>)
    returns (q: nat)
    requires 4 <= ulen <= |f| + 2 && Stored(tbl[..], was, f, ulen - 4, p, tlen)
    requires f[ulen - 4] == ncl && f[ulen - 3] == tcl
    modifies tbl
    ensures Stored(tbl[..], was, f, ulen - 2, q, tlen)
  {
    StoredStep(tbl[..], was, f, ulen - 4, p, tlen, ncl, tcl);
    q := p;
    if ulen <= tlen {
      tbl[q], tbl[q + 1] := ncl, tcl;
      q := q + 2;
    }
  }

  lemma StoredStart(tbl: seq<dword>, f: seq<nat>)
    requires |tbl| >= 1 && tbl[0] as nat <= |tbl|
    ensures Stored(tbl, tbl, f, 0, 1, tbl[0])
  {
  }

  /** Walk the chain and store its fragments behind the first item; ulen counts the items used. */
  method MapFragments(fs: Fatfs, sclust: dword, tbl: array<dword>, tlen: dword, ghost s: Chain)
    returns (res: FResult, p: nat, ulen: dword)
    requires fs.Valid() && Stored(tbl[..], tbl[..], Fragments(s), 0, 1, tlen) && (tbl as object) != fs.win
    requires IsChain(fs.Table(), s) && |s| > 0 && s[0] == sclust
    modifies fs`winsect, fs`wflag, fs.drive, fs.win, tbl
    ensures SameDisk(fs)
    ensures res != FrDiskErr ==> fs.g.InFat(fs.winsect) || fs.winsect == old(fs.winsect)
    ensures res == FrOk || res == FrIntErr || (res == FrDiskErr && !fs.drive.reliable)
    ensures res != FrDiskErr ==> (res == FrIntErr <==> EndLooksLinked(fs.Table(), s))
    ensures 2 <= ulen && Stored(tbl[..], old(tbl[..]), Fragments(s), ulen - 2, p, tlen)
    ensures res == FrOk ==> ulen - 2 == |Fragments(s)|
  {
    hide Geometry.WellFormed, FatBytes, TableOf, Overlay, Mirrored, Wrote, MediumOk, RunLen, IsRun, IsChain,
      Fragments, Fatfs.Valid, Fatfs.Logical, Fatfs.CopiesAgree, Stored, EndLooksLinked, Building;
    ghost var t, was, f := fs.Table(), tbl[..], Fragments(s);
    res, p, ulen := FrOk, 1, 2;
    var cl: dword := sclust;
    ghost var k: nat := 0;
    BuildingStart(t, s);
    BuildingMore(t, s, k, 0, cl);
    WroteNothing(fs.drive.history, fs.g, {fs.Fat()});
    while cl < fs.g.nFatent
      invariant fs.g.InFat(fs.winsect) || fs.winsect == old(fs.winsect)
      invariant SameDisk(fs) && fs.Table() == t && res == FrOk
      invariant 2 <= ulen && ulen - 2 <= |f| && Building(t, s, k, ulen - 2, cl)
      invariant Stored(tbl[..], was, f, ulen - 2, p, tlen)
      decreases |s| - k
    {
      ghost var h := fs.drive.history;
      BuildingMore(t, s, k, ulen - 2, cl);
      var err, ncl, next := ScanFragment(fs, cl, From(s, k));
      WroteThenWrote(old(fs.drive.history), h, fs.drive.history, fs.g, {fs.Fat()});
      if err != FrOk { res := err; return; }
      BuildingStep(t, s, k, ulen - 2, cl, ncl, next);
      ulen := ulen + 2;
      p := StoreFragment(tbl, p, tlen, ulen, ncl, cl, was, f);
      k := k + ncl;
      cl := next;
    }
    BuildingMore(t, s, k, ulen - 2, cl);
  }

  /** Create the table of a chain (f_lseek with CREATE_LINKMAP).  The first item gives the size of the table
      and receives the size needed. */
  method BuildLinkMap(fs: Fatfs, sclust: dword, tbl: array<dword>, ghost s: Chain) returns (res: FResult)
    requires fs.Valid() && 1 <= tbl.Length && tbl[0] as nat <= tbl.Length
    requires (tbl as object) != fs.win
    requires if sclust == 0 then s == [] else IsChain(fs.Table(), s) && |s| > 0 && s[0] == sclust
    modifies fs`winsect, fs`wflag, fs.drive, fs.win, tbl
    ensures SameDisk(fs)
    ensures res != FrDiskErr ==> fs.g.InFat(fs.winsect) || fs.winsect == old(fs.winsect)
    ensures res == FrDiskErr ==> !fs.drive.reliable
    ensures res == FrOk || res == FrNotEnoughCore || res == FrIntErr || res == FrDiskErr
    ensures res != FrDiskErr ==> (res == FrIntErr <==> EndLooksLinked(fs.Table(), s))
    ensures res == FrOk || res == FrNotEnoughCore ==>
      tbl[0] == |Fragments(s)| + 2 && (res == FrOk <==> |Fragments(s)| + 2 <= old(tbl[0]))
    ensures res == FrOk ==> Maps(tbl[..], s)
    ensures forall i :: 1 <= i < tbl.Length && i >= old(tbl[0]) ==> tbl[i] == old(tbl[i])
  {
    hide Geometry.WellFormed, FatBytes, TableOf, Overlay, Mirrored, Wrote, MediumOk, IsChain, Fragments, Fatfs.Valid,
      Fatfs.Logical, Fatfs.CopiesAgree, Geometry.DataEnd, CMul, SMul, SectorSize, ClusterSize, Fits, Entry, Stored,
      Maps, EndLooksLinked;
    ghost var was := tbl[..];
    res := FrOk;
    var p: nat, tlen: dword, ulen: dword := 1, tbl[0], 2;
    StoredStart(was, Fragments(s));
    NoFragments(fs.Table());
    if sclust != 0 {
      res, p, ulen := MapFragments(fs, sclust, tbl, tlen, s);
      StoredFrame(tbl[..], was, Fragments(s), ulen - 2, p, tlen);
      if res != FrOk { return; }
    } else {
      WroteNothing(fs.drive.history, fs.g, {fs.Fat()});
    }
    StoredAll(tbl[..], was, s, p, tlen, ulen);
    tbl[0] := ulen;
    if ulen <= tlen {
      tbl[p] := 0;
    } else {
      res := FrNotEnoughCore;
    }
  }
}
