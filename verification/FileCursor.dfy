/** Where a file pointer stands: the cluster and the sector that belong to it. */
module FileCursor {
  import opened Bytes
  import opened Units
  import opened Layout
  import opened Disk
  import opened PackedTable
  import opened Chains
  import opened Allocation
  import opened FileData

  /** Bytes a chain can hold. */
  function Capacity(g: Geometry, chain: Chain): (r: int)
    requires SectorSize(g.ss) && ClusterSize(g.csize)
    ensures r >= 0 && (chain == [] ==> r == 0)
  {
    SMul(Span(g, chain), g.ss)
  }

  /** The bytes of one cluster. */
  function ClusterBytes(g: Geometry): (r: int)
    requires SectorSize(g.ss) && ClusterSize(g.csize)
    ensures r > 0 && forall chain: Chain :: |chain| == 1 ==> Capacity(g, chain) == r
  {
    SMul(g.csize, g.ss)
  }

  /** Index in the chain of the cluster that holds byte i. */
  function ClusterIdx(g: Geometry, i: int): int
    requires SectorSize(g.ss) && ClusterSize(g.csize)
  {
    CDiv(SDiv(i, g.ss), g.csize)
  }

  lemma ByteInChain(g: Geometry, chain: Chain, i: int)
    requires SectorSize(g.ss) && ClusterSize(g.csize) && 0 <= i < Capacity(g, chain)
    ensures 0 <= SDiv(i, g.ss) < Span(g, chain)
    ensures 0 <= ClusterIdx(g, i) < |chain|
  {
    SectorSplit(i, g.ss);
    SpanIndex(g, chain, SDiv(i, g.ss));
  }

  /** The cursor invariant: past the start of the file, clust is the cluster of the byte before the pointer;
      inside a sector, dsect is that sector. */
  ghost predicate CursorOk(g: Geometry, chain: Chain, fptr: int, clust: int, dsect: int)
    requires SectorSize(g.ss) && ClusterSize(g.csize)
  {
    && 0 <= fptr <= Capacity(g, chain)
    && (fptr > 0 ==> 0 <= ClusterIdx(g, fptr - 1) < |chain| && clust == chain[ClusterIdx(g, fptr - 1)])
    && (SMod(fptr, g.ss) != 0 ==>
          0 <= SDiv(fptr, g.ss) < Span(g, chain) && dsect == SectorNo(g, chain, SDiv(fptr, g.ss)))
  }

  lemma CapacityBytes(g: Geometry, chain: Chain)
    requires SectorSize(g.ss) && ClusterSize(g.csize)
    ensures Capacity(g, chain) == SMul(Span(g, chain), g.ss)
  {
  }

  lemma EmptyCursor(g: Geometry, chain: Chain, clust: int, dsect: int)
    requires SectorSize(g.ss) && ClusterSize(g.csize)
    ensures CursorOk(g, chain, 0, clust, dsect)
  {
  }

  /** Entering a sector: the cluster index goes up exactly at a cluster boundary. */
  lemma EnterSector(g: Geometry, fptr: int)
    requires SectorSize(g.ss) && ClusterSize(g.csize) && fptr > 0 && SMod(fptr, g.ss) == 0
    ensures ClusterIdx(g, fptr) == if CMod(SDiv(fptr, g.ss), g.csize) == 0
                                   then ClusterIdx(g, fptr - 1) + 1 else ClusterIdx(g, fptr - 1)
  {
    var k := SDiv(fptr, g.ss);
    SectorSplit(fptr, g.ss);
    SectorSplitUnique(fptr - 1, g.ss, k - 1, g.ss - 1);
    ClusterSplit(k, g.csize);
    var q, r := CDiv(k, g.csize), CMod(k, g.csize);
    hide SDiv, SMod, SMul;
    if r == 0 {
      ClusterSplitUnique(k - 1, g.csize, q - 1, g.csize - 1);
    } else {
      ClusterSplitUnique(k - 1, g.csize, q, r - 1);
    }
  }

  /** Advancing by n bytes within the sectors k to k + cc - 1 of one cluster. */
  lemma Advance(g: Geometry, chain: Chain, fptr: int, n: int, cc: int, clust: int, dsect: int)
    requires SectorSize(g.ss) && ClusterSize(g.csize) && 0 <= fptr && 0 < n && 0 < cc
    requires fptr + n <= SMul(SDiv(fptr, g.ss) + cc, g.ss) && CMod(SDiv(fptr, g.ss), g.csize) + cc <= g.csize
    requires 0 <= SDiv(fptr, g.ss) < Span(g, chain)
    requires 0 <= ClusterIdx(g, fptr) < |chain| && clust == chain[ClusterIdx(g, fptr)]
    requires SMod(fptr + n, g.ss) != 0 ==> cc == 1 && dsect == SectorNo(g, chain, SDiv(fptr, g.ss))
    ensures CursorOk(g, chain, fptr + n, clust, dsect) && ClusterIdx(g, fptr + n - 1) == ClusterIdx(g, fptr)
  {
    var k := SDiv(fptr, g.ss);
    SectorSplit(fptr, g.ss);
    SectorSplit(fptr + n - 1, g.ss);
    var m := SDiv(fptr + n - 1, g.ss);
    assert k <= m < k + cc by { MulOrder(m, k + cc, g.ss); MulOrder(k, m + 1, g.ss); }
    SpanIndex(g, chain, k);
    ClusterSplit(k, g.csize);
    ClusterSplitUnique(m, g.csize, CDiv(k, g.csize), CMod(k, g.csize) + (m - k));
    assert m < Span(g, chain) by { SameCluster(g, chain, k, m); }
    assert fptr + n <= Capacity(g, chain) by { MulStep(m, Span(g, chain), g.ss); }
    if SMod(fptr + n, g.ss) != 0 {
      SectorSplit(fptr + n, g.ss);
      MulOrder(SDiv(fptr + n, g.ss), k + 1, g.ss);
      MulOrder(k, SDiv(fptr + n, g.ss) + 1, g.ss);
    }
  }

  /** A chain that grew from n0 clusters ends with the cluster of byte i: no cluster is taken in vain. */
  predicate EndsAt(g: Geometry, n0: nat, chain: Chain, i: int)
    requires SectorSize(g.ss) && ClusterSize(g.csize)
  {
    |chain| == n0 || |chain| == ClusterIdx(g, i) + 1
  }

  lemma StillEndsAt(g: Geometry, n0: nat, chain: Chain, chain': Chain, i: int, j: int)
    requires SectorSize(g.ss) && ClusterSize(g.csize) && i <= j && (EndsAt(g, n0, chain, i) || |chain| == n0)
    requires EndsAt(g, |chain|, chain', j) && ClusterIdx(g, j) < |chain'|
    ensures EndsAt(g, n0, chain', j)
  {
    IdxOrder(g, i, j);
  }

  lemma IdxOrder(g: Geometry, i: int, j: int)
    requires SectorSize(g.ss) && ClusterSize(g.csize) && i <= j
    ensures ClusterIdx(g, i) <= ClusterIdx(g, j)
  {
    var a, b := SDiv(i, g.ss), SDiv(j, g.ss);
    assert a <= b;
    hide SDiv;
  }

  lemma MulStep(a: int, b: int, ss: int)
    requires SectorSize(ss) && a < b
    ensures SMul(a, ss) + ss <= SMul(b, ss)
  {
  }

  lemma SameCluster(g: Geometry, chain: Chain, k: int, m: int)
    requires ClusterSize(g.csize) && 0 <= k <= m && 0 <= CDiv(k, g.csize) < |chain|
    requires CDiv(m, g.csize) == CDiv(k, g.csize)
    ensures m < Span(g, chain)
  {
  }

  // ---------- the chain of an open file ----------

  /** All chains of the volume, the file's among them if it has one. */
  ghost function Whole(others: set<Chain>, chain: Chain): set<Chain> {
    if chain == [] then others else others + {chain}
  }

  /** The file owns chain, reached from sclust; the other chains of the volume are others. */
  ghost predicate Linked(g: Geometry, t: Table, others: set<Chain>, chain: Chain, sclust: int) {
    && |t| == g.nFatent && Forest(t, Whole(others, chain)) && chain !in others
    && InRange(g, chain)
    && (chain == [] <==> sclust == 0)
    && (chain != [] ==> IsChain(t, chain) && chain[0] == sclust)
  }

  lemma LinkedSector(g: Geometry, t: Table, others: set<Chain>, chain: Chain, sclust: int, k: int)
    requires g.WellFormed() && Linked(g, t, others, chain, sclust) && 0 <= k < Span(g, chain)
    ensures |t| == g.nFatent && IsChain(t, chain) && Own(g, others, SectorNo(g, chain, k))
  {
    SectorsOwn(g, t, others, chain, k);
  }

  /** Following the file's chain from element i in the table. */
  lemma LinkedNext(g: Geometry, t: Table, others: set<Chain>, chain: Chain, sclust: int, i: int)
    requires Linked(g, t, others, chain, sclust) && 0 <= i < |chain|
    ensures g.IsCluster(chain[i])
    ensures if i + 1 < |chain| then t[chain[i]] == chain[i + 1] else t[chain[i]] >= |t|
  {
    hide Forest;
  }

  lemma LinkedHead(g: Geometry, t: Table, others: set<Chain>, chain: Chain, sclust: int)
    requires Linked(g, t, others, chain, sclust)
    ensures if chain == [] then sclust == 0 else sclust != 0 && chain[0] == sclust
  {
    hide Forest;
  }

  /** A FAT sector is no data sector. */
  lemma FatNotOwn(g: Geometry, others: set<Chain>, s: int)
    requires g.WellFormed() && g.InFat(s)
    ensures !Own(g, others, s)
  {
  }

  /** No entry of a forest is 1. */
  lemma LinkedNoOnes(g: Geometry, t: Table, others: set<Chain>, chain: Chain, sclust: int)
    requires Linked(g, t, others, chain, sclust)
    ensures forall c :: 2 <= c < |t| ==> t[c] != 1
  {
    forall c | 2 <= c < |t| ensures t[c] != 1 {
      if t[c] != 0 {
        var s, i := Covering(t, Whole(others, chain), c);
        ChainElementsUsed(t, s, c);
      }
    }
  }

  /** A file without a chain gets its first cluster. */
  lemma LinkedStart(g: Geometry, t: Table, others: set<Chain>, ncl: nat, mark: nat)
    requires Linked(g, t, others, [], 0) && g.IsCluster(ncl) && t[ncl] == 0 && mark >= |t|
    ensures Linked(g, t[ncl := mark], others, [ncl], ncl)
  {
    StartChain(t, others, ncl, mark);
    if [ncl] in others {
      Members(t, others);
      ChainElementsUsed(t, [ncl], ncl);
      assert false;
    }
    assert IsChain(t[ncl := mark], [ncl]);
  }

  /** A free cluster is on no chain. */
  lemma InNoChain(t: Table, cs: set<Chain>, s: Chain, c: nat)
    requires Forest(t, cs) && c < |t| && t[c] == 0 && c in s
    ensures s !in cs
  {
    if s in cs {
      Members(t, cs);
      ChainElementsUsed(t, s, c);
      assert false;
    }
  }

  /** A file's chain grows at its tail; all other chains stay. */
  lemma LinkedAppend(g: Geometry, t: Table, others: set<Chain>, chain: Chain, sclust: int, ncl: nat, mark: nat)
    requires Linked(g, t, others, chain, sclust) && chain != []
    requires g.IsCluster(ncl) && t[ncl] == 0 && mark >= |t|
    ensures Linked(g, t[ncl := mark][chain[|chain| - 1] := ncl], others, chain + [ncl], sclust)
  {
    var cs := others + {chain};
    AppendCluster(t, cs, chain, ncl, mark);
    var longer := chain + [ncl];
    assert cs - {chain} + {longer} == others + {longer};
    if longer in others {
      InNoChain(t, cs, longer, ncl);
      assert false;
    }
    Members(t[ncl := mark][chain[|chain| - 1] := ncl], others + {longer});
  }
}
