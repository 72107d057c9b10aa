/** The data of a file: the sectors of its cluster chain, one of them possibly held in the file's buffer. */
module FileData {
  import opened Bytes
  import opened Units
  import opened Layout
  import opened Disk
  import opened PackedTable
  import opened FatTable
  import opened Chains

  /** Number of sectors of a chain. */
  function Span(g: Geometry, chain: Chain): (r: nat)
    requires ClusterSize(g.csize)
    ensures chain == [] ==> r == 0
  {
    CMul(|chain|, g.csize)
  }

  lemma SpanIndex(g: Geometry, chain: Chain, k: int)
    requires ClusterSize(g.csize) && 0 <= k < Span(g, chain)
    ensures 0 <= CDiv(k, g.csize) < |chain| && 0 <= CMod(k, g.csize) < g.csize
  {
  }

  /** The disk sector of the k-th sector of the file. */
  function SectorNo(g: Geometry, chain: Chain, k: int): int
    requires ClusterSize(g.csize) && 0 <= k < Span(g, chain)
  {
    SpanIndex(g, chain, k);
    g.SectorOf(chain[CDiv(k, g.csize)], CMod(k, g.csize))
  }

  ghost predicate InRange(g: Geometry, chain: Chain) {
    forall i :: 0 <= i < |chain| ==> g.IsCluster(chain[i])
  }

  /** A data sector that belongs to no other chain. */
  ghost predicate Own(g: Geometry, others: set<Chain>, s: int)
    requires ClusterSize(g.csize)
  {
    g.InData(s) && forall r :: r in others ==> g.ClusterOf(s) !in r
  }

  lemma SectorPlace(g: Geometry, chain: Chain, k: int)
    requires g.WellFormed() && InRange(g, chain) && 0 <= k < Span(g, chain)
    ensures 0 <= CDiv(k, g.csize) < |chain| && 0 <= CMod(k, g.csize) < g.csize
    ensures g.InData(SectorNo(g, chain, k))
    ensures g.ClusterOf(SectorNo(g, chain, k)) == chain[CDiv(k, g.csize)]
    ensures CMod(SectorNo(g, chain, k) - g.database, g.csize) == CMod(k, g.csize)
    ensures SectorNo(g, chain, k) == g.SectorOf(chain[CDiv(k, g.csize)], 0) + CMod(k, g.csize)
  {
    SpanIndex(g, chain, k);
    g.SectorInCluster(chain[CDiv(k, g.csize)], CMod(k, g.csize));
  }

  /** Different sectors of a file are different sectors of the disk. */
  lemma SectorNoInjective(g: Geometry, t: Table, chain: Chain, k: int, m: int)
    requires g.WellFormed() && IsChain(t, chain) && |t| == g.nFatent
    requires 0 <= k < Span(g, chain) && 0 <= m < Span(g, chain)
    requires SectorNo(g, chain, k) == SectorNo(g, chain, m)
    ensures k == m
  {
    assert InRange(g, chain);
    SectorPlace(g, chain, k);
    SectorPlace(g, chain, m);
    var i, j := CDiv(k, g.csize), CDiv(m, g.csize);
    if i < j { NoRepeat(t, chain, i, j); } else if j < i { NoRepeat(t, chain, j, i); }
    hide Geometry.WellFormed;
    ClusterSplit(k, g.csize);
    ClusterSplit(m, g.csize);
  }

  /** The sectors of a file lie on its own clusters. */
  lemma SectorsOwn(g: Geometry, t: Table, others: set<Chain>, chain: Chain, k: int)
    requires g.WellFormed() && |t| == g.nFatent && Forest(t, others + {chain}) && chain !in others
    requires 0 <= k < Span(g, chain)
    ensures InRange(g, chain) && Own(g, others, SectorNo(g, chain, k))
  {
    Members(t, others + {chain});
    hide Forest;
    assert InRange(g, chain);
    SectorPlace(g, chain, k);
    var c := chain[CDiv(k, g.csize)];
    assert c in chain;
    hide Geometry.WellFormed, IsChain;
    forall r | r in others ensures c !in r {
      if c in r { Apart(t, others + {chain}, r, chain, c); }
    }
  }

  // ---------- the file as a sequence of sectors ----------

  /** The sectors of the file as the file object sees them: a dirty buffer overlays its sector. */
  function View(g: Geometry, chain: Chain, d: Medium, dirty: bool, dsect: int, b: Sector): (v: seq<Sector>)
    requires g.WellFormed() && InRange(g, chain) && g.DataEnd() <= |d|
    ensures |v| == Span(g, chain)
    ensures forall k :: 0 <= k < |v| ==>
      0 <= SectorNo(g, chain, k) < |d|
      && v[k] == if dirty && dsect == SectorNo(g, chain, k) then b else d[SectorNo(g, chain, k)]
  {
    SectorsInRange(g, chain, d);
    seq(Span(g, chain), k requires 0 <= k < Span(g, chain) && 0 <= SectorNo(g, chain, k) < |d| =>
      if dirty && dsect == SectorNo(g, chain, k) then b else d[SectorNo(g, chain, k)])
  }

  lemma SectorsInRange(g: Geometry, chain: Chain, d: Medium)
    requires g.WellFormed() && InRange(g, chain) && g.DataEnd() <= |d|
    ensures forall k :: 0 <= k < Span(g, chain) ==> 0 <= SectorNo(g, chain, k) < |d|
  {
    forall k | 0 <= k < Span(g, chain) ensures 0 <= SectorNo(g, chain, k) < |d| {
      SectorPlace(g, chain, k);
    }
  }

  /** Writing the dirty buffer back does not change what the file object sees. */
  lemma WriteBackKeepsView(g: Geometry, chain: Chain, d: Medium, dsect: int, b: Sector)
    requires g.WellFormed() && InRange(g, chain) && g.DataEnd() <= |d| && 0 <= dsect < |d|
    ensures View(g, chain, d[dsect := b], false, dsect, b) == View(g, chain, d, true, dsect, b)
  {
    hide Geometry.WellFormed, SectorNo, Span;
  }

  /** While the buffer is clean its contents do not matter. */
  lemma CleanView(g: Geometry, chain: Chain, d: Medium, s: int, b: Sector, s': int, b': Sector)
    requires g.WellFormed() && InRange(g, chain) && g.DataEnd() <= |d|
    ensures View(g, chain, d, false, s, b) == View(g, chain, d, false, s', b')
  {
    hide Geometry.WellFormed, SectorNo, Span;
  }

  /** The buffer that holds sector k, changed and dirty. */
  lemma StoreInView(g: Geometry, t: Table, chain: Chain, d: Medium, dirty: bool, s: int, b: Sector, k: int, b': Sector)
    requires g.WellFormed() && IsChain(t, chain) && |t| == g.nFatent && InRange(g, chain) && g.DataEnd() <= |d|
    requires 0 <= k < Span(g, chain) && (dirty ==> s == SectorNo(g, chain, k))
    ensures View(g, chain, d, true, SectorNo(g, chain, k), b') == View(g, chain, d, dirty, s, b)[k := b']
  {
    var v := View(g, chain, d, dirty, s, b);
    var w := View(g, chain, d, true, SectorNo(g, chain, k), b');
    hide Geometry.WellFormed, SectorNo, Span, IsChain;
    forall m | 0 <= m < |v| ensures w[m] == v[k := b'][m] {
      if SectorNo(g, chain, m) == SectorNo(g, chain, k) {
        SectorNoInjective(g, t, chain, m, k);
      }
    }
  }

  /** A longer chain shows the same sectors first, if the data sectors are the same. */
  lemma LongerView(g: Geometry, chain: Chain, chain': Chain, d: Medium, d': Medium, dirty: bool, s: int, b: Sector)
    requires g.WellFormed() && InRange(g, chain') && chain <= chain'
    requires InRange(g, chain) && g.DataEnd() <= |d| && |d'| == |d|
    requires forall s :: g.InData(s) ==> d'[s] == d[s]
    ensures Span(g, chain) <= Span(g, chain')
    ensures View(g, chain', d', dirty, s, b)[..Span(g, chain)] == View(g, chain, d, dirty, s, b)
  {
    var v, v' := View(g, chain, d, dirty, s, b), View(g, chain', d', dirty, s, b);
    assert |v| <= |v'| by { SpanGrows(g, chain, chain'); }
    forall k | 0 <= k < |v| ensures v'[k] == v[k] {
      SectorPlace(g, chain, k);
      assert SectorNo(g, chain', k) == SectorNo(g, chain, k) by { SamePlace(g, chain, chain', k); }
    }
  }

  lemma SpanGrows(g: Geometry, chain: Chain, chain': Chain)
    requires ClusterSize(g.csize) && |chain| <= |chain'|
    ensures Span(g, chain) <= Span(g, chain')
  {
  }

  lemma SamePlace(g: Geometry, chain: Chain, chain': Chain, k: int)
    requires ClusterSize(g.csize) && chain <= chain' && 0 <= k < Span(g, chain) <= Span(g, chain')
    ensures SectorNo(g, chain', k) == SectorNo(g, chain, k)
  {
    SpanIndex(g, chain, k);
    assert chain == chain'[..|chain|];
  }

  // ---------- runs of sectors inside one cluster ----------

  /** Consecutive file sectors of one cluster are consecutive on the disk. */
  lemma RunPlace(g: Geometry, chain: Chain, k: int, cc: int)
    requires g.WellFormed() && InRange(g, chain) && 0 <= k < Span(g, chain)
    requires 0 < cc && CMod(k, g.csize) + cc <= g.csize
    ensures k + cc <= Span(g, chain)
    ensures forall j :: k <= j < k + cc ==> SectorNo(g, chain, j) == SectorNo(g, chain, k) + (j - k)
    ensures g.InData(SectorNo(g, chain, k)) && g.InData(SectorNo(g, chain, k) + cc - 1)
  {
    SpanIndex(g, chain, k);
    ClusterSplit(k, g.csize);
    var q, r := CDiv(k, g.csize), CMod(k, g.csize);
    g.SectorInCluster(chain[q], r);
    g.SectorInCluster(chain[q], r + cc - 1);
    assert CMul(q + 1, g.csize) == CMul(q, g.csize) + g.csize;
    hide Geometry.WellFormed;
    forall j | k <= j < k + cc
      ensures j < Span(g, chain) && SectorNo(g, chain, j) == SectorNo(g, chain, k) + (j - k)
    {
      ClusterSplitUnique(j, g.csize, q, r + (j - k));
    }
    assert k + cc - 1 < Span(g, chain);
  }

  /** Replacing a run of sectors on the disk replaces the run in the view of a clean file. */
  lemma WriteRunInView(g: Geometry, t: Table, chain: Chain, d: Medium, e: Medium, k: int, cc: int,
                       s: int, b: Sector, s': int, b': Sector)
    requires g.WellFormed() && IsChain(t, chain) && |t| == g.nFatent && InRange(g, chain)
    requires g.DataEnd() <= |d| && |e| == |d|
    requires 0 <= k < Span(g, chain) && 0 < cc && CMod(k, g.csize) + cc <= g.csize
    requires var sect := SectorNo(g, chain, k);
             forall x :: 0 <= x < |d| && !(sect <= x < sect + cc) ==> e[x] == d[x]
    ensures k + cc <= Span(g, chain)
    ensures var v, w := View(g, chain, d, false, s, b), View(g, chain, e, false, s', b');
            && |w| == |v|
            && (forall m :: 0 <= m < |v| && !(k <= m < k + cc) ==> w[m] == v[m])
            && (forall m :: k <= m < k + cc ==>
                  0 <= SectorNo(g, chain, k) + (m - k) < |e| && w[m] == e[SectorNo(g, chain, k) + (m - k)])
  {
    RunPlace(g, chain, k, cc);
    SectorsInRange(g, chain, d);
    var v, w := View(g, chain, d, false, s, b), View(g, chain, e, false, s', b');
    hide Geometry.WellFormed, SectorNo, Span, IsChain;
    var sect := SectorNo(g, chain, k);
    forall m | 0 <= m < |v|
      ensures !(k <= m < k + cc) ==> w[m] == v[m]
      ensures k <= m < k + cc ==> 0 <= sect + (m - k) < |e| && w[m] == e[sect + (m - k)]
    {
      var x := SectorNo(g, chain, m);
      if !(k <= m < k + cc) && sect <= x < sect + cc {
        var j := k + (x - sect);
        assert SectorNo(g, chain, j) == x;
        SectorNoInjective(g, t, chain, m, j);
      }
    }
  }

  // ---------- bytes ----------

  /** Byte i of a sequence of sectors. */
  function At(v: seq<Sector>, ss: int, i: int): byte
    requires SectorSize(ss) && 0 <= i < SMul(|v|, ss) && forall k :: 0 <= k < |v| ==> |v[k]| == ss
  {
    SectorSplit(i, ss);
    v[SDiv(i, ss)][SMod(i, ss)]
  }

  /** The first size bytes of a sequence of sectors. */
  function Content(v: seq<Sector>, ss: int, size: nat): (r: seq<byte>)
    requires SectorSize(ss) && size <= SMul(|v|, ss) && forall k :: 0 <= k < |v| ==> |v[k]| == ss
    ensures |r| == size
    ensures forall i :: 0 <= i < size ==> r[i] == At(v, ss, i)
  {
    seq(size, i requires 0 <= i < size => At(v, ss, i))
  }

  /** Byte j after the start of sector k. */
  lemma AtSector(v: seq<Sector>, ss: int, k: int, j: int)
    requires SectorSize(ss) && 0 <= k && 0 <= j && SMul(k, ss) + j < SMul(|v|, ss)
    requires forall k :: 0 <= k < |v| ==> |v[k]| == ss
    ensures 0 <= k + SDiv(j, ss) < |v| && 0 <= SMod(j, ss) < ss
    ensures At(v, ss, SMul(k, ss) + j) == v[k + SDiv(j, ss)][SMod(j, ss)]
  {
    SectorSplit(j, ss);
    SectorSplit(SMul(k, ss) + j, ss);
    SectorSplitUnique(SMul(k, ss) + j, ss, k + SDiv(j, ss), SMod(j, ss));
  }

  lemma AtInSector(v: seq<Sector>, ss: int, k: int, j: int)
    requires SectorSize(ss) && 0 <= k < |v| && 0 <= j < ss && forall k :: 0 <= k < |v| ==> |v[k]| == ss
    ensures 0 <= SMul(k, ss) + j < SMul(|v|, ss) && At(v, ss, SMul(k, ss) + j) == v[k][j]
  {
    SectorSplitUnique(SMul(k, ss) + j, ss, k, j);
    RunFits(k, |v|, ss);
  }

  // ---------- what a file operation leaves alone ----------

  /** From medium d to e, with the file's chain grown from chain to chain': no sector outside the FAT has changed
      except data sectors that no other file owns, and no FAT entry off the chain (none at all if it has not grown). */
  ghost predicate Untouched(g: Geometry, others: set<Chain>, chain: Chain, chain': Chain, d: Medium, e: Medium)
  {
    && MediumOk(d, g) && MediumOk(e, g) && |d| == |e| && chain <= chain'
    && (forall s :: 0 <= s < |d| && !g.InFat(s) && !Own(g, others, s) ==> e[s] == d[s])
    && (forall c :: 0 <= c < g.nFatent && c !in chain' ==> TableOf(e, g)[c] == TableOf(d, g)[c])
    && (chain == chain' ==> TableOf(e, g) == TableOf(d, g))
  }

  lemma UntouchedSame(g: Geometry, others: set<Chain>, chain: Chain, d: Medium)
    requires MediumOk(d, g)
    ensures Untouched(g, others, chain, chain, d, d)
  {
  }

  lemma UntouchedAgain(g: Geometry, others: set<Chain>, a: Chain, b: Chain, c: Chain, d: Medium, e: Medium, f: Medium)
    requires Untouched(g, others, a, b, d, e) && Untouched(g, others, b, c, e, f)
    ensures Untouched(g, others, a, c, d, f)
  {
    assert ClusterSize(g.csize);
    hide Own, MediumOk, TableOf, Geometry.WellFormed;
    assert forall x :: x in b ==> x in c;
    forall s | 0 <= s < |d| && !g.InFat(s) && !Own(g, others, s) ensures f[s] == d[s] {
      assert e[s] == d[s];
    }
  }

  lemma UntouchedStore(g: Geometry, others: set<Chain>, chain: Chain, d: Medium, s: int, b: Sector)
    requires MediumOk(d, g) && 0 <= s < |d| && MediumOk(d[s := b], g)
    requires Own(g, others, s) && TableOf(d[s := b], g) == TableOf(d, g)
    ensures Untouched(g, others, chain, chain, d, d[s := b])
  {
    hide Own, MediumOk, TableOf, Geometry.WellFormed;
  }

  lemma UntouchedRun(g: Geometry, others: set<Chain>, chain: Chain, d: Medium, s: nat, data: seq<byte>, cc: nat)
    requires MediumOk(d, g) && s + cc <= |d| && SMul(cc, g.ss) <= |data|
    requires forall x :: s <= x < s + cc ==> Own(g, others, x)
    requires var e := PutRun(d, g.ss, s, data, cc); MediumOk(e, g) && TableOf(e, g) == TableOf(d, g)
    ensures Untouched(g, others, chain, chain, d, PutRun(d, g.ss, s, data, cc))
  {
    hide Own, MediumOk, TableOf, Geometry.WellFormed, SMul;
  }

  lemma UntouchedFat(g: Geometry, others: set<Chain>, chain: Chain, chain': Chain, d: Medium, e: Medium)
    requires MediumOk(d, g) && MediumOk(e, g) && SameOutsideFat(d, e, g) && chain <= chain'
    requires forall c :: 0 <= c < g.nFatent && c !in chain' ==> TableOf(e, g)[c] == TableOf(d, g)[c]
    requires chain == chain' ==> TableOf(e, g) == TableOf(d, g)
    ensures Untouched(g, others, chain, chain', d, e)
  {
    hide Own, MediumOk, TableOf, Geometry.WellFormed;
  }

  /** sect is no sector of a file. */
  ghost predicate Outside(g: Geometry, chain: Chain, sect: int)
    requires ClusterSize(g.csize)
  {
    forall k :: 0 <= k < Span(g, chain) ==> SectorNo(g, chain, k) != sect
  }

  /** No sector of a cluster outside a chain is a sector of the chain. */
  lemma SectorElsewhere(g: Geometry, chain: Chain, c: dword, o: nat)
    requires g.WellFormed() && InRange(g, chain) && g.IsCluster(c) && c !in chain && o < g.csize
    ensures 0 < g.ClustToSect(c) && g.ClustToSect(c) + o <= 0xFFFF_FFFF && Outside(g, chain, g.ClustToSect(c) + o)
  {
    g.SectorInCluster(c, o);
    forall k | 0 <= k < Span(g, chain) ensures SectorNo(g, chain, k) != g.ClustToSect(c) + o {
      SectorPlace(g, chain, k);
    }
  }
}
