/** Cluster chains in a FAT, as mathematics on the table. */
module Chains {
  import opened Layout
  import opened PackedTable

  type Chain = seq<nat>

  /** s is a whole chain: each link leads to the next element, the last one holds an end mark. */
  ghost predicate IsChain(t: Table, s: Chain) {
    && |s| > 0
    && (forall i :: 0 <= i < |s| ==> 2 <= s[i] < |t|)
    && (forall i {:trigger t[s[i]]} :: 0 <= i < |s| - 1 ==> t[s[i]] == s[i + 1])
    && t[s[|s| - 1]] >= |t|
  }

  /** The used clusters of t are exactly the clusters of the disjoint chains cs. */
  ghost predicate Forest(t: Table, cs: set<Chain>) {
    && (forall s :: s in cs ==> IsChain(t, s))
    && (forall s, r, c :: s in cs && r in cs && c in s && c in r ==> s == r)
    && (forall c :: 2 <= c < |t| && t[c] != 0 ==> exists s :: s in cs && c in s)
  }

  /** No entry links to a cluster whose own entry is free. */
  ghost predicate NoLinkToFree(t: Table) {
    forall c :: 2 <= c < |t| && 2 <= t[c] < |t| ==> t[t[c]] != 0
  }

  /** t with the entries of the clusters in s set free. */
  function Zeroed(t: Table, s: Chain): (r: Table)
    ensures |r| == |t|
    ensures forall c :: 0 <= c < |t| ==> r[c] == if c in s then 0 else t[c]
  {
    seq(|t|, c requires 0 <= c < |t| => if c in s then 0 else t[c])
  }

  // ---------- chains ----------

  /** A chain that ends is acyclic. */
  lemma {:induction false} NoRepeat(t: Table, s: Chain, i: nat, j: nat)
    requires IsChain(t, s) && i < j < |s|
    ensures s[i] != s[j]
    decreases |s| - j
  {
    if s[i] == s[j] {
      if j == |s| - 1 {
        assert false;
      } else {
        assert t[s[i]] == s[i + 1] && t[s[j]] == s[j + 1];
        NoRepeat(t, s, i + 1, j + 1);
        assert false;
      }
    }
  }

  lemma ChainElementsUsed(t: Table, s: Chain, c: nat)
    requires IsChain(t, s) && c in s
    ensures 2 <= c < |t| && t[c] >= 2
  {
    var i :| 0 <= i < |s| && s[i] == c;
    if i < |s| - 1 {
      assert t[s[i]] == s[i + 1];
    }
  }

  /** The head determines the chain. */
  lemma {:induction false} SameHead(t: Table, s: Chain, r: Chain, k: nat)
    requires IsChain(t, s) && IsChain(t, r) && s[0] == r[0] && k < |s|
    ensures k < |r| && s[..k + 1] == r[..k + 1]
  {
    if k > 0 {
      SameHead(t, s, r, k - 1);
      assert s[k - 1] == s[..k][k - 1] == r[..k][k - 1] == r[k - 1];
      assert t[s[k - 1]] == s[k];
      if k == |r| {
        assert false;
      }
      assert t[r[k - 1]] == r[k];
    }
  }

  lemma HeadDetermines(t: Table, s: Chain, r: Chain)
    requires IsChain(t, s) && IsChain(t, r) && s[0] == r[0]
    ensures s == r
  {
    SameHead(t, s, r, |s| - 1);
    SameHead(t, r, s, |r| - 1);
  }

  /** A chain survives changes outside it. */
  lemma ChainFrame(t: Table, u: Table, s: Chain)
    requires IsChain(t, s) && |u| == |t| && forall c :: c in s ==> c < |t| && u[c] == t[c]
    ensures IsChain(u, s)
  {
    forall i | 0 <= i < |s| - 1 ensures u[s[i]] == s[i + 1] {
      assert s[i] in s;
    }
    assert s[|s| - 1] in s;
  }

  // ---------- forests ----------

  /** The chain a used cluster belongs to. */
  lemma Covering(t: Table, cs: set<Chain>, c: nat) returns (s: Chain, i: nat)
    requires Forest(t, cs) && 2 <= c < |t| && t[c] != 0
    ensures s in cs && IsChain(t, s) && i < |s| && s[i] == c && c in s
  {
    hide IsChain;
    s :| s in cs && c in s;
    i :| 0 <= i < |s| && s[i] == c;
  }

  lemma Apart(t: Table, cs: set<Chain>, s: Chain, r: Chain, c: nat)
    requires Forest(t, cs) && s in cs && r in cs && c in s && c in r
    ensures s == r
  {
    hide IsChain;
  }

  lemma NoneShared(t: Table, cs: set<Chain>, s: Chain, r: Chain)
    requires Forest(t, cs) && s in cs && r in cs && s != r
    ensures forall c :: c in r ==> c !in s
  {
    hide IsChain;
  }

  lemma Members(t: Table, cs: set<Chain>)
    requires Forest(t, cs)
    ensures forall s :: s in cs ==> IsChain(t, s)
  {
    hide IsChain;
  }

  lemma ForestIsSafe(t: Table, cs: set<Chain>)
    requires Forest(t, cs)
    ensures NoLinkToFree(t)
  {
    hide Forest;
    forall c | 2 <= c < |t| && 2 <= t[c] < |t| ensures t[t[c]] != 0 {
      var s, i := Covering(t, cs, c);
      assert i < |s| - 1;
      assert s[i + 1] in s;
      ChainElementsUsed(t, s, s[i + 1]);
    }
  }

  /** A table has at most one decomposition into chains. */
  lemma ForestUnique(t: Table, cs: set<Chain>, ds: set<Chain>)
    requires Forest(t, cs) && Forest(t, ds)
    ensures cs == ds
  {
    forall s | s in cs ensures s in ds { ForestMember(t, cs, ds, s); }
    forall s | s in ds ensures s in cs { ForestMember(t, ds, cs, s); }
  }

  lemma ForestMember(t: Table, cs: set<Chain>, ds: set<Chain>, s: Chain)
    requires Forest(t, cs) && Forest(t, ds) && s in cs
    ensures s in ds
  {
    hide Forest;
    Members(t, cs);
    assert s[0] in s;
    ChainElementsUsed(t, s, s[0]);
    var r, i := Covering(t, ds, s[0]);
    if i > 0 {
      // r[i - 1] links to the head of s, so it would lie on s itself, before the head
      var p := r[i - 1];
      assert p in r && t[p] == s[0];
      ChainElementsUsed(t, r, p);
      var q, j := Covering(t, cs, p);
      assert q[j + 1] == s[0] && s[0] in q;
      Apart(t, cs, s, q, s[0]);
      NoRepeat(t, s, 0, j + 1);
      assert false;
    }
    HeadDetermines(t, s, r);
  }

  /** u is t with the chain s exchanged for s', which uses clusters of s and free ones. */
  ghost predicate Exchanged(t: Table, u: Table, s: Chain, s': Chain) {
    && |u| == |t| && IsChain(u, s')
    && (forall c :: c in s' ==> c in s || (c < |t| && t[c] == 0))
    && (forall c :: 0 <= c < |t| && c !in s' ==> u[c] == if c in s then 0 else t[c])
  }

  lemma OtherChain(t: Table, u: Table, cs: set<Chain>, s: Chain, s': Chain, r: Chain)
    requires Forest(t, cs) && s in cs && r in cs && r != s && Exchanged(t, u, s, s')
    ensures IsChain(u, r) && forall c :: c in r ==> c !in s'
  {
    Members(t, cs);
    forall c: nat | c in r ensures c < |t| && u[c] == t[c] && c !in s' {
      hide IsChain;
      ChainElementsUsed(t, r, c);
      if c in s { Apart(t, cs, s, r, c); }
    }
    ChainFrame(t, u, r);
  }

  lemma ReplaceChain(t: Table, u: Table, cs: set<Chain>, s: Chain, s': Chain)
    requires Forest(t, cs) && s in cs && Exchanged(t, u, s, s')
    ensures Forest(u, cs - {s} + {s'})
  {
    hide IsChain;
    var ds := cs - {s} + {s'};
    forall r | r in cs - {s} ensures IsChain(u, r) && forall c :: c in r ==> c !in s' {
      OtherChain(t, u, cs, s, s', r);
    }
    forall c | 2 <= c < |u| && u[c] != 0 ensures exists r :: r in ds && c in r {
      if c !in s' {
        var r, i := Covering(t, cs, c);
        assert r in ds;
      }
    }
  }

  /** create_chain on a chain: the free cluster becomes the new tail of exactly that chain. */
  lemma AppendCluster(t: Table, cs: set<Chain>, s: Chain, ncl: nat, mark: nat)
    requires Forest(t, cs) && s in cs && 2 <= ncl < |t| && t[ncl] == 0 && mark >= |t|
    ensures IsChain(t, s) && 2 <= s[|s| - 1] < |t| && ncl !in s
    ensures Forest(t[ncl := mark][s[|s| - 1] := ncl], cs - {s} + {s + [ncl]})
  {
    hide Forest;
    Members(t, cs);
    var last := s[|s| - 1];
    var u := t[ncl := mark][last := ncl];
    var s' := s + [ncl];
    if ncl in s { ChainElementsUsed(t, s, ncl); assert false; }
    assert last in s;
    forall i | 0 <= i < |s'| - 1 ensures u[s'[i]] == s'[i + 1] {
      if i < |s| - 1 {
        NoRepeat(t, s, i, |s| - 1);
        assert s[i] in s && t[s[i]] == s[i + 1];
      }
    }
    forall c | 0 <= c < |t| && c !in s' ensures u[c] == if c in s then 0 else t[c] {
      assert c in s ==> c in s';
      assert ncl in s' && last in s';
    }
    ReplaceChain(t, u, cs, s, s');
  }

  /** create_chain on cluster 0: a new chain of one cluster. */
  lemma StartChain(t: Table, cs: set<Chain>, ncl: nat, mark: nat)
    requires Forest(t, cs) && 2 <= ncl < |t| && t[ncl] == 0 && mark >= |t|
    ensures Forest(t[ncl := mark], cs + {[ncl]})
  {
    var u := t[ncl := mark];
    var ds := cs + {[ncl]};
    forall r | r in cs ensures IsChain(u, r) && ncl !in r {
      if ncl in r { ChainElementsUsed(t, r, ncl); assert false; }
      ChainFrame(t, u, r);
    }
    forall c | 2 <= c < |u| && u[c] != 0 ensures exists r :: r in ds && c in r {
      if c == ncl {
        assert c in [ncl];
      } else {
        var r :| r in cs && c in r;
        assert r in ds;
      }
    }
  }

  /** Freeing the clusters of one chain leaves all the others. */
  lemma FreeChain(t: Table, cs: set<Chain>, s: Chain)
    requires Forest(t, cs) && s in cs
    ensures Forest(Zeroed(t, s), cs - {s})
  {
    hide IsChain;
    Members(t, cs);
    var u := Zeroed(t, s);
    var ds := cs - {s};
    forall r | r in ds ensures IsChain(u, r) {
      NoneShared(t, cs, s, r);
      forall c | c in r ensures c < |t| && u[c] == t[c] { ChainElementsUsed(t, r, c); }
      ChainFrame(t, u, r);
    }
    forall c | 2 <= c < |u| && u[c] != 0 ensures exists r :: r in ds && c in r {
      var r, i := Covering(t, cs, c);
      assert r in ds;
    }
  }

  lemma FrontPart(t: Table, s: Chain, k: nat, mark: nat)
    requires IsChain(t, s) && 0 < k < |s| && mark >= |t|
    ensures 2 <= s[k - 1] < |t| && IsChain(t[s[k - 1] := mark], s[..k])
  {
    var u, f := t[s[k - 1] := mark], s[..k];
    forall i | 0 <= i < k - 1 ensures u[f[i]] == f[i + 1] {
      NoRepeat(t, s, i, k - 1);
      assert t[s[i]] == s[i + 1];
    }
  }

  lemma BackPart(t: Table, s: Chain, k: nat, mark: nat)
    requires IsChain(t, s) && 0 < k < |s|
    ensures 2 <= s[k - 1] < |t| && IsChain(t[s[k - 1] := mark], s[k..])
  {
    var u, b := t[s[k - 1] := mark], s[k..];
    forall i | 0 <= i < |b| ensures b[i] != s[k - 1] {
      NoRepeat(t, s, k - 1, k + i);
    }
    forall i | 0 <= i < |b| - 1 ensures u[b[i]] == b[i + 1] {
      assert b[i] == s[k + i] && b[i + 1] == s[k + i + 1];
      assert t[s[k + i]] == s[k + i + 1];
    }
  }

  lemma PartsApart(t: Table, s: Chain, k: nat, c: nat)
    requires IsChain(t, s) && 0 < k < |s| && c in s[..k]
    ensures c !in s[k..]
  {
    if c in s[k..] {
      var i :| 0 <= i < k && s[i] == c;
      var j :| 0 <= j < |s| - k && s[k..][j] == c;
      NoRepeat(t, s, i, k + j);
      assert false;
    }
  }

  /** The two parts of a chain split after k clusters. */
  lemma SplitParts(t: Table, s: Chain, k: nat, mark: nat)
    requires IsChain(t, s) && 0 < k < |s| && mark >= |t|
    ensures 2 <= s[k - 1] < |t| && IsChain(t[s[k - 1] := mark], s[..k]) && IsChain(t[s[k - 1] := mark], s[k..])
    ensures forall c :: c in s[..k] ==> c !in s[k..]
  {
    hide IsChain;
    FrontPart(t, s, k, mark);
    BackPart(t, s, k, mark);
    forall c | c in s[..k] ensures c !in s[k..] { PartsApart(t, s, k, c); }
  }

  /** Setting the end mark on a chain's k-th cluster splits it in two. */
  lemma SplitChain(t: Table, cs: set<Chain>, s: Chain, k: nat, mark: nat)
    requires Forest(t, cs) && s in cs && 0 < k < |s| && mark >= |t|
    ensures IsChain(t, s) && 2 <= s[k - 1] < |t|
    ensures Forest(t[s[k - 1] := mark], cs - {s} + {s[..k], s[k..]})
  {
    hide IsChain;
    Members(t, cs);
    SplitParts(t, s, k, mark);
    var at := s[k - 1];
    var u, ds := t[at := mark], cs - {s} + {s[..k], s[k..]};
    assert s == s[..k] + s[k..] && at in s;
    ChainElementsUsed(t, s, at);
    forall r | r in cs - {s} ensures IsChain(u, r) && forall c :: c in r ==> c !in s {
      forall c | c in r ensures c !in s && c < |t| { ChainElementsUsed(t, r, c); }
      ChainFrame(t, u, r);
    }
    forall c | 2 <= c < |u| && u[c] != 0 ensures exists r :: r in ds && c in r {
      var r, i := Covering(t, cs, c);
      if r == s {
        assert s[..k] in ds && s[k..] in ds && (c in s[..k] || c in s[k..]);
      } else {
        assert r in ds;
      }
    }
  }

  /** Ending a chain after k clusters and freeing the rest leaves the prefix and all other chains. */
  lemma CutChain(t: Table, cs: set<Chain>, s: Chain, k: nat, mark: nat)
    requires Forest(t, cs) && s in cs && 0 < k < |s| && mark >= |t|
    ensures IsChain(t, s) && 2 <= s[k - 1] < |t|
    ensures Forest(Zeroed(t[s[k - 1] := mark], s[k..]), cs - {s} + {s[..k]})
  {
    hide Forest, IsChain, Zeroed;
    SplitChain(t, cs, s, k, mark);
    var ds := cs - {s} + {s[..k], s[k..]};
    FreeChain(t[s[k - 1] := mark], ds, s[k..]);
    PartsDiffer(t, cs, s, k);
    assert ds - {s[k..]} == cs - {s} + {s[..k]};
  }

  lemma PartsDiffer(t: Table, cs: set<Chain>, s: Chain, k: nat)
    requires Forest(t, cs) && s in cs && 0 < k < |s|
    ensures s[..k] != s[k..] && s[k..] !in cs - {s}
  {
    hide IsChain;
    Members(t, cs);
    SplitParts(t, s, k, |t|);
    assert s[k..][0] == s[k] && s[..k][0] == s[0];
    assert s[k] in s && s[k] in s[k..] && s[0] in s[..k];
  }
}
