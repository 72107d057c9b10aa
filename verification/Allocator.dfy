/** What create_chain and remove_chain do to the table. */
module Allocation {
  import opened Bytes
  import opened Layout
  import opened PackedTable
  import opened Chains

  // ---------- free clusters ----------

  function FreeSet(t: Table): set<nat> {
    set c | 2 <= c < |t| && t[c] == 0
  }

  function UsedSet(t: Table): set<nat> {
    set c | 2 <= c < |t| && t[c] != 0
  }

  function FreeCount(t: Table): nat {
    |FreeSet(t)|
  }

  /** No cluster is free. */
  predicate Full(t: Table) {
    forall c :: 2 <= c < |t| ==> t[c] != 0
  }

  function Clusters(n: nat): (r: set<nat>)
    ensures forall c :: c in r <==> 2 <= c < n
    ensures |r| == if n >= 2 then n - 2 else 0
  {
    if n <= 2 then {} else Clusters(n - 1) + {n - 1}
  }

  lemma FreeCountBound(t: Table)
    requires |t| >= 2
    ensures FreeCount(t) <= |t| - 2
  {
    Subset(FreeSet(t), Clusters(|t|));
  }

  lemma Subset(a: set<nat>, b: set<nat>)
    requires a <= b
    ensures |a| <= |b|
  {
    assert b == a + (b - a);
  }

  lemma FreeOne(t: Table, c: nat)
    requires 2 <= c < |t| && t[c] != 0
    ensures FreeCount(t[c := 0]) == FreeCount(t) + 1
  {
    assert FreeSet(t[c := 0]) == FreeSet(t) + {c};
  }

  lemma UseOne(t: Table, c: nat, v: nat)
    requires 2 <= c < |t| && t[c] == 0 && v != 0
    ensures FreeCount(t[c := v]) == FreeCount(t) - 1
  {
    assert FreeSet(t) == FreeSet(t[c := v]) + {c};
  }

  lemma RelinkOne(t: Table, c: nat, v: nat)
    requires 2 <= c < |t| && t[c] != 0 && v != 0
    ensures FreeCount(t[c := v]) == FreeCount(t)
  {
    assert FreeSet(t[c := v]) == FreeSet(t);
  }

  function Elements(s: Chain): set<nat> {
    set c | c in s
  }

  lemma {:induction false} DistinctCount(s: Chain)
    requires forall i, j :: 0 <= i < j < |s| ==> s[i] != s[j]
    ensures |Elements(s)| == |s|
  {
    if s == [] {
      assert Elements(s) == {};
    } else {
      var r := s[..|s| - 1];
      DistinctCount(r);
      assert s == r + [s[|s| - 1]];
      assert Elements(s) == Elements(r) + {s[|s| - 1]};
    }
  }

  /** A chain is no longer than the volume has clusters. */
  lemma ChainLength(t: Table, s: Chain)
    requires IsChain(t, s) && |t| >= 2
    ensures |s| <= |t| - 2
  {
    forall i, j | 0 <= i < j < |s| ensures s[i] != s[j] { NoRepeat(t, s, i, j); }
    DistinctCount(s);
    Subset(Elements(s), Clusters(|t|));
  }

  // ---------- remove_chain ----------

  /** The table after removing from cluster c on, and the result code. */
  function Removed(t: Table, c: nat): (r: (Table, FResult))
    requires c >= 2
    ensures |r.0| == |t|
    decreases UsedSet(t)
  {
    if c >= |t| || t[c] == 0 then (t, FrOk)
    else if t[c] == 1 then (t, FrIntErr)
    else
      assert c in UsedSet(t) && UsedSet(t[c := 0]) == UsedSet(t) - {c};
      Removed(t[c := 0], t[c])
  }

  /** On any table whatever, removal only frees entries and ends at an end mark, a free entry or a 1. */
  lemma {:induction false} RemovedOnlyFrees(t: Table, c: nat)
    requires c >= 2
    ensures forall k :: 0 <= k < |t| ==> Removed(t, c).0[k] == t[k] || (2 <= k && Removed(t, c).0[k] == 0)
    ensures Removed(t, c).1 == FrOk || Removed(t, c).1 == FrIntErr
    ensures Removed(t, c).1 == FrIntErr ==> exists k :: 2 <= k < |t| && t[k] == 1
    decreases UsedSet(t)
  {
    if c < |t| && t[c] > 1 {
      assert c in UsedSet(t) && UsedSet(t[c := 0]) == UsedSet(t) - {c};
      RemovedOnlyFrees(t[c := 0], t[c]);
      if Removed(t, c).1 == FrIntErr {
        var k :| 2 <= k < |t| && t[c := 0][k] == 1;
        assert t[k] == 1;
      }
    }
  }

  lemma TailIsChain(t: Table, s: Chain)
    requires IsChain(t, s) && |s| > 1
    ensures IsChain(t[s[0] := 0], s[1..])
  {
    var u, r := t[s[0] := 0], s[1..];
    forall i | 0 <= i < |r| - 1 ensures u[r[i]] == r[i + 1] {
      NoRepeat(t, s, 0, i + 1);
      assert t[s[i + 1]] == s[i + 2];
    }
    NoRepeat(t, s, 0, |s| - 1);
  }

  /** remove_chain on the head of a chain frees exactly that chain. */
  lemma {:induction false} RemovedIsZeroed(t: Table, s: Chain)
    requires IsChain(t, s)
    ensures Removed(t, s[0]) == (Zeroed(t, s), FrOk)
    decreases |s|
  {
    var u := t[s[0] := 0];
    ChainElementsUsed(t, s, s[0]);
    assert Removed(t, s[0]) == Removed(u, t[s[0]]);
    if |s| == 1 {
      assert Zeroed(t, s) == u;
    } else {
      assert t[s[0]] == s[1];
      TailIsChain(t, s);
      hide IsChain, Removed;
      RemovedIsZeroed(u, s[1..]);
      assert s == [s[0]] + s[1..];
      assert Zeroed(u, s[1..]) == Zeroed(t, s);
    }
  }

  /** No entry links to c, and no two entries link to the same cluster. */
  ghost predicate Detached(t: Table, c: nat) {
    && (forall k :: 2 <= k < |t| ==> t[k] != c)
    && (forall k, l :: 2 <= k < |t| && 2 <= l < |t| && k != l && 2 <= t[k] < |t| ==> t[k] != t[l])
  }

  /** Freeing a detached cluster creates no link to a free one, and detaches its successor. */
  lemma DetachedStep(t: Table, c: nat)
    requires NoLinkToFree(t) && 2 <= c < |t| && Detached(t, c) && t[c] >= 2
    ensures NoLinkToFree(t[c := 0])
    ensures t[c] < |t| ==> Detached(t[c := 0], t[c])
  {
  }

  /** An entry that links to c lies right before c on c's chain. */
  lemma Predecessor(t: Table, cs: set<Chain>, s: Chain, c: nat, k: nat) returns (i: nat)
    requires Forest(t, cs) && s in cs && c in s && 2 <= k < |t| && t[k] == c
    ensures IsChain(t, s) && i + 1 < |s| && s[i] == k && s[i + 1] == c
  {
    hide Forest;
    Members(t, cs);
    ChainElementsUsed(t, s, c);
    var r;
    r, i := Covering(t, cs, k);
    assert i + 1 < |r|;
    assert r[i + 1] == c && c in r;
    Apart(t, cs, s, r, c);
  }

  lemma LinksInjective(t: Table, cs: set<Chain>, k: nat, l: nat)
    requires Forest(t, cs) && 2 <= k < |t| && 2 <= l < |t| && t[k] == t[l] && 2 <= t[k] < |t|
    ensures k == l
  {
    hide Forest;
    ForestIsSafe(t, cs);
    var s, p := Covering(t, cs, t[k]);
    var i := Predecessor(t, cs, s, t[k], k);
    var j := Predecessor(t, cs, s, t[k], l);
    if i < j { NoRepeat(t, s, i + 1, j + 1); } else if j < i { NoRepeat(t, s, j + 1, i + 1); }
  }

  /** The head of a chain is detached. */
  lemma HeadDetached(t: Table, cs: set<Chain>, s: Chain)
    requires Forest(t, cs) && s in cs
    ensures IsChain(t, s) && Detached(t, s[0])
  {
    hide Forest, IsChain;
    Members(t, cs);
    assert |s| > 0 by { ChainNotEmpty(t, s); }
    assert s[0] in s;
    forall k | 2 <= k < |t| ensures t[k] != s[0] {
      if t[k] == s[0] {
        var i := Predecessor(t, cs, s, s[0], k);
        NoRepeat(t, s, 0, i + 1);
      }
    }
    forall k, l | 2 <= k < |t| && 2 <= l < |t| && k != l && 2 <= t[k] < |t| ensures t[k] != t[l] {
      if t[k] == t[l] {
        LinksInjective(t, cs, k, l);
      }
    }
  }

  lemma ChainNotEmpty(t: Table, s: Chain)
    requires IsChain(t, s)
    ensures |s| > 0
  {
  }

  // ---------- f_getfree ----------

  /** Zero entries among the first c. */
  function ZerosBelow(t: Table, c: nat): nat
    requires c <= |t|
  {
    if c == 0 then 0 else ZerosBelow(t, c - 1) + if t[c - 1] == 0 then 1 else 0
  }

  function FreeBelow(t: Table, c: nat): set<nat> {
    set k | 2 <= k < |t| && k < c && t[k] == 0
  }

  /** Counting zero entries of the whole table counts the free clusters, and entries 0 and 1 if zero. */
  lemma {:induction false} ZerosAreFree(t: Table, c: nat)
    requires 2 <= c <= |t|
    ensures ZerosBelow(t, c) == |FreeBelow(t, c)| + ZerosBelow(t, 2)
    ensures c == |t| ==> FreeBelow(t, c) == FreeSet(t)
  {
    if c == 2 {
      assert FreeBelow(t, c) == {};
    } else {
      ZerosAreFree(t, c - 1);
      assert FreeBelow(t, c) == if t[c - 1] == 0 then FreeBelow(t, c - 1) + {c - 1} else FreeBelow(t, c - 1);
    }
  }

  /** Zero entries among clusters 2 to c - 1. */
  lemma FreeBelowStep(t: Table, c: nat)
    requires 2 <= c < |t|
    ensures |FreeBelow(t, c + 1)| == |FreeBelow(t, c)| + if t[c] == 0 then 1 else 0
  {
    assert FreeBelow(t, c + 1) == if t[c] == 0 then FreeBelow(t, c) + {c} else FreeBelow(t, c);
  }

  lemma FreeBelowEnds(t: Table)
    ensures FreeBelow(t, 2) == {} && FreeBelow(t, |t|) == FreeSet(t)
  {
  }

  // ---------- create_chain ----------

  /** The k-th cluster after start in the cyclic search order. */
  function Candidate(n: nat, start: nat, k: nat): nat
    requires 1 <= start < n && 1 <= k <= n - 2
  {
    if start + k < n then start + k else start + k - n + 2
  }

  /** Every cluster is some candidate. */
  lemma CandidatesCover(n: nat, start: nat, c: nat)
    requires 1 <= start < n && 2 <= c < n
    ensures exists k :: 1 <= k <= n - 2 && Candidate(n, start, k) == c
  {
    var k := if c > start then c - start else c - start + n - 2;
    assert Candidate(n, start, k) == c;
  }

  /** Where a search begins: after the last allocation for a new chain, else after the chain's tail. */
  function SearchStart(n: nat, lastClust: nat, clst: nat): (r: nat)
    requires n >= 3
    ensures clst < n ==> 1 <= r < n
  {
    if clst != 0 then clst else if lastClust == 0 || lastClust >= n then 1 else lastClust
  }

  /** The search passes over the first k candidates: none of them is free, none holds a 1. */
  ghost predicate PassedOver(t: Table, start: nat, k: nat)
    requires 1 <= start < |t| && k <= |t| - 2
  {
    forall j :: 1 <= j <= k ==> t[Candidate(|t|, start, j)] >= 2
  }

  /** c is the first candidate holding 0 or 1. */
  ghost predicate FirstStop(t: Table, start: nat, c: nat)
    requires 1 <= start < |t|
  {
    exists k :: 1 <= k <= |t| - 2 && c == Candidate(|t|, start, k) && PassedOver(t, start, k - 1) && t[c] < 2
  }

  /** The search in plain numbers: a new chain begins after the last cluster taken (after cluster 1 if that is not
      known), a stretch after the chain's tail; upwards, from the last cluster on to cluster 2. */
  lemma NextFitIsPlain(t: Table, lastClust: nat, clst: nat, c: nat)
    requires 3 <= |t| && clst != 1 && clst < |t|
    ensures var start := SearchStart(|t|, lastClust, clst);
            && start == (if clst != 0 then clst else if 1 <= lastClust < |t| then lastClust else 1)
            && (FirstStop(t, start, c) <==>
                  && 2 <= c < |t| && (t[c] == 0 || t[c] == 1)
                  && if c > start then forall x :: start < x < c ==> t[x] >= 2
                     else (forall x :: start < x < |t| ==> t[x] >= 2) && forall x :: 2 <= x < c ==> t[x] >= 2)
  {
    hide FirstStop;
    if FirstStop(t, SearchStart(|t|, lastClust, clst), c) { StopIsFirst(t, SearchStart(|t|, lastClust, clst), c); }
    FirstIsStop(t, SearchStart(|t|, lastClust, clst), c);
  }

  lemma StopIsFirst(t: Table, start: nat, c: nat)
    requires 1 <= start < |t| && FirstStop(t, start, c)
    ensures 2 <= c < |t| && t[c] < 2
    ensures forall x :: 2 <= x < |t| && (if c > start then start < x < c else x > start || x < c) ==> t[x] >= 2
  {
    var n := |t|;
    var k :| 1 <= k <= n - 2 && c == Candidate(n, start, k) && PassedOver(t, start, k - 1) && t[c] < 2;
    forall x | 2 <= x < n && (if c > start then start < x < c else x > start || x < c) ensures t[x] >= 2 {
      var j := if x > start then x - start else x - start + n - 2;
      assert 1 <= j <= k - 1 && Candidate(n, start, j) == x;
    }
  }

  lemma FirstIsStop(t: Table, start: nat, c: nat)
    requires 1 <= start < |t|
    ensures 2 <= c < |t| && t[c] < 2
            && (forall x :: 2 <= x < |t| && (if c > start then start < x < c else x > start || x < c) ==> t[x] >= 2)
            ==> FirstStop(t, start, c)
  {
    if 2 <= c < |t| && t[c] < 2
       && forall x :: 2 <= x < |t| && (if c > start then start < x < c else x > start || x < c) ==> t[x] >= 2 {
      var k := if c > start then c - start else c - start + |t| - 2;
      assert Candidate(|t|, start, k) == c && PassedOver(t, start, k - 1);
      StopHere(t, start, k);
    }
  }

  lemma PassedOneMore(t: Table, start: nat, k: nat)
    requires 1 <= start < |t| && k <= |t| - 2 && (k > 0 ==> PassedOver(t, start, k - 1))
    requires k > 0 ==> t[Candidate(|t|, start, k)] >= 2
    ensures PassedOver(t, start, k)
  {
  }

  lemma StopHere(t: Table, start: nat, k: nat)
    requires 1 <= start < |t| && 1 <= k <= |t| - 2
    requires PassedOver(t, start, k - 1) && t[Candidate(|t|, start, k)] < 2
    ensures FirstStop(t, start, Candidate(|t|, start, k))
  {
    hide PassedOver;
  }

  lemma NothingFree(t: Table, start: nat)
    requires 3 <= |t| && 1 <= start < |t| && PassedOver(t, start, |t| - 2)
    ensures forall c :: 2 <= c < |t| ==> t[c] >= 2
  {
    forall c | 2 <= c < |t| ensures t[c] >= 2 {
      CandidatesCover(|t|, start, c);
    }
  }

  /** The table after cluster c has been taken and linked to clst (0 for a new chain). */
  function Taken(t: Table, clst: nat, c: nat, mark: nat): (r: Table)
    requires clst < |t| && c < |t|
    ensures |r| == |t|
  {
    if clst == 0 then t[c := mark] else t[c := mark][clst := c]
  }

  /** Exactly two entries of the table may differ: the mark in the new cluster, and the link to it. */
  lemma TakenIs(t: Table, clst: nat, c: nat, mark: nat, k: nat)
    requires clst < |t| && 2 <= c < |t| && clst != c && k < |t|
    ensures Taken(t, clst, c, mark)[k] == if k == c then mark else if k == clst && clst != 0 then c else t[k]
  {
  }

  /** Whether create_chain has to find a new cluster. */
  predicate NeedsNew(t: Table, clst: nat) {
    clst == 0 || (2 <= clst < |t| && t[clst] >= |t|)
  }

  /** Taking the cluster keeps the order in which the table may reach the medium safe:
      neither the mark nor the link creates a link to a free cluster. */
  lemma TakenIsSafe(t: Table, clst: nat, c: nat, mark: nat)
    requires NoLinkToFree(t) && NeedsNew(t, clst) && 2 <= c < |t| && t[c] == 0 && mark >= |t|
    ensures NoLinkToFree(t[c := mark]) && NoLinkToFree(Taken(t, clst, c, mark))
  {
    var u := t[c := mark];
    assert NoLinkToFree(u);
    if clst != 0 {
      var w := u[clst := c];
      forall k | 2 <= k < |w| && 2 <= w[k] < |w| ensures w[w[k]] != 0 {
        if k != clst {
          assert u[u[k]] != 0;
        }
      }
    }
  }

  lemma TakenCount(t: Table, clst: nat, c: nat, mark: nat)
    requires NeedsNew(t, clst) && 2 <= c < |t| && t[c] == 0 && mark >= |t|
    ensures FreeCount(Taken(t, clst, c, mark)) == FreeCount(t) - 1
    ensures FreeCount(t) > 0
  {
    UseOne(t, c, mark);
    if clst != 0 {
      RelinkOne(t[c := mark], clst, c);
    }
  }

  /** A free cluster exists in a forest exactly when next-fit finds one, whatever the hint. */
  lemma NextFitIsComplete(t: Table, start: nat)
    requires 3 <= |t| && 1 <= start < |t| && forall c :: 2 <= c < |t| ==> t[c] != 1
    ensures (exists c: nat :: FirstStop(t, start, c) && t[c] == 0) <==> FreeCount(t) > 0
  {
    if FreeCount(t) > 0 {
      var f :| f in FreeSet(t);
      CandidatesCover(|t|, start, f);
      var k :| 1 <= k <= |t| - 2 && Candidate(|t|, start, k) == f;
      var j := FirstStopAt(t, start, k);
      assert t[Candidate(|t|, start, j)] == 0;
      assert FirstStop(t, start, Candidate(|t|, start, j));
    }
    if c: nat :| FirstStop(t, start, c) && t[c] == 0 {
      assert c in FreeSet(t);
    }
  }

  lemma {:induction false} FirstStopAt(t: Table, start: nat, k: nat) returns (j: nat)
    requires 3 <= |t| && 1 <= start < |t| && 1 <= k <= |t| - 2 && t[Candidate(|t|, start, k)] < 2
    ensures 1 <= j <= k && t[Candidate(|t|, start, j)] < 2 && PassedOver(t, start, j - 1)
  {
    if i :| 1 <= i < k && t[Candidate(|t|, start, i)] < 2 {
      j := FirstStopAt(t, start, i);
    } else {
      j := k;
    }
  }
}
