/** Upper-casing in the single-byte code page 1252, and wildcard matching of names. */
module Pattern {
  import opened Bytes

  const QUESTION: byte := 0x3F
  const ASTERISK: byte := 0x2A

  /** The upper-case table of the code page, for characters from 0x80 on. */
  function ExCvt(c: byte): (r: byte)
    requires c >= 0x80
    ensures r != 0
  {
    if c == 0x9A then 0xAD
    else if c == 0x9C then 0x8C
    else if c == 0x9E then 0xAE
    else if c == 0xA1 then 0x21
    else if 0xE0 <= c <= 0xFE && c != 0xF7 then c - 0x20
    else if c == 0xFF then 0x9F
    else c
  }

  /** The rows of the table: letters with an accent lose 0x20, five characters go elsewhere, all others stay. */
  lemma ExCvtIsTable(c: byte)
    requires c >= 0x80
    ensures 0xE0 <= c <= 0xF6 || 0xF8 <= c <= 0xFE ==> ExCvt(c) == c - 0x20
    ensures ExCvt(0x9A) == 0xAD && ExCvt(0x9C) == 0x8C && ExCvt(0x9E) == 0xAE && ExCvt(0xA1) == 0x21
    ensures ExCvt(0xFF) == 0x9F
    ensures c <= 0x99 || c in {0x9B, 0x9D, 0x9F, 0xA0, 0xF7} || 0xA2 <= c <= 0xDF ==> ExCvt(c) == c
  {
  }

  /** A character as get_achar delivers it. */
  function Fold(c: byte): (r: byte)
    ensures r == 0 <==> c == 0
    ensures 0x61 <= c <= 0x7A ==> r == c - 0x20
    ensures c < 0x61 || 0x7A < c < 0x80 ==> r == c
  {
    if 0x61 <= c <= 0x7A then c - 0x20 else if c >= 0x80 then ExCvt(c) else c
  }

  predicate IsWild(c: byte)
    ensures IsWild(c) <==> c == 0x3F || c == 0x2A
  {
    c == QUESTION || c == ASTERISK
  }

  /** A string without its terminator. */
  predicate IsString(s: seq<byte>) {
    0 !in s
  }

  /** The character at a position of a terminated string. */
  function CharAt(s: seq<byte>, i: nat): byte {
    if i < |s| then s[i] else 0
  }

  // ---------- what a pattern means ----------

  /** '?' stands for one character, '*' for any run of them, anything else for itself ignoring case. */
  predicate Glob(pat: seq<byte>, nam: seq<byte>) {
    if pat == [] then nam == []
    else if pat[0] == 0x2A then exists k :: 0 <= k <= |nam| && Glob(pat[1..], nam[k..])
    else nam != [] && (pat[0] == 0x3F || Fold(pat[0]) == Fold(nam[0])) && Glob(pat[1..], nam[1..])
  }

  /** cuts divides the name into one piece for each pattern character: one matching character, or any run for '*'. */
  predicate Aligned(pat: seq<byte>, nam: seq<byte>, cuts: seq<nat>) {
    && |cuts| == |pat| + 1 && cuts[0] == 0 && cuts[|pat|] == |nam|
    && forall i :: 0 <= i < |pat| ==> Piece(pat[i], nam, cuts[i], cuts[i + 1])
  }

  predicate Piece(c: byte, nam: seq<byte>, a: nat, b: nat) {
    a <= b <= |nam| && (c == 0x2A || (b == a + 1 && (c == 0x3F || Fold(c) == Fold(nam[a]))))
  }

  /** Matching is the existence of such a division. */
  lemma {:induction false} GlobIsAligned(pat: seq<byte>, nam: seq<byte>)
    ensures Glob(pat, nam) <==> exists cuts :: Aligned(pat, nam, cuts)
    decreases |pat|
  {
    if pat == [] {
      if nam == [] { assert Aligned(pat, nam, [0]); }
    } else {
      if Glob(pat, nam) {
        var k: nat :| k <= |nam| && Piece(pat[0], nam, 0, k) && Glob(pat[1..], nam[k..]);
        GlobIsAligned(pat[1..], nam[k..]);
        var rest :| Aligned(pat[1..], nam[k..], rest);
        PutFirst(pat, nam, k, rest);
      }
      if cuts :| Aligned(pat, nam, cuts) {
        assert Piece(pat[0], nam, cuts[0], cuts[1]);
        TakeFirst(pat, nam, cuts);
        GlobIsAligned(pat[1..], nam[cuts[1]..]);
      }
    }
  }

  lemma PutFirst(pat: seq<byte>, nam: seq<byte>, k: nat, rest: seq<nat>)
    requires pat != [] && k <= |nam| && Piece(pat[0], nam, 0, k) && Aligned(pat[1..], nam[k..], rest)
    ensures exists cuts :: Aligned(pat, nam, cuts)
  {
    var cuts: seq<nat> := [0] + seq(|rest|, i requires 0 <= i < |rest| => rest[i] + k);
    forall i | 0 <= i < |pat| ensures Piece(pat[i], nam, cuts[i], cuts[i + 1]) {
      if i > 0 {
        assert Piece(pat[1..][i - 1], nam[k..], rest[i - 1], rest[i]);
      }
    }
    assert Aligned(pat, nam, cuts);
  }

  lemma {:induction false} CutsGrow(pat: seq<byte>, nam: seq<byte>, cuts: seq<nat>, i: nat)
    requires Aligned(pat, nam, cuts) && 1 <= i <= |pat|
    ensures cuts[1] <= cuts[i]
  {
    if i > 1 {
      CutsGrow(pat, nam, cuts, i - 1);
      assert Piece(pat[i - 1], nam, cuts[i - 1], cuts[i]);
    }
  }

  lemma TakeFirst(pat: seq<byte>, nam: seq<byte>, cuts: seq<nat>)
    requires pat != [] && Aligned(pat, nam, cuts)
    ensures cuts[1] <= |nam| && exists rest :: Aligned(pat[1..], nam[cuts[1]..], rest)
  {
    assert Piece(pat[0], nam, cuts[0], cuts[1]);
    forall i | 1 <= i <= |pat| ensures cuts[i] >= cuts[1] { CutsGrow(pat, nam, cuts, i); }
    var rest: seq<nat> := seq(|pat|, i requires 0 <= i < |pat| => cuts[i + 1] - cuts[1]);
    forall i | 0 <= i < |pat| - 1 ensures Piece(pat[1..][i], nam[cuts[1]..], rest[i], rest[i + 1]) {
      assert Piece(pat[i + 1], nam, cuts[i + 1], cuts[i + 2]);
    }
    assert Aligned(pat[1..], nam[cuts[1]..], rest);
  }

  /** The case of the name does not matter. */
  lemma {:induction false} GlobIgnoresCase(pat: seq<byte>, nam: seq<byte>, other: seq<byte>)
    requires |nam| == |other| && forall i :: 0 <= i < |nam| ==> Fold(nam[i]) == Fold(other[i])
    ensures Glob(pat, nam) <==> Glob(pat, other)
    decreases |pat|
  {
    if pat != [] {
      forall k | 0 <= k <= |nam| ensures Glob(pat[1..], nam[k..]) <==> Glob(pat[1..], other[k..]) {
        GlobIgnoresCase(pat[1..], nam[k..], other[k..]);
      }
      if nam != [] {
        assert Glob(pat[1..], nam[1..]) <==> Glob(pat[1..], other[1..]);
      }
    }
  }

  /** Names of ASCII characters that differ in the case of letters only match the same patterns. */
  lemma GlobIgnoresAsciiCase(pat: seq<byte>, nam: seq<byte>, other: seq<byte>)
    requires |nam| == |other|
    requires forall i :: 0 <= i < |nam| ==>
      || nam[i] == other[i] || (0x41 <= nam[i] <= 0x5A && other[i] as int == nam[i] as int + 0x20)
      || (0x41 <= other[i] <= 0x5A && nam[i] as int == other[i] as int + 0x20)
    ensures Glob(pat, nam) <==> Glob(pat, other)
  {
    hide Fold;
    GlobIgnoresCase(pat, nam, other);
  }

  /** A pattern behind a block of wildcards: at least skip characters are passed over, more only if any is set. */
  predicate GlobAfter(pat: seq<byte>, nam: seq<byte>, skip: nat, any: bool) {
    exists k :: skip <= k <= |nam| && (any || k == skip) && Glob(pat, nam[k..])
  }

  function Questions(w: seq<byte>): nat {
    if w == [] then 0 else Questions(w[1..]) + if w[0] == QUESTION then 1 else 0
  }

  /** A block of wildcards means what its question marks and asterisks add up to. */
  lemma {:induction false} WildBlock(w: seq<byte>, pat: seq<byte>, nam: seq<byte>)
    requires forall c :: c in w ==> IsWild(c)
    ensures Glob(w + pat, nam) <==> GlobAfter(pat, nam, Questions(w), ASTERISK in w)
    decreases |w|
  {
    if w == [] {
      assert w + pat == pat;
      assert nam[0..] == nam;
    } else {
      var v := w[1..];
      assert (w + pat)[1..] == v + pat;
      assert w == [w[0]] + v && w[0] in w;
      if w[0] == QUESTION {
        if nam != [] {
          WildBlock(v, pat, nam[1..]);
          OneMore(pat, nam, Questions(v), ASTERISK in v);
        }
      } else {
        forall k | 0 <= k <= |nam|
          ensures Glob(v + pat, nam[k..]) <==> GlobAfter(pat, nam[k..], Questions(v), ASTERISK in v)
        {
          WildBlock(v, pat, nam[k..]);
        }
        AnyMore(pat, nam, Questions(v), ASTERISK in v);
      }
    }
  }

  lemma OneMore(pat: seq<byte>, nam: seq<byte>, skip: nat, any: bool)
    requires nam != []
    ensures GlobAfter(pat, nam, skip + 1, any) <==> GlobAfter(pat, nam[1..], skip, any)
  {
    forall k | 0 <= k < |nam| ensures nam[1..][k..] == nam[k + 1..] { }
    if GlobAfter(pat, nam, skip + 1, any) {
      var k :| skip + 1 <= k <= |nam| && (any || k == skip + 1) && Glob(pat, nam[k..]);
      assert nam[1..][k - 1..] == nam[k..];
    }
    if GlobAfter(pat, nam[1..], skip, any) {
      var k :| skip <= k <= |nam[1..]| && (any || k == skip) && Glob(pat, nam[1..][k..]);
      assert nam[1..][k..] == nam[k + 1..];
    }
  }

  lemma AnyMore(pat: seq<byte>, nam: seq<byte>, skip: nat, any: bool)
    ensures GlobAfter(pat, nam, skip, true)
            <==> exists j :: 0 <= j <= |nam| && GlobAfter(pat, nam[j..], skip, any)
  {
    if GlobAfter(pat, nam, skip, true) {
      var k :| skip <= k <= |nam| && Glob(pat, nam[k..]);
      var j := k - skip;
      assert nam[j..][skip..] == nam[k..];
      assert GlobAfter(pat, nam[j..], skip, any);
    }
    if j :| 0 <= j <= |nam| && GlobAfter(pat, nam[j..], skip, any) {
      var k :| skip <= k <= |nam[j..]| && (any || k == skip) && Glob(pat, nam[j..][k..]);
      assert nam[j..][k..] == nam[j + k..];
    }
  }

  /** Literal characters at the front of a pattern need as many characters of the name. */
  lemma {:induction false} LiteralsNeeded(pat: seq<byte>, nam: seq<byte>, n: nat)
    requires n <= |pat| && (forall i :: 0 <= i < n ==> pat[i] != ASTERISK) && Glob(pat, nam)
    ensures |nam| >= n
  {
    if n > 0 {
      LiteralsNeeded(pat[1..], nam[1..], n - 1);
    }
  }

  // ---------- the matcher ----------

  /** Skip skip characters of the name, then match; with inf, also at every later position. */
  method PatternMatching(pat: seq<byte>, p: nat, nam: seq<byte>, n: nat, skip: nat, inf: bool) returns (matched: bool)
    requires IsString(pat) && IsString(nam) && p <= |pat| && n <= |nam|
    ensures matched <==> GlobAfter(pat[p..], nam[n..], skip, inf)
    decreases |pat| - p, 1
  {
    var i, left := n, skip;
    while left > 0
      invariant n <= i <= |nam| && i + left == n + skip
    {
      left := left - 1;
      if Fold(CharAt(nam, i)) == 0 { return false; }
      i := i + 1;
    }
    if CharAt(pat, p) == 0 && inf {
      assert nam[n..][|nam| - n..] == [];
      return true;
    }
    var start := i;
    while true
      invariant start <= i <= |nam| && (i > start ==> inf)
      invariant forall j :: start <= j < i ==> !Glob(pat[p..], nam[j..])
      decreases |nam| - i
    {
      var nc;
      matched, nc := MatchHere(pat, p, nam, i);
      if matched {
        assert nam[n..][i - n..] == nam[i..];
        return;
      }
      if !(inf && nc != 0) { break; }
      i := i + 1;
    }
    forall k | skip <= k <= |nam[n..]| && (inf || k == skip) ensures !Glob(pat[p..], nam[n..][k..]) {
      assert nam[n..][k..] == nam[n + k..];
    }
  }

  /** One position of the outer loop.  When the name ends in the attempt (nc is 0), no later position can match. */
  method MatchHere(pat: seq<byte>, p: nat, nam: seq<byte>, n: nat) returns (matched: bool, nc: byte)
    requires IsString(pat) && IsString(nam) && p <= |pat| && n <= |nam|
    ensures matched <==> Glob(pat[p..], nam[n..])
    ensures !matched && nc == 0 ==> forall j :: n <= j <= |nam| ==> !Glob(pat[p..], nam[j..])
    ensures !matched && nc != 0 ==> n < |nam|
    decreases |pat| - p, 0
  {
    var pp, np := p, n;
    while true
      invariant p <= pp <= |pat| && n <= np <= |nam| && pp - p == np - n
      invariant forall k :: p <= k < pp ==> !IsWild(pat[k])
      invariant Glob(pat[p..], nam[n..]) <==> Glob(pat[pp..], nam[np..])
      decreases |pat| - pp
    {
      if IsWild(CharAt(pat, pp)) {
        var nm: nat, nx, w := 0, false, pp;
        while IsWild(CharAt(pat, pp))
          invariant w <= pp <= |pat| && (pp == w ==> IsWild(CharAt(pat, pp)))
          invariant forall c :: c in pat[w..pp] ==> IsWild(c)
          invariant nm == Questions(pat[w..pp]) && (nx <==> ASTERISK in pat[w..pp])
          decreases |pat| - pp
        {
          QuestionsSnoc(pat, w, pp);
          if CharAt(pat, pp) == QUESTION { nm := nm + 1; } else { nx := true; }
          pp := pp + 1;
        }
        assert pat[w..pp] + pat[pp..] == pat[w..];
        WildBlock(pat[w..pp], pat[pp..], nam[np..]);
        matched := PatternMatching(pat, pp, nam, np, nm, nx);
        nc := CharAt(nam, np);
        if !matched { NoLater(pat, p, w, nam, n, np); }
        return;
      }
      var pc := Fold(CharAt(pat, pp));
      nc := Fold(CharAt(nam, np));
      if pc != nc {
        matched := false;
        NoLater(pat, p, pp, nam, n, np);
        return;
      }
      if pc == 0 { return true, nc; }
      pp := pp + 1;
      np := np + 1;
    }
  }

  lemma QuestionsSnoc(pat: seq<byte>, w: nat, pp: nat)
    requires w <= pp < |pat|
    ensures pat[w..pp + 1] == pat[w..pp] + [pat[pp]]
    ensures Questions(pat[w..pp + 1]) == Questions(pat[w..pp]) + if pat[pp] == QUESTION then 1 else 0
  {
    QuestionsAppend(pat[w..pp], pat[pp]);
    assert pat[w..pp + 1] == pat[w..pp] + [pat[pp]];
  }

  lemma {:induction false} QuestionsAppend(w: seq<byte>, c: byte)
    ensures Questions(w + [c]) == Questions(w) + if c == QUESTION then 1 else 0
  {
    if w == [] {
      assert w + [c] == [c];
    } else {
      assert (w + [c])[1..] == w[1..] + [c];
      QuestionsAppend(w[1..], c);
    }
  }

  /** An attempt that used up the name with literal characters only leaves too few characters for a later one. */
  lemma NoLater(pat: seq<byte>, p: nat, pp: nat, nam: seq<byte>, n: nat, np: nat)
    requires IsString(pat) && IsString(nam) && p <= pp <= |pat| && n <= np <= |nam| && pp - p == np - n
    requires forall k :: p <= k < pp ==> !IsWild(pat[k])
    ensures np == |nam| ==> forall j :: n < j <= |nam| ==> !Glob(pat[p..], nam[j..])
  {
    forall j | np == |nam| && n < j <= |nam| ensures !Glob(pat[p..], nam[j..]) {
      if Glob(pat[p..], nam[j..]) {
        LiteralsNeeded(pat[p..], nam[j..], pp - p);
        assert false;
      }
    }
  }

  /** The test of f_findnext: does the name match the pattern? */
  method NameMatches(pat: seq<byte>, nam: seq<byte>) returns (matched: bool)
    requires IsString(pat) && IsString(nam)
    ensures matched <==> Glob(pat, nam)
  {
    matched := PatternMatching(pat, 0, nam, 0, 0, false);
    assert pat[0..] == pat && nam[0..] == nam && nam[0..][0..] == nam;
  }

  // ---------- f_findnext ----------

  /** The names of a directory item as f_readdir delivers them; the long one only if the caller has given a buffer. */
  datatype Item = Item(fname: seq<byte>, hasLong: bool, lfname: seq<byte>)

  /** An item whose long or short name matches. */
  predicate Wanted(pat: seq<byte>, x: Item) {
    (x.hasLong && Glob(pat, x.lfname)) || Glob(pat, x.fname)
  }

  predicate AreNames(items: seq<Item>) {
    forall i :: 0 <= i < |items| ==> IsString(items[i].fname) && IsString(items[i].lfname)
  }

  /** Find the next item that matches: the first one from position from on, none of those before it does.  The search
      also ends at the end of the directory, which has an empty name. */
  method FindNext(pat: seq<byte>, items: seq<Item>, from: nat) returns (at: nat)
    requires IsString(pat) && AreNames(items) && from <= |items|
    ensures from <= at <= |items|
    ensures forall i :: from <= i < at ==> items[i].fname != [] && !Wanted(pat, items[i])
    ensures at < |items| ==> items[at].fname == [] || Wanted(pat, items[at])
  {
    hide Glob;
    at := from;
    while at < |items|
      invariant from <= at <= |items|
      invariant forall i :: from <= i < at ==> items[i].fname != [] && !Wanted(pat, items[i])
    {
      if items[at].fname == [] { break; }
      if items[at].hasLong {
        var long := NameMatches(pat, items[at].lfname);
        if long { break; }
      }
      var short := NameMatches(pat, items[at].fname);
      if short { break; }
      at := at + 1;
    }
  }
}
