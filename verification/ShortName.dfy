/** 8.3 names in the configuration without long names: create_name and get_fileinfo. */
module ShortName {
  import opened Bytes
  import opened Layout
  import opened Pattern

  const SPACE: byte := 0x20
  const DOT: byte := 0x2E
  /** What stands for DDEM as the first character of a name. */
  const RDDEM: byte := 0x05
  const NS_LAST: nat := 0x04
  const NS_BODY: nat := 0x08
  const NS_EXT: nat := 0x10
  const NSFLAG: nat := 11

  // ---------- the segment of a path ----------

  predicate IsSeparator(c: byte) {
    c == 0x2F || c == 0x5C
  }

  predicate EndsSegment(c: byte) {
    c <= SPACE || IsSeparator(c)
  }

  lemma SegmentEndsAre(c: byte)
    ensures IsSeparator(c) <==> c == 0x2F || c == 0x5C
    ensures EndsSegment(c) <==> c <= 0x20 || c == 0x2F || c == 0x5C
  {
  }

  /** First position from i on that is no separator. */
  function SkipSeparators(path: seq<byte>, i: nat): (r: nat)
    requires i <= |path|
    ensures i <= r <= |path| && !IsSeparator(CharAt(path, r))
    ensures forall j :: i <= j < r ==> IsSeparator(path[j])
    decreases |path| - i
  {
    if IsSeparator(CharAt(path, i)) then SkipSeparators(path, i + 1) else i
  }

  /** First position from i on that ends the segment. */
  function SegmentEnd(path: seq<byte>, i: nat): (r: nat)
    requires i <= |path|
    ensures i <= r <= |path| && EndsSegment(CharAt(path, r))
    ensures forall j :: i <= j < r ==> !EndsSegment(path[j])
    decreases |path| - i
  {
    if EndsSegment(CharAt(path, i)) then i else SegmentEnd(path, i + 1)
  }

  function Segment(path: seq<byte>, i: nat): seq<byte>
    requires i <= |path|
  {
    path[SkipSeparators(path, i)..SegmentEnd(path, SkipSeparators(path, i))]
  }

  // ---------- names ----------

  /** The characters refused in a short name, as chk_chr finds them. */
  predicate Refused(c: byte) {
    c == 0x22 || c == 0x2A || c == 0x2B || c == 0x2C || c == 0x3A || c == 0x3B || c == 0x3C || c == 0x3D || c == 0x3E
    || c == 0x3F || c == 0x5B || c == 0x5D || c == 0x7C || c == 0x7F
  }

  /** A character that can stand in a body or an extension. */
  predicate Legal(c: byte) {
    !EndsSegment(c) && c != DOT && !Refused(Fold(c))
  }

  /** The legal characters: all from 0x80 on, and of the others those behind the space that are none of the sixteen
      with a meaning elsewhere, the dot, the separators and DEL. */
  lemma LegalIs(c: byte)
    ensures Legal(c) <==>
      || c >= 0x80
      || (0x20 < c < 0x7F && c !in {0x22, 0x2A, 0x2B, 0x2C, 0x2E, 0x2F, 0x3A, 0x3B, 0x3C, 0x3D, 0x3E, 0x3F, 0x5B, 0x5C,
                                    0x5D, 0x7C})
  {
    if c >= 0x80 { ExCvtIsTable(c); }
  }

  predicate AllLegal(s: seq<byte>) {
    forall i :: 0 <= i < |s| ==> Legal(s[i])
  }

  /** Position of the first dot, |s| if there is none. */
  function DotAt(s: seq<byte>): (d: nat)
    ensures d <= |s| && (d < |s| ==> s[d] == DOT)
    ensures forall j :: 0 <= j < d ==> s[j] != DOT
  {
    if s == [] || s[0] == DOT then 0 else 1 + DotAt(s[1..])
  }

  function Body(s: seq<byte>): seq<byte> {
    s[..DotAt(s)]
  }

  function Ext(s: seq<byte>): seq<byte> {
    if DotAt(s) < |s| then s[DotAt(s) + 1..] else []
  }

  /** Body and extension fit and have legal characters only. */
  predicate Fits(s: seq<byte>) {
    |Body(s)| <= 8 && |Ext(s)| <= 3 && AllLegal(Body(s)) && AllLegal(Ext(s))
  }

  /** What create_name accepts. */
  predicate Acceptable(s: seq<byte>) {
    s != [] && Fits(s)
  }

  function Upper(s: seq<byte>): (r: seq<byte>)
    ensures |r| == |s|
    ensures forall i :: 0 <= i < |s| ==> r[i] == Fold(s[i])
  {
    seq(|s|, i requires 0 <= i < |s| => Fold(s[i]))
  }

  /** Upper case, padded with spaces. */
  function Padded(s: seq<byte>, n: nat): (r: seq<byte>)
    ensures |r| == n
    ensures forall i :: 0 <= i < n ==> r[i] == if i < |s| then Fold(s[i]) else SPACE
  {
    seq(n, i requires 0 <= i < n => if i < |s| then Fold(s[i]) else SPACE)
  }

  function Fields(s: seq<byte>): (r: seq<byte>)
    ensures |r| == 11
  {
    Padded(Body(s), 8) + Padded(Ext(s), 3)
  }

  function Protect(f: seq<byte>): (r: seq<byte>)
    requires |f| == 11
    ensures |r| == 11
  {
    if f[0] == DDEM then f[0 := RDDEM] else f
  }

  /** The 11 bytes of a directory entry that hold a name. */
  function ShortForm(s: seq<byte>): (r: seq<byte>)
    ensures |r| == 11
  {
    Protect(Fields(s))
  }

  /** What is accepted: a body of one to eight legal characters; or a body of up to eight, a dot, and an extension of up
      to three. */
  lemma AcceptableIs(b: seq<byte>, e: seq<byte>)
    requires 0x2E !in b
    ensures Acceptable(b) <==> 1 <= |b| <= 8 && AllLegal(b)
    ensures Acceptable(b + [0x2E] + e) <==> |b| <= 8 && |e| <= 3 && AllLegal(b) && AllLegal(e)
  {
    hide Legal, AllLegal;
    PartsOf(b, e);
    assert AllLegal([]) by { NoneLegal(); }
  }

  lemma PartsOf(b: seq<byte>, e: seq<byte>)
    requires 0x2E !in b
    ensures Body(b) == b && Ext(b) == []
    ensures Body(b + [0x2E] + e) == b && Ext(b + [0x2E] + e) == e
  {
    var s := b + [0x2E] + e;
    assert s[|b|] == 0x2E && forall i :: 0 <= i < |b| ==> s[i] == b[i] && b[i] != 0x2E;
    DotIs(b, |b|);
    DotIs(s, |b|);
    assert s[..|b|] == b && s[|b| + 1..] == e;
  }

  lemma DotIs(s: seq<byte>, d: nat)
    requires d <= |s| && (forall i :: 0 <= i < d ==> s[i] != 0x2E) && (d < |s| ==> s[d] == 0x2E)
    ensures DotAt(s) == d
  {
    var r := DotAt(s);
    if r < |s| { assert s[r] == 0x2E; }
  }

  /** The 11 bytes of a name with body b and extension e: both folded and padded with spaces, a first 0xE5 replaced. */
  lemma ShortFormIs(b: seq<byte>, e: seq<byte>, i: nat)
    requires 0x2E !in b && |b| <= 8 && |e| <= 3 && i < 11
    ensures var f := ShortForm(b + [0x2E] + e);
            var c := if i < |b| then Fold(b[i]) else if 8 <= i < 8 + |e| then Fold(e[i - 8]) else 0x20;
            f[i] == if i == 0 && c == 0xE5 then 0x05 else c
    ensures e == [] ==> ShortForm(b) == ShortForm(b + [0x2E] + e)
  {
    hide Fold;
    PartsOf(b, e);
  }

  /** No stored byte is a small letter. */
  lemma NoSmallLetter(s: seq<byte>)
    ensures forall i :: 0 <= i < 11 ==> !(0x61 <= ShortForm(s)[i] <= 0x7A)
  {
    hide Fold, DotAt, Body, Ext;
    var f := Fields(s);
    forall i | 0 <= i < 11 ensures !(0x61 <= f[i] <= 0x7A) {
      var part, k := if i < 8 then Body(s) else Ext(s), if i < 8 then i else i - 8;
      if k < |part| { FoldedIsLarge(part[k]); }
    }
  }

  lemma FoldedIsLarge(c: byte)
    ensures !(0x61 <= Fold(c) <= 0x7A)
  {
  }

  // ---------- case flags ----------

  /** 1 for a small letter, 2 for a capital, 3 for an extended character. */
  function CaseOf(c: byte): nat {
    if c >= 0x80 then 3 else if 0x41 <= c <= 0x5A then 2 else if 0x61 <= c <= 0x7A then 1 else 0
  }

  predicate HasSmall(s: seq<byte>) {
    exists i :: 0 <= i < |s| && CaseOf(s[i]) % 2 == 1
  }

  predicate HasLarge(s: seq<byte>) {
    exists i :: 0 <= i < |s| && CaseOf(s[i]) >= 2
  }

  /** The two case bits that the parser gathers for a body or an extension. */
  function CaseBits(s: seq<byte>): (r: nat)
    ensures r <= 3
  {
    (if HasSmall(s) then 1 else 0) + (if HasLarge(s) then 2 else 0)
  }

  /** The status byte: last segment of the path, extension and body in small letters only. */
  function StatusOf(s: seq<byte>, last: bool): byte {
    (if last then NS_LAST else 0)
    + (if CaseBits(Ext(s)) == 1 then NS_EXT else 0) + (if CaseBits(Body(s)) == 1 then NS_BODY else 0)
  }

  /** Small letters count, and all characters from 0x80 on count as both. */
  lemma CaseIs(t: seq<byte>)
    ensures HasSmall(t) <==> exists i :: 0 <= i < |t| && (0x61 <= t[i] <= 0x7A || t[i] >= 0x80)
    ensures HasLarge(t) <==> exists i :: 0 <= i < |t| && (0x41 <= t[i] <= 0x5A || t[i] >= 0x80)
  {
  }

  /** The status byte: last segment, body and extension in small letters only. */
  lemma StatusIs(s: seq<byte>, last: bool)
    ensures StatusOf(s, last) as nat
            == (if last then 0x04 else 0) + (if HasSmall(Body(s)) && !HasLarge(Body(s)) then 0x08 else 0)
               + if HasSmall(Ext(s)) && !HasLarge(Ext(s)) then 0x10 else 0
  {
  }

  /** b | mask on the two low bits of b. */
  function Or2(b: nat, mask: nat): (r: nat)
    requires mask <= 3
    ensures r / 4 == b / 4
  {
    var low := b % 4;
    b - low + (if low % 2 == 1 || mask % 2 == 1 then 1 else 0) + (if low >= 2 || mask >= 2 then 2 else 0)
  }

  // ---------- one more character ----------

  lemma TakeAppend(s: seq<byte>, c: byte, d: nat)
    requires d <= |s|
    ensures (s + [c])[..d] == s[..d] && (s + [c])[d] == if d < |s| then s[d] else c
    ensures d < |s| ==> (s + [c])[d + 1..] == s[d + 1..] + [c]
  {
  }

  lemma WholeAppend(s: seq<byte>, c: byte)
    ensures s[..|s|] == s && (s + [c])[..|s|] == s && (s + [c])[..|s| + 1] == s + [c] && (s + [c])[|s| + 1..] == []
  {
  }

  lemma Rejoin(s: seq<byte>, d: nat)
    requires d < |s|
    ensures s == s[..d] + [s[d]] + s[d + 1..]
  {
  }

  lemma {:induction false} DotAppend(s: seq<byte>, c: byte)
    ensures DotAt(s + [c]) == if DotAt(s) < |s| || c == DOT then DotAt(s) else |s| + 1
  {
    if s != [] && s[0] != DOT {
      TakeAppend(s, c, 0);
      DotAppend(s[1..], c);
    }
  }

  lemma PartsAppend(s: seq<byte>, c: byte)
    ensures DotAt(s) < |s| ==> Body(s + [c]) == Body(s) && Ext(s + [c]) == Ext(s) + [c]
    ensures DotAt(s) == |s| ==> Body(s) == s && Ext(s) == []
    ensures DotAt(s) == |s| && c != DOT ==> Body(s + [c]) == s + [c] && Ext(s + [c]) == []
    ensures DotAt(s) == |s| && c == DOT ==> Body(s + [c]) == s && Ext(s + [c]) == []
  {
    hide DotAt;
    DotAppend(s, c);
    TakeAppend(s, c, DotAt(s));
    WholeAppend(s, c);
  }

  lemma FitsAppend(s: seq<byte>, c: byte)
    ensures Fits(s + [c]) <==>
      Fits(s) && if DotAt(s) < |s| then |Ext(s)| < 3 && Legal(c) else c == DOT || (|s| < 8 && Legal(c))
  {
    PartsAppend(s, c);
    LegalAppend(s, c);
    LegalAppend(Ext(s), c);
    hide Legal, AllLegal, DotAt, Body, Ext;
    assert AllLegal([]) by { NoneLegal(); }
  }

  lemma NoneLegal()
    ensures AllLegal([])
  {
  }

  lemma LegalAppend(s: seq<byte>, c: byte)
    ensures AllLegal(s + [c]) <==> AllLegal(s) && Legal(c)
  {
    hide Legal;
    if AllLegal(s + [c]) {
      assert (s + [c])[|s|] == c;
      forall i | 0 <= i < |s| ensures Legal(s[i]) { assert (s + [c])[i] == s[i]; }
    }
  }

  /** A name that fits has prefixes that fit. */
  lemma {:induction false} PrefixFits(t: seq<byte>, n: nat)
    requires n <= |t| && Fits(t)
    ensures Fits(t[..n])
    decreases |t|
  {
    hide Fits;
    if n == |t| {
      assert t[..n] == t;
    } else {
      var r := t[..|t| - 1];
      assert t == r + [t[|t| - 1]];
      FitsAppend(r, t[|t| - 1]);
      PrefixFits(r, n);
      assert r[..n] == t[..n];
    }
  }

  /** The state of the parser after the characters s: the 11 bytes, the write position, its limit and the case bits. */
  predicate Parsed(s: seq<byte>, fields: seq<byte>, i: nat, ni: nat, b: nat) {
    && Fits(s) && fields == Fields(s)
    && if DotAt(s) < |s| then ni == 11 && i == 8 + |Ext(s)| && b == 4 * CaseBits(Body(s)) + CaseBits(Ext(s))
       else ni == 8 && i == |s| && b == CaseBits(s)
  }

  lemma ParsedNothing(fields: seq<byte>)
    requires |fields| == 11 && forall i :: 0 <= i < 11 ==> fields[i] == SPACE
    ensures Parsed([], fields, 0, 8, 0)
  {
  }

  lemma PaddedAppend(s: seq<byte>, c: byte, n: nat)
    requires |s| < n
    ensures Padded(s + [c], n) == Padded(s, n)[|s| := Fold(c)]
  {
  }

  lemma CaseAppend(s: seq<byte>, c: byte)
    ensures HasSmall(s + [c]) <==> HasSmall(s) || CaseOf(c) % 2 == 1
    ensures HasLarge(s + [c]) <==> HasLarge(s) || CaseOf(c) >= 2
  {
    var t := s + [c];
    assert t[|s|] == c && forall i :: 0 <= i < |s| ==> t[i] == s[i];
    if CaseOf(c) % 2 == 1 { assert HasSmall(t); }
    if CaseOf(c) >= 2 { assert HasLarge(t); }
    if HasSmall(s) {
      var i :| 0 <= i < |s| && CaseOf(s[i]) % 2 == 1;
      assert CaseOf(t[i]) % 2 == 1;
    }
    if HasLarge(s) {
      var i :| 0 <= i < |s| && CaseOf(s[i]) >= 2;
      assert CaseOf(t[i]) >= 2;
    }
  }

  lemma BitsAppend(s: seq<byte>, c: byte, high: nat)
    ensures Or2(4 * high + CaseBits(s), CaseOf(c)) == 4 * high + CaseBits(s + [c])
  {
    CaseAppend(s, c);
  }

  lemma NoBits()
    ensures CaseBits([]) == 0
  {
  }

  lemma ParsedDot(s: seq<byte>, fields: seq<byte>, i: nat, ni: nat, b: nat)
    requires Parsed(s, fields, i, ni, b)
    ensures ni == 8 ==> Parsed(s + [DOT], fields, 8, 11, b * 4)
    ensures ni != 8 ==> !Fits(s + [DOT])
  {
    hide Fits, CaseBits;
    PartsAppend(s, DOT);
    DotAppend(s, DOT);
    FitsAppend(s, DOT);
    NoBits();
    assert !Legal(DOT);
  }

  lemma ParsedBounds(s: seq<byte>, fields: seq<byte>, i: nat, ni: nat, b: nat)
    requires Parsed(s, fields, i, ni, b)
    ensures i <= ni <= 11 && b <= 15
    ensures if ni == 8 then |Body(s)| == i && |Ext(s)| == 0 else |Ext(s)| <= 3 && i == 8 + |Ext(s)|
  {
    hide CaseBits, Legal, AllLegal, Fields;
  }

  lemma ParsedChar(s: seq<byte>, fields: seq<byte>, i: nat, ni: nat, b: nat, c: byte)
    requires Parsed(s, fields, i, ni, b) && c != DOT
    ensures i <= ni <= 11
    ensures i >= ni || !Legal(c) ==> !Fits(s + [c])
    ensures i < ni && Legal(c) ==> Parsed(s + [c], fields[i := Fold(c)], i + 1, ni, Or2(b, CaseOf(c)))
  {
    hide Fits, CaseBits, Or2, CaseOf, Legal, AllLegal, DotAt, Body, Ext, Padded;
    ParsedBounds(s, fields, i, ni, b);
    PartsAppend(s, c);
    DotAppend(s, c);
    FitsAppend(s, c);
    if i < ni {
      if ni == 8 {
        PaddedAppend(s, c, 8);
        BitsAppend(s, c, 0);
      } else {
        PaddedAppend(Ext(s), c, 3);
        BitsAppend(Ext(s), c, CaseBits(Body(s)));
      }
    }
  }

  // ---------- the parser ----------

  /** A segment one of whose prefixes does not fit is not acceptable. */
  lemma Rejected(path: seq<byte>, p: nat, k: nat)
    requires p <= k < |path| && k < SegmentEnd(path, p) <= |path| && !Fits(path[p..k] + [path[k]])
    ensures !Acceptable(path[p..SegmentEnd(path, p)])
  {
    hide Fits, SegmentEnd, EndsSegment;
    var t := path[p..SegmentEnd(path, p)];
    assert t[..k + 1 - p] == path[p..k] + [path[k]];
    if Fits(t) { PrefixFits(t, k + 1 - p); }
  }

  lemma {:induction false} EndFrom(path: seq<byte>, p: nat, k: nat)
    requires p <= k <= |path| && forall j :: p <= j < k ==> !EndsSegment(path[j])
    ensures SegmentEnd(path, p) == SegmentEnd(path, k)
    decreases k - p
  {
    if p < k {
      EndFrom(path, p + 1, k);
    }
  }

  /** The case bit and the stored character of one name character. */
  method Convert(c: byte, b: nat) returns (ok: bool, up: byte, bits: nat)
    requires !EndsSegment(c) && c != DOT
    ensures ok <==> Legal(c)
    ensures ok ==> up == Fold(c) && bits == Or2(b, CaseOf(c))
  {
    hide Or2;
    Or2Zero(b);
    ok, up, bits := true, c, b;
    if c >= 0x80 {
      bits := Or2(bits, 3);
      up := ExCvt(c);
    }
    if Refused(up) { ok := false; return; }
    if 0x41 <= up <= 0x5A {
      bits := Or2(bits, 2);
    } else if 0x61 <= up <= 0x7A {
      bits := Or2(bits, 1);
      up := up - 0x20;
    }
  }

  lemma Or2Zero(b: nat)
    ensures Or2(b, 0) == b
  {
  }

  /** One character of the segment; s is the segment so far. */
  method TakeChar(c: byte, ghost s: seq<byte>, sfn: array<byte>, i0: nat, ni0: nat, b0: nat)
    returns (ok: bool, i: nat, ni: nat, b: nat)
    requires !EndsSegment(c) && sfn.Length == 12 && Parsed(s, sfn[..11], i0, ni0, b0)
    modifies sfn
    ensures ok ==> Parsed(s + [c], sfn[..11], i, ni, b)
    ensures !ok ==> !Fits(s + [c])
  {
    hide Parsed, Fits, Legal, Or2, CaseOf, Fold, EndsSegment;
    ghost var f := sfn[..11];
    ok, i, ni, b := true, i0, ni0, b0;
    ParsedBounds(s, f, i, ni, b);
    if c == DOT || i >= ni {
      if c == DOT { ParsedDot(s, f, i, ni, b); } else { ParsedChar(s, f, i, ni, b, c); }
      if ni != 8 || c != DOT { ok := false; return; }
      i, ni, b := 8, 11, b * 4;
    } else {
      ParsedChar(s, f, i, ni, b, c);
      var legal, up, bits := Convert(c, b);
      if !legal { ok := false; return; }
      sfn[i] := up;
      assert sfn[..11] == f[i := up];
      i, b := i + 1, bits;
    }
  }

  /** The character loop: fill in body and extension up to the end of the segment. */
  method ParseSegment(path: seq<byte>, p: nat, sfn: array<byte>) returns (ok: bool, si: nat, i: nat, ni: nat, b: nat)
    requires IsString(path) && p <= |path| && sfn.Length == 12 && forall k :: 0 <= k < 11 ==> sfn[k] == SPACE
    modifies sfn
    ensures p + si <= |path|
    ensures ok ==> p + si == SegmentEnd(path, p) && Parsed(path[p..p + si], sfn[..11], i, ni, b)
    ensures !ok ==> !Acceptable(path[p..SegmentEnd(path, p)])
  {
    hide Parsed, Acceptable, Fits, SegmentEnd, EndsSegment;
    ParsedNothing(sfn[..11]);
    assert path[p..p] == [];
    ok, si, i, b, ni := true, 0, 0, 0, 8;
    while true
      invariant p + si <= |path| && forall j :: p <= j < p + si ==> !EndsSegment(path[j])
      invariant ok && Parsed(path[p..p + si], sfn[..11], i, ni, b)
      decreases |path| - p - si
    {
      var c := CharAt(path, p + si);
      EndFrom(path, p, p + si);
      if EndsSegment(c) { EndHere(path, p + si); return; }
      NotYet(path, p + si);
      assert path[p..p + si + 1] == path[p..p + si] + [c];
      ok, i, ni, b := TakeChar(c, path[p..p + si], sfn, i, ni, b);
      if !ok {
        Rejected(path, p, p + si);
        return;
      }
      si := si + 1;
    }
  }

  /** Replace a first character that would mark a deleted entry, and store the status byte. */
  method StoreStatus(sfn: array<byte>, ghost s: seq<byte>, i: nat, ni: nat, b0: nat, last: bool)
    requires sfn.Length == 12 && Parsed(s, sfn[..11], i, ni, b0) && i != 0
    modifies sfn
    ensures sfn[..11] == ShortForm(s) && sfn[NSFLAG] == StatusOf(s, last)
  {
    hide Parsed, Acceptable, Fits, Fields, CaseBits;
    ghost var f := sfn[..11];
    ParsedIsFields(s, f, i, ni, b0);
    if sfn[0] == DDEM {
      sfn[0] := RDDEM;
      assert sfn[..11] == f[0 := RDDEM];
    }
    assert sfn[..11] == ShortForm(s);
    var b := if ni == 8 then b0 * 4 else b0;
    var status: byte := if last then NS_LAST else 0;
    if b % 4 == 1 { status := status + NS_EXT; }
    if b / 4 % 4 == 1 { status := status + NS_BODY; }
    ghost var g := sfn[..11];
    sfn[NSFLAG] := status;
    assert sfn[..11] == g;
  }

  /** Pick the next segment of a path and put it into the form of a directory entry.  next is the position behind
      the character that ended the segment. */
  method CreateName(path: seq<byte>, from: nat, sfn: array<byte>) returns (res: FResult, next: nat)
    requires IsString(path) && from <= |path| && sfn.Length == 12
    modifies sfn
    ensures res == if Acceptable(Segment(path, from)) then FrOk else FrInvalidName
    ensures res == FrOk ==>
      var end := SegmentEnd(path, SkipSeparators(path, from));
      && sfn[..11] == ShortForm(Segment(path, from))
      && sfn[11] == StatusOf(Segment(path, from), CharAt(path, end) <= 0x20)
      && next == end + 1
    ensures res == FrOk ==> forall i :: 0 <= i < 11 ==> !(0x61 <= sfn[..][i] <= 0x7A)
  {
    hide Parsed, Acceptable, Fits, SegmentEnd, Fields, CaseBits, EndsSegment;
    var p := from;
    while IsSeparator(CharAt(path, p))
      invariant from <= p <= |path| && SkipSeparators(path, from) == SkipSeparators(path, p)
      decreases |path| - p
    {
      p := p + 1;
    }
    res, next := FrOk, 0;
    MemSet(sfn, SPACE, 11);
    var ok, si, i, ni, b := ParseSegment(path, p, sfn);
    if !ok { res := FrInvalidName; return; }
    ghost var s, f := path[p..p + si], sfn[..11];
    next := p + si + 1;
    ParsedIsFields(s, f, i, ni, b);
    if i == 0 { res := FrInvalidName; return; }
    StoreStatus(sfn, s, i, ni, b, CharAt(path, p + si) <= SPACE);
    NoSmallLetter(s);
    assert forall k :: 0 <= k < 11 ==> sfn[..][k] == sfn[..11][k];
  }

  lemma NotYet(path: seq<byte>, k: nat)
    requires k <= |path| && !EndsSegment(CharAt(path, k))
    ensures k < |path| && k < SegmentEnd(path, k)
  {
  }

  lemma EndHere(path: seq<byte>, k: nat)
    requires k <= |path| && EndsSegment(CharAt(path, k))
    ensures SegmentEnd(path, k) == k
  {
  }

  lemma ParsedIsFields(s: seq<byte>, fields: seq<byte>, i: nat, ni: nat, b: nat)
    requires Parsed(s, fields, i, ni, b)
    ensures fields == Fields(s) && (Acceptable(s) <==> i != 0) && (ni == 8 || ni == 11)
    ensures CaseBits(Ext(s)) == (if ni == 8 then 0 else b % 4)
    ensures CaseBits(Body(s)) == (if ni == 8 then b % 4 else b / 4 % 4)
    ensures ni == 8 ==> b <= 3
  {
    hide CaseBits, Legal, AllLegal, Fields;
    NoBits();
    assert DotAt(s) == |s| ==> Body(s) == s;
  }

  // ---------- printing ----------

  /** A stored character as it is printed. */
  function Restore(c: byte): byte {
    if c == RDDEM then DDEM else c
  }

  /** The characters of a field, without the padding. */
  function Shown(f: seq<byte>): seq<byte> {
    if f == [] then [] else (if f[0] == SPACE then [] else [Restore(f[0])]) + Shown(f[1..])
  }

  /** The printed form of the 11 name bytes of an entry. */
  function Printed(f: seq<byte>): seq<byte>
    requires |f| >= 11
  {
    Shown(f[..8]) + (if f[8] == SPACE then [] else [DOT]) + Shown(f[8..11])
  }

  lemma {:induction false} ShownAppend(f: seq<byte>, c: byte)
    ensures Shown(f + [c]) == Shown(f) + if c == SPACE then [] else [Restore(c)]
  {
    if f == [] {
      assert f + [c] == [c];
    } else {
      TakeAppend(f, c, 0);
      ShownAppend(f[1..], c);
    }
  }

  lemma ShownTo(f: seq<byte>, a: nat, i: nat)
    requires a <= i < |f|
    ensures Shown(f[a..i + 1]) == Shown(f[a..i]) + if f[i] == SPACE then [] else [Restore(f[i])]
  {
    assert f[a..i + 1] == f[a..i] + [f[i]];
    ShownAppend(f[a..i], f[i]);
  }

  lemma {:induction false} ShownIsLarge(f: seq<byte>)
    requires forall k :: 0 <= k < |f| ==> !(0x61 <= f[k] <= 0x7A)
    ensures forall k :: 0 <= k < |Shown(f)| ==> !(0x61 <= Shown(f)[k] <= 0x7A)
  {
    if f != [] { ShownIsLarge(f[1..]); }
  }

  lemma PrintedIsLarge(f: seq<byte>)
    requires |f| >= 11
    ensures (forall k :: 0 <= k < 11 ==> !(0x61 <= f[k] <= 0x7A)) ==>
      forall k :: 0 <= k < |Printed(f)| ==> !(0x61 <= Printed(f)[k] <= 0x7A)
  {
    if forall k :: 0 <= k < 11 ==> !(0x61 <= f[k] <= 0x7A) {
      ShownIsLarge(f[..8]);
      ShownIsLarge(f[8..11]);
    }
    hide Shown;
  }

  /** What is printed of eight and three characters without padding: all of them, with a dot between. */
  lemma PrintedWhole(f: seq<byte>)
    requires |f| == 11 && forall k :: 0 <= k < 11 ==> f[k] != 0x20 && f[k] != 0x05
    ensures Printed(f) == f[..8] + [0x2E] + f[8..11]
  {
    ShownWhole(f[..8]);
    ShownWhole(f[8..11]);
  }

  lemma {:induction false} ShownWhole(f: seq<byte>)
    requires forall k :: 0 <= k < |f| ==> f[k] != 0x20 && f[k] != 0x05
    ensures Shown(f) == f
  {
    if f != [] { ShownWhole(f[1..]); }
  }

  /** A stored 0x05 stands for 0xE5, and a space for nothing. */
  lemma ShownOne(c: byte)
    ensures Shown([c]) == if c == 0x20 then [] else [if c == 0x05 then 0xE5 else c]
  {
    assert [c][1..] == [];
  }

  /** What a directory reader is told of an entry. */
  datatype FileInfo = FileInfo(fname: seq<byte>, fattrib: byte, fsize: dword, fdate: word, ftime: word)

  /** Get the information of an entry: the printed name, attribute, size, date and time. */
  method GetFileInfo(dir: seq<byte>) returns (fno: FileInfo)
    requires |dir| == SZ_DIRE
    ensures fno.fname == Printed(dir) && fno.fattrib == dir[11] && fno.fsize == LdDword(dir, 28)
    ensures fno.fdate == LdWord(dir, 24) && fno.ftime == LdWord(dir, 22)
    ensures (forall k :: 0 <= k < 11 ==> !(0x61 <= dir[k] <= 0x7A)) ==>
      forall k :: 0 <= k < |fno.fname| ==> !(0x61 <= fno.fname[k] <= 0x7A)
  {
    hide Shown;
    PrintedIsLarge(dir);
    var fname := [];
    ShownNothing();
    assert dir[0..0] == [] && dir[8..8] == [];
    var i := 0;
    while i < 11
      invariant 0 <= i <= 11
      invariant fname == if i <= 8 then Shown(dir[0..i])
                         else Shown(dir[0..8]) + (if dir[8] == SPACE then [] else [DOT]) + Shown(dir[8..i])
    {
      ShownTo(dir, if i < 8 then 0 else 8, i);
      var c := dir[i];
      i := i + 1;
      if c == SPACE { continue; }
      if c == RDDEM { c := DDEM; }
      if i == 9 { fname := fname + [DOT]; }
      fname := fname + [c];
    }
    assert dir[0..8] == dir[..8];
    fno := FileInfo(fname, dir[11], LdDword(dir, 28), LdWord(dir, 24), LdWord(dir, 22));
  }

  lemma ShownNothing()
    ensures Shown([]) == []
  {
  }

  lemma LegalFold(c: byte)
    requires Legal(c)
    ensures Fold(c) != SPACE && Fold(c) != RDDEM && Fold(c) != DOT
  {
  }

  lemma {:induction false} ShownSpaces(f: seq<byte>)
    requires forall i :: 0 <= i < |f| ==> f[i] == SPACE
    ensures Shown(f) == []
  {
    if f != [] { ShownSpaces(f[1..]); }
  }

  lemma ShownFirst(f: seq<byte>)
    requires f != [] && f[0] != SPACE && f[0] != RDDEM
    ensures Shown(f) == [f[0]] + Shown(f[1..])
  {
  }

  /** A padded field is printed as the upper case of what it was made from. */
  lemma {:induction false} ShownPadded(t: seq<byte>, n: nat)
    requires AllLegal(t) && |t| <= n
    ensures Shown(Padded(t, n)) == Upper(t)
    decreases n
  {
    hide Legal, Fold, Shown;
    var f := Padded(t, n);
    if t == [] {
      ShownSpaces(f);
    } else {
      var r := t[1..];
      LegalFold(t[0]);
      assert f[1..] == Padded(r, n - 1);
      ShownFirst(f);
      ShownPadded(r, n - 1);
      assert Upper(t) == [Fold(t[0])] + Upper(r);
    }
  }

  /** The replacement of the deleted mark is not seen in print. */
  lemma {:induction false} ShownProtected(f: seq<byte>)
    requires f != [] && f[0] == DDEM
    ensures Shown(f[0 := RDDEM]) == Shown(f)
  {
    assert f[0 := RDDEM][1..] == f[1..];
  }

  lemma PrintsProtected(f: seq<byte>)
    requires |f| == 11
    ensures Printed(Protect(f)) == Printed(f)
  {
    hide Shown;
    var g := Protect(f);
    assert g[8..11] == f[8..11] && g[8] == f[8];
    if f[0] == DDEM {
      ShownProtected(f[..8]);
      assert g[..8] == f[..8][0 := RDDEM];
    }
  }

  lemma PrintsFields(s: seq<byte>)
    requires Acceptable(s)
    ensures Printed(Fields(s)) == Upper(Body(s)) + if Ext(s) == [] then [] else [DOT] + Upper(Ext(s))
  {
    hide Shown, AllLegal, DotAt, Body, Ext, Padded, Upper;
    var b, e, f := Body(s), Ext(s), Fields(s);
    ShownPadded(b, 8);
    ShownPadded(e, 3);
    assert f[..8] == Padded(b, 8) && f[8..11] == Padded(e, 3);
    assert f[8] == Padded(e, 3)[0];
    if e == [] {
      assert Upper(e) == [];
    } else {
      FirstLegal(e);
    }
  }

  lemma UpperConcat(a: seq<byte>, b: seq<byte>)
    ensures Upper(a + b) == Upper(a) + Upper(b)
  {
    hide Fold;
    var u, v := Upper(a + b), Upper(a) + Upper(b);
    forall i | 0 <= i < |u| ensures u[i] == v[i] { }
  }

  lemma UpperParts(s: seq<byte>)
    ensures DotAt(s) < |s| ==> Upper(s) == Upper(Body(s)) + [DOT] + Upper(Ext(s))
    ensures DotAt(s) == |s| ==> Body(s) == s
  {
    hide DotAt, Upper, Fold;
    WholeAppend(s, DOT);
    if DotAt(s) < |s| {
      Rejoin(s, DotAt(s));
      UpperConcat(Body(s) + [DOT], Ext(s));
      UpperConcat(Body(s), [DOT]);
      UpperDot();
    }
  }

  lemma UpperDot()
    ensures Upper([DOT]) == [DOT]
  {
    assert Fold(DOT) == DOT;
  }

  /** An accepted name is printed back in upper case; a final dot is dropped. */
  lemma PrintsUpper(s: seq<byte>)
    requires Acceptable(s)
    ensures Printed(ShortForm(s)) == if Ext(s) == [] then Upper(Body(s)) else Upper(s)
    ensures DotAt(s) == |s| ==> Body(s) == s
  {
    hide Printed, Fields, Acceptable, Upper, Body, DotAt;
    PrintsProtected(Fields(s));
    PrintsFields(s);
    UpperParts(s);
  }

  lemma FirstLegal(e: seq<byte>)
    requires e != [] && AllLegal(e)
    ensures Legal(e[0]) && Fold(e[0]) != SPACE
  {
    LegalFold(e[0]);
  }

  /** Does the name end in a dot? */
  predicate EndsInDot(s: seq<byte>) {
    s != [] && s[|s| - 1] == DOT
  }

  lemma NoFinalDot(s: seq<byte>)
    requires Acceptable(s)
    ensures EndsInDot(s) <==> DotAt(s) < |s| && Ext(s) == []
  {
    if DotAt(s) < |s| && Ext(s) != [] {
      var e := Ext(s);
      assert Legal(e[|e| - 1]) && e[|e| - 1] == s[|s| - 1];
    }
  }

  /** 8.3 round trip: a name that create_name accepts, without a final dot, comes back in upper case. */
  lemma RoundTrip(s: seq<byte>)
    requires Acceptable(s) && !EndsInDot(s)
    ensures Printed(ShortForm(s)) == Upper(s)
  {
    NoFinalDot(s);
    PrintsUpper(s);
  }

  /** The round trip of a name of ASCII characters: small letters come back as capitals, everything else as it is. */
  lemma RoundTripAscii(s: seq<byte>)
    requires Acceptable(s) && s[|s| - 1] != 0x2E && forall i :: 0 <= i < |s| ==> s[i] < 0x80
    ensures |Printed(ShortForm(s))| == |s|
    ensures forall i :: 0 <= i < |s| ==>
      Printed(ShortForm(s))[i] as int == if 0x61 <= s[i] <= 0x7A then s[i] as int - 0x20 else s[i] as int
  {
    hide Acceptable, Printed, Fields, ShortForm;
    RoundTrip(s);
  }

  /** Two names of ASCII characters share an entry exactly if they differ in the case of letters only. */
  lemma SameEntryAscii(s: seq<byte>, t: seq<byte>)
    requires Acceptable(s) && Acceptable(t) && s[|s| - 1] != 0x2E && t[|t| - 1] != 0x2E
    requires (forall i :: 0 <= i < |s| ==> s[i] < 0x80) && forall i :: 0 <= i < |t| ==> t[i] < 0x80
    ensures ShortForm(s) == ShortForm(t) <==>
      |s| == |t| && forall i :: 0 <= i < |s| ==>
        || s[i] == t[i] || (0x41 <= s[i] <= 0x5A && t[i] as int == s[i] as int + 0x20)
        || (0x41 <= t[i] <= 0x5A && s[i] as int == t[i] as int + 0x20)
  {
    hide Acceptable, ShortForm;
    SameEntry(s, t);
    assert |Upper(s)| == |s| && |Upper(t)| == |t|;
    if Upper(s) == Upper(t) {
      forall i | 0 <= i < |s|
        ensures s[i] == t[i] || (0x41 <= s[i] <= 0x5A && t[i] as int == s[i] as int + 0x20)
                || (0x41 <= t[i] <= 0x5A && s[i] as int == t[i] as int + 0x20)
      {
        assert Upper(s)[i] == Upper(t)[i];
      }
    }
  }

  lemma {:induction false} SameDot(s: seq<byte>, t: seq<byte>)
    requires Upper(s) == Upper(t)
    ensures DotAt(s) == DotAt(t)
    decreases |s|
  {
    if s != [] {
      assert |Upper(s)| == |s| && |Upper(t)| == |t|;
      assert Fold(s[0]) == Upper(s)[0] == Upper(t)[0] == Fold(t[0]);
      assert Fold(s[0]) == DOT <==> s[0] == DOT;
      assert Fold(t[0]) == DOT <==> t[0] == DOT;
      assert Upper(s[1..]) == Upper(s)[1..] && Upper(t[1..]) == Upper(t)[1..];
      SameDot(s[1..], t[1..]);
    } else {
      assert |Upper(t)| == |t|;
    }
  }

  lemma PaddedByUpper(a: seq<byte>, b: seq<byte>, n: nat)
    requires Upper(a) == Upper(b)
    ensures Padded(a, n) == Padded(b, n)
  {
    assert |a| == |Upper(a)| == |b|;
    forall i | 0 <= i < n ensures Padded(a, n)[i] == Padded(b, n)[i] {
      if i < |a| { assert Upper(a)[i] == Upper(b)[i]; }
    }
  }

  lemma UpperPieces(s: seq<byte>, t: seq<byte>, a: nat, b: nat)
    requires Upper(s) == Upper(t) && a <= b <= |s|
    ensures |t| == |s| && Upper(s[a..b]) == Upper(t[a..b])
  {
    assert |s| == |Upper(s)| == |t|;
    forall i | 0 <= i < b - a ensures Upper(s[a..b])[i] == Upper(t[a..b])[i] {
      assert Upper(s)[a + i] == Upper(t)[a + i];
    }
  }

  lemma SameFields(s: seq<byte>, t: seq<byte>)
    requires Upper(s) == Upper(t)
    ensures Fields(s) == Fields(t)
  {
    hide DotAt, Upper, Padded;
    SameDot(s, t);
    var d := DotAt(s);
    UpperPieces(s, t, 0, d);
    PaddedByUpper(Body(s), Body(t), 8);
    if d < |s| {
      UpperPieces(s, t, d + 1, |s|);
    }
    PaddedByUpper(Ext(s), Ext(t), 3);
  }

  /** Two accepted names, neither ending in a dot, share a directory entry exactly when they are equal ignoring case. */
  lemma SameEntry(s: seq<byte>, t: seq<byte>)
    requires Acceptable(s) && Acceptable(t) && !EndsInDot(s) && !EndsInDot(t)
    ensures ShortForm(s) == ShortForm(t) <==> Upper(s) == Upper(t)
  {
    hide Acceptable, EndsInDot, Fields, Upper, Printed;
    if ShortForm(s) == ShortForm(t) {
      RoundTrip(s);
      RoundTrip(t);
    }
    if Upper(s) == Upper(t) { SameFields(s, t); }
  }

  /** A final dot makes no difference to the entry. */
  lemma FinalDotIgnored(s: seq<byte>)
    requires Acceptable(s) && DotAt(s) == |s|
    ensures Acceptable(s + [DOT]) && ShortForm(s + [DOT]) == ShortForm(s)
  {
    PartsAppend(s, DOT);
    FitsAppend(s, DOT);
  }
}
