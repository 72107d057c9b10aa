/** Long file names: the entries that hold one, their checksum, and the scan that picks it up again. */
module LongName {
  import opened Bytes
  import opened Layout

  type Direntry = seq<byte>

  /** The size limit of the LFN buffer (_MAX_LFN), its last element not counted. */
  const MAX_LFN: nat := 255
  const LLEF: nat := 0x40
  const AM_LFN: byte := 0x0F
  const AM_VOL: byte := 0x08
  const LDIR_ATTR: nat := 11
  const LDIR_TYPE: nat := 12
  const LDIR_CHKSUM: nat := 13
  const LDIR_FSTCLUSLO: nat := 26
  const DOT_NAME: byte := 0x2E
  const NO_LFN: word := 0xFFFF

  /** Offset of the s-th LFN character in an entry (LfnOfs). */
  function Ofs(s: nat): (r: nat)
    requires s < 13
    ensures r + 1 < 32
  {
    if s < 5 then 1 + 2 * s else if s < 11 then 4 + 2 * s else 6 + 2 * s
  }

  /** The offsets of the thirteen characters. */
  lemma OfsIs()
    ensures [Ofs(0), Ofs(1), Ofs(2), Ofs(3), Ofs(4)] == [1, 3, 5, 7, 9]
    ensures [Ofs(5), Ofs(6), Ofs(7), Ofs(8), Ofs(9), Ofs(10)] == [14, 16, 18, 20, 22, 24]
    ensures [Ofs(11), Ofs(12)] == [28, 30]
  {
  }

  // ---------- names and the entries that hold them ----------

  predicate IsName(name: seq<word>) {
    1 <= |name| && forall i :: 0 <= i < |name| ==> name[i] != 0 && name[i] != 0xFFFF
  }

  /** The name in the LFN buffer, with its terminator. */
  predicate Holds(buf: seq<word>, name: seq<word>) {
    |name| < |buf| && buf[..|name|] == name && buf[|name|] == 0
  }

  /** Entries needed for a name, the short entry not counted. */
  function Parts(name: seq<word>): nat {
    (|name| + 12) / 13
  }

  /** Character s of the k-th part: the name, its terminator, then filler. */
  function PartChar(name: seq<word>, k: nat, s: nat): word
    requires 1 <= k
  {
    var i := 13 * (k - 1) + s;
    if i < |name| then name[i] else if i == |name| then 0 else 0xFFFF
  }

  /** e is the k-th part of the name; the part with the end of the name carries the last-entry flag. */
  predicate IsPart(e: Direntry, name: seq<word>, k: nat, sum: byte)
    requires 1 <= k
    ensures IsPart(e, name, k, sum) ==> |e| == 32
  {
    && |e| == 32
    && e[0] as int == (if 13 * k >= |name| then k + 0x40 else k)
    && e[11] == 0x0F && e[12] == 0 && e[13] == sum && LdWord(e, 26) == 0
    && forall s :: 0 <= s < 13 ==> LdWord(e, Ofs(s)) == PartChar(name, k, s)
  }

  /** The characters in the bytes of the k-th part: the name from its 13 (k - 1)-th character on, a terminator and
      filler. */
  lemma PartInBytes(e: Direntry, name: seq<word>, k: nat, sum: byte, s: nat)
    requires 1 <= k && IsPart(e, name, k, sum) && s < 13
    ensures var i := 13 * (k - 1) + s;
            var o := if s < 5 then 1 + 2 * s else if s < 11 then 14 + 2 * (s - 5) else 28 + 2 * (s - 11);
            e[o] as int + e[o + 1] as int * 0x100 == if i < |name| then name[i] as int
                                                     else if i == |name| then 0 else 0xFFFF
    ensures Parts(name) == |name| / 13 + if |name| % 13 > 0 then 1 else 0
  {
    assert LdWord(e, Ofs(s)) == PartChar(name, k, s);
    hide IsPart;
  }

  /** Every byte of the entry is determined. */
  lemma PartUnique(e: Direntry, f: Direntry, name: seq<word>, k: nat, sum: byte)
    requires 1 <= k && IsPart(e, name, k, sum) && IsPart(f, name, k, sum)
    ensures e == f
  {
    assert forall s :: 0 <= s < 13 ==> LdWord(e, Ofs(s)) == LdWord(f, Ofs(s));
    forall s | 0 <= s < 13 ensures e[Ofs(s)] == f[Ofs(s)] && e[Ofs(s) + 1] == f[Ofs(s) + 1] {
      WordUnique(e, f, Ofs(s));
    }
    WordUnique(e, f, LDIR_FSTCLUSLO);
    forall i | 0 <= i < 32 ensures e[i] == f[i] {
      if 1 <= i <= 10 {
        assert i == Ofs((i - 1) / 2) || i == Ofs((i - 1) / 2) + 1;
      } else if 14 <= i <= 25 {
        assert i == Ofs((i - 4) / 2) || i == Ofs((i - 4) / 2) + 1;
      } else if 28 <= i {
        assert i == Ofs((i - 6) / 2) || i == Ofs((i - 6) / 2) + 1;
      }
    }
  }

  lemma WordUnique(e: Direntry, f: Direntry, i: nat)
    requires i + 1 < |e| && |f| == |e| && LdWord(e, i) == LdWord(f, i)
    ensures e[i] == f[i] && e[i + 1] == f[i + 1]
  {
  }

  // ---------- fit_lfn ----------

  /** Storing one character leaves the other places of the entry alone. */
  lemma PutChar(e: seq<byte>, s: nat, v: word)
    requires |e| == 32 && s < 13
    ensures forall r :: 0 <= r < 13 && r != s ==> LdWord(PutWord(e, Ofs(s), v), Ofs(r)) == LdWord(e, Ofs(r))
    ensures LdWord(PutWord(e, Ofs(s), v), Ofs(s)) == v
    ensures var f := PutWord(e, Ofs(s), v);
            f[0] == e[0] && f[11] == e[11] && f[12] == e[12] && f[13] == e[13] && f[26] == e[26] && f[27] == e[27]
  {
  }

  /** Write the ord-th part of the name in lfnbuf to an entry. */
  method FitLfn(lfnbuf: seq<word>, dir: array<byte>, ord: byte, sum: byte, ghost name: seq<word>)
    requires IsName(name) && Holds(lfnbuf, name) && 1 <= ord <= 20 && 13 * (ord as int - 1) < |name| && dir.Length == 32
    modifies dir
    ensures IsPart(dir[..], name, ord as nat, sum)
  {
    dir[LDIR_CHKSUM] := sum;
    dir[LDIR_ATTR] := AM_LFN;
    dir[LDIR_TYPE] := 0;
    StWord(dir, LDIR_FSTCLUSLO, 0);
    var i: nat := (ord as int - 1) * 13;
    var s: nat, wc: word := 0, 0;
    while s < 13
      invariant s <= 13 && dir[LDIR_CHKSUM] == sum && dir[LDIR_ATTR] == AM_LFN && dir[LDIR_TYPE] == 0
      invariant LdWord(dir[..], LDIR_FSTCLUSLO) == 0
      invariant forall r :: 0 <= r < s ==> LdWord(dir[..], Ofs(r)) == PartChar(name, ord as nat, r)
      invariant wc == 0xFFFF <==> 13 * (ord as int - 1) + s > |name|
      invariant wc != 0xFFFF ==> i == 13 * (ord as int - 1) + s
    {
      if wc != 0xFFFF {
        assert i < |name| ==> lfnbuf[i] == lfnbuf[..|name|][i];
        wc := lfnbuf[i];
        i := i + 1;
      }
      PutChar(dir[..], s, wc);
      StWord(dir, Ofs(s), wc);
      if wc == 0 { wc := 0xFFFF; }
      s := s + 1;
    }
    assert i < |name| ==> lfnbuf[i] == lfnbuf[..|name|][i];
    var o: byte := ord;
    if wc == 0xFFFF || lfnbuf[i] == 0 { o := o + LLEF; }
    ghost var f := dir[..];
    dir[0] := o;
    assert dir[..] == f[0 := o];
  }

  // ---------- pick_lfn ----------

  function Char(e: Direntry, s: nat): word
    requires |e| == 32 && s < 13
  {
    LdWord(e, Ofs(s))
  }

  /** Number of characters of an entry up to its first 0 included, 13 if there is none. */
  function Length(e: Direntry, s: nat): (r: nat)
    requires |e| == 32 && s <= 13
    ensures s <= r <= 13
    ensures forall k :: s <= k < r - 1 ==> Char(e, k) != 0
    ensures r < 13 ==> s < r && Char(e, r - 1) == 0
    decreases 13 - s
  {
    if s == 13 then 13 else if Char(e, s) == 0 then s + 1 else Length(e, s + 1)
  }

  /** Only filler behind the end of the name. */
  predicate FillerOk(e: Direntry)
    requires |e| == 32
  {
    forall s :: Length(e, 0) <= s < 13 ==> Char(e, s) == 0xFFFF
  }

  /** Offset of an entry's characters in the LFN buffer; order 0 wraps to a huge offset. */
  function PartStart(e: Direntry): nat
    requires |e| == 32
  {
    var o := e[0] % 0x40;
    if o == 0 then 0xFFFF_FFF3 else (o as int - 1) * 13
  }

  predicate IsLast(e: Direntry)
    requires |e| == 32
  {
    e[0] as int / LLEF % 2 == 1
  }

  /** Flag, place in the buffer, and characters of an entry in its bytes. */
  lemma EntryInBytes(e: Direntry, s: nat)
    requires |e| == 32 && s < 13
    ensures IsLast(e) <==> 0x40 <= e[0] < 0x80 || e[0] >= 0xC0
    ensures PartStart(e) <= 255 <==> 1 <= e[0] % 0x40 <= 20
    ensures 1 <= e[0] % 0x40 ==> PartStart(e) as int == 13 * (e[0] as int % 0x40) - 13
    ensures var o := if s < 5 then 1 + 2 * s else if s < 11 then 14 + 2 * (s - 5) else 28 + 2 * (s - 11);
            Char(e, s) as int == e[o] as int + e[o + 1] as int * 0x100
  {
    LittleEndian(e, Ofs(s));
  }

  /** pick_lfn accepts the entry. */
  predicate Pickable(e: Direntry)
    requires |e| == 32
  {
    && FillerOk(e)
    && if IsLast(e) then PartStart(e) + Length(e, 0) < MAX_LFN else PartStart(e) + Length(e, 0) <= MAX_LFN
  }

  /** Buffer b is was with m characters of e stored from at on. */
  predicate Copied(b: seq<word>, was: seq<word>, e: Direntry, at: nat, m: nat)
    requires |e| == 32 && m <= 13
    ensures Copied(b, was, e, at, m) ==> |b| == |was|
  {
    |b| == |was| && forall j :: 0 <= j < |b| ==> b[j] == if at <= j < at + m then Char(e, j - at) else was[j]
  }

  lemma CopiedMore(b: seq<word>, was: seq<word>, e: Direntry, at: nat, m: nat)
    requires |e| == 32 && m < 13 && Copied(b, was, e, at, m) && at + m < |b|
    ensures Copied(b[at + m := Char(e, m)], was, e, at, m + 1)
  {
  }

  lemma LengthFrom(e: Direntry, s: nat)
    requires |e| == 32 && s < 13
    ensures Length(e, s) == if Char(e, s) == 0 then s + 1 else Length(e, s + 1)
  {
  }

  /** Copy the characters of an entry to the LFN buffer. */
  method PickLfn(lfnbuf: array<word>, dir: Direntry) returns (ok: bool)
    requires lfnbuf.Length == MAX_LFN + 1 && |dir| == 32
    modifies lfnbuf
    ensures ok <==> Pickable(dir)
    ensures ok ==>
      && PartStart(dir) + Length(dir, 0) < lfnbuf.Length
      && exists b :: Copied(b, old(lfnbuf[..]), dir, PartStart(dir), Length(dir, 0))
                     && lfnbuf[..] == if IsLast(dir) then b[PartStart(dir) + Length(dir, 0) := 0] else b
  {
    hide Char, PartStart, IsLast, Copied, Length;
    var i: nat := PartStart(dir);
    ghost var at, len, was := i, Length(dir, 0), lfnbuf[..];
    var s: nat, wc: word := 0, 1;
    CopiedNothing(lfnbuf[..], dir, at);
    while s < 13
      invariant s <= 13 && i == at + (if wc != 0 then s else len) && (i <= MAX_LFN || s == 0)
      invariant if wc != 0 then len == Length(dir, s) else len <= s
      invariant wc == 0 ==> forall r :: len <= r < s ==> Char(dir, r) == 0xFFFF
      invariant Copied(lfnbuf[..], was, dir, at, if wc != 0 then s else len)
    {
      LengthFrom(dir, s);
      var uc := Char(dir, s);
      if wc != 0 {
        if i >= MAX_LFN { return false; }
        CopiedMore(lfnbuf[..], was, dir, at, s);
        ghost var b := lfnbuf[..];
        wc := uc;
        lfnbuf[i] := wc;
        assert lfnbuf[..] == b[i := uc];
        i := i + 1;
      } else {
        if uc != 0xFFFF { return false; }
      }
      s := s + 1;
    }
    ghost var b := lfnbuf[..];
    if IsLast(dir) {
      if i >= MAX_LFN { return false; }
      lfnbuf[i] := 0;
      assert lfnbuf[..] == b[i := 0];
    }
    ok := true;
  }

  lemma CopiedNothing(b: seq<word>, e: Direntry, at: nat)
    requires |e| == 32
    ensures Copied(b, b, e, at, 0)
  {
  }

  // ---------- a part picked up again ----------

  /** The longest name that comes back.  A name that does not fill its last part costs pick_lfn one place more than
      its terminator, so at MAX_LFN 255 a name of 254 characters is already refused. */
  const LONGEST: nat := 253

  lemma PartLength(e: Direntry, name: seq<word>, k: nat, sum: byte, s: nat)
    requires IsName(name) && 1 <= k <= Parts(name) && IsPart(e, name, k, sum) && s <= 13
      && 13 * (k - 1) + s <= |name| + 1
    requires 13 * (k - 1) + s <= |name| || s > 0
    ensures 13 * (k - 1) + s <= |name| ==> Length(e, s) == if 13 * k <= |name| then 13 else |name| - 13 * (k - 1) + 1
    decreases 13 - s
  {
    if s < 13 && 13 * (k - 1) + s <= |name| {
      assert Char(e, s) == PartChar(name, k, s);
      if 13 * (k - 1) + s < |name| { PartLength(e, name, k, sum, s + 1); }
    }
  }

  /** Every part but the last is accepted; the last one exactly if the name is not too long. */
  lemma PartPickable(e: Direntry, name: seq<word>, k: nat, sum: byte)
    requires IsName(name) && |name| <= 255 && 1 <= k <= Parts(name) && IsPart(e, name, k, sum)
    ensures PartStart(e) == 13 * (k - 1) && (IsLast(e) <==> k == Parts(name))
    ensures Length(e, 0) == if 13 * k <= |name| then 13 else |name| - 13 * (k - 1) + 1
    ensures Pickable(e) <==> k < Parts(name) || |name| <= 253
  {
    hide Length, Char, PartStart, IsLast, IsPart, PartChar;
    PartLength(e, name, k, sum, 0);
    PartHead(e, name, k, sum);
    PartFiller(e, name, k, sum);
  }

  lemma PartHead(e: Direntry, name: seq<word>, k: nat, sum: byte)
    requires 1 <= |name| <= 255 && 1 <= k <= Parts(name) && IsPart(e, name, k, sum)
    ensures PartStart(e) == 13 * (k - 1) && (IsLast(e) <==> k == Parts(name))
      && (13 * k >= |name| <==> k == Parts(name))
  {
    assert k <= 20;
  }

  lemma PartFiller(e: Direntry, name: seq<word>, k: nat, sum: byte)
    requires 1 <= k && IsPart(e, name, k, sum)
    requires Length(e, 0) == if 13 * k <= |name| then 13 else |name| - 13 * (k - 1) + 1
    ensures FillerOk(e)
  {
    hide Length, Char, Ofs, LdWord;
    forall s | Length(e, 0) <= s < 13 ensures Char(e, s) == 0xFFFF {
      PartCharAt(e, name, k, sum, s);
    }
  }

  lemma PartCharAt(e: Direntry, name: seq<word>, k: nat, sum: byte, s: nat)
    requires 1 <= k && IsPart(e, name, k, sum) && s < 13
    ensures Char(e, s) == PartChar(name, k, s)
  {
  }

  /** The buffer holds the name from position at on. */
  predicate HoldsFrom(buf: seq<word>, name: seq<word>, at: nat) {
    && at <= |name| < |buf| && buf[|name|] == 0
    && forall i :: at <= i < |name| ==> buf[i] == name[i]
  }

  /** Picking up part k extends what the buffer holds downwards. */
  lemma PartPicked(e: Direntry, name: seq<word>, k: nat, sum: byte, was: seq<word>, b: seq<word>)
    requires IsName(name) && |name| <= LONGEST && 1 <= k <= Parts(name) && IsPart(e, name, k, sum)
      && |was| == MAX_LFN + 1
    requires k < Parts(name) ==> HoldsFrom(was, name, 13 * k)
    requires Copied(b, was, e, 13 * (k - 1), Length(e, 0))
    requires Length(e, 0) == if 13 * k <= |name| then 13 else |name| - 13 * (k - 1) + 1
    ensures 13 * (k - 1) + Length(e, 0) < |b|
    ensures HoldsFrom(if k == Parts(name) then b[13 * (k - 1) + Length(e, 0) := 0] else b, name, 13 * (k - 1))
  {
    hide Length, Char, IsPart;
    var at, len := 13 * (k - 1), Length(e, 0);
    var c := if k == Parts(name) then b[at + len := 0] else b;
    forall i | at <= i <= |name| ensures c[i] == if i < |name| then name[i] else 0 {
      if i < at + len {
        PartCharAt(e, name, k, sum, i - at);
        assert b[i] == Char(e, i - at);
      }
    }
  }

  lemma HoldsAll(buf: seq<word>, name: seq<word>)
    ensures HoldsFrom(buf, name, 0) <==> Holds(buf, name)
  {
    if |name| < |buf| {
      if HoldsFrom(buf, name, 0) { assert buf[..|name|] == name; }
      if Holds(buf, name) { assert forall i :: 0 <= i < |name| ==> buf[i] == buf[..|name|][i]; }
    }
  }

  // ---------- the checksum of the short name ----------

  /** One step: rotate right by one bit, add the next byte, modulo 256. */
  function SumStep(sum: byte, c: byte): byte {
    (sum / 2 + sum % 2 * 128 + c) % 0x100
  }

  function SumOf(s: seq<byte>): byte {
    if s == [] then 0 else SumStep(SumOf(s[..|s| - 1]), s[|s| - 1])
  }

  /** The checksum rotates right by one bit and adds the next character, from 0 on, in eight bits. */
  lemma SumIs(s: seq<byte>, c: byte)
    ensures SumOf([]) == 0
    ensures SumOf(s + [c]) as int == (SumOf(s) as int / 2 + SumOf(s) as int * 0x80 + c as int) % 0x100
  {
    assert (s + [c])[..|s|] == s;
    RotateIs(SumOf(s), c);
  }

  lemma RotateIs(sum: byte, c: byte)
    ensures SumStep(sum, c) as int == (sum as int / 2 + sum as int * 0x80 + c as int) % 0x100
  {
    var h, b: int := sum as int / 2, sum as int % 2;
    WholeBytes(h, h + b * 0x80 + c as int);
  }

  lemma WholeBytes(h: int, x: int)
    ensures (0x100 * h + x) % 0x100 == x % 0x100
  {
  }

  method SumSfn(dir: Direntry) returns (sum: byte)
    requires |dir| >= 11
    ensures sum == SumOf(dir[..11])
  {
    sum := 0;
    var n: nat := 0;
    while n < 11
      invariant n <= 11 && sum == SumOf(dir[..n])
    {
      assert dir[..n + 1][..n] == dir[..n];
      sum := SumStep(sum, dir[n]);
      n := n + 1;
    }
  }

  /** A change of any one character of a short name changes its checksum: the step is one to one in both arguments. */
  lemma {:induction false} SumDetectsOne(s: seq<byte>, i: nat, c: byte)
    requires i < |s| && c != s[i]
    ensures SumOf(s[i := c]) != SumOf(s)
    decreases |s|
  {
    var t := s[i := c];
    var n := |s| - 1;
    if i == n {
      assert t[..n] == s[..n];
      StepsDiffer(SumOf(s[..n]), c, s[n]);
    } else {
      assert t[..n] == s[..n][i := c];
      SumDetectsOne(s[..n], i, c);
      StepKeepsApart(SumOf(t[..n]), SumOf(s[..n]), s[n]);
    }
  }

  lemma StepKeepsApart(a: byte, b: byte, c: byte)
    requires a != b
    ensures SumStep(a, c) != SumStep(b, c)
  {
    RotatedApart(a, b);
    SumsApart(a as int / 2 + a as int % 2 * 128, b as int / 2 + b as int % 2 * 128, c as int);
  }

  lemma RotatedApart(a: byte, b: byte)
    requires a != b
    ensures a as int / 2 + a as int % 2 * 128 != b as int / 2 + b as int % 2 * 128
  {
    assert a as int % 2 == b as int % 2 ==> a as int / 2 != b as int / 2;
  }

  lemma SumsApart(x: int, y: int, c: int)
    requires 0 <= x < 0x100 && 0 <= y < 0x100 && 0 <= c < 0x100 && x != y
    ensures (x + c) % 0x100 != (y + c) % 0x100
  {
    assert (x + c) % 0x100 == if x + c < 0x100 then x + c else x + c - 0x100;
    assert (y + c) % 0x100 == if y + c < 0x100 then y + c else y + c - 0x100;
  }

  lemma StepsDiffer(sum: byte, c: byte, d: byte)
    requires c != d
    ensures SumStep(sum, c) != SumStep(sum, d)
  {
    var x := sum / 2 + sum % 2 * 128;
    assert 0 <= x < 0x100;
    assert (x + c) % 0x100 == if x + c < 0x100 then x + c else x + c - 0x100;
    assert (x + d) % 0x100 == if x + d < 0x100 then x + d else x + d - 0x100;
  }

  // ---------- dir_register ----------

  /** An entry that dir_read stops at: a file or directory, or a volume label if that is wanted. */
  predicate StopsAt(e: Direntry, vol: bool) {
    && |e| == 32 && e[0] != 0 && e[0] != 0xE5 && e[0] != 0x2E
    && e[11] % 0x40 != 0x0F && (e[11] % 0x20 == 0x08) == vol
  }

  /** A file or directory. */
  predicate IsShort(e: Direntry) {
    StopsAt(e, false)
  }

  /** The entry k places before at is the k-th part of the name. */
  predicate PartAt(table: seq<Direntry>, at: nat, k: nat, name: seq<word>, sum: byte) {
    1 <= k <= at && at - k < |table| && IsPart(table[at - k], name, k, sum)
  }

  /** So are all parts above the lo-th. */
  predicate PartsAbove(table: seq<Direntry>, at: nat, lo: nat, name: seq<word>, sum: byte) {
    forall k :: lo < k <= Parts(name) ==> PartAt(table, at, k, name, sum)
  }

  lemma NoPartYet(table: seq<Direntry>, at: nat, name: seq<word>, sum: byte)
    ensures PartsAbove(table, at, Parts(name), name, sum)
  {
  }

  lemma OnePartMore(table: seq<Direntry>, at: nat, k: nat, name: seq<word>, sum: byte, e: Direntry)
    requires 1 <= k <= at < |table| && PartsAbove(table, at, k, name, sum) && IsPart(e, name, k, sum)
    ensures PartsAbove(table[at - k := e], at, k - 1, name, sum)
  {
    hide IsPart;
    var t := table[at - k := e];
    forall j | k - 1 < j <= Parts(name) ensures PartAt(t, at, j, name, sum) {
      if j > k { assert PartAt(table, at, j, name, sum); }
    }
  }

  lemma PartsKept(table: seq<Direntry>, at: nat, name: seq<word>, sum: byte, e: Direntry)
    requires at < |table| && PartsAbove(table, at, 0, name, sum)
    ensures PartsAbove(table[at := e], at, 0, name, sum)
  {
    hide IsPart;
    var t := table[at := e];
    forall j | 0 < j <= Parts(name) ensures PartAt(t, at, j, name, sum) {
      assert PartAt(table, at, j, name, sum);
    }
  }

  /** The name is recorded in the entries from first to at: its parts, last part first, then the short entry. */
  ghost predicate Recorded(table: seq<Direntry>, first: nat, at: nat, name: seq<word>) {
    && IsName(name) && |name| <= 255 && at == first + Parts(name) < |table| && IsShort(table[at])
    && PartsAbove(table, at, 0, name, SumOf(table[at][..11]))
  }

  predicate Sized(table: seq<Direntry>) {
    forall i :: 0 <= i < |table| ==> |table[i]| == 32
  }

  /** Number of entries that a name needs besides the short one. */
  method CountParts(lfn: seq<word>, ghost name: seq<word>) returns (n: nat)
    requires IsName(name) && Holds(lfn, name)
    ensures n == Parts(name) && (|name| <= 255 ==> n <= 20) && n >= 1
  {
    hide IsName;
    NameEnds(lfn, name);
    var k: nat := 0;
    while lfn[k] != 0
      invariant k <= |name|
      decreases |name| - k
    {
      k := k + 1;
    }
    n := (k + 25) / 13 - 1;
  }

  lemma ShortEntry(fn: seq<byte>, e: Direntry)
    requires |fn| == 12 && fn[0] != 0 && fn[0] != 0xE5 && fn[0] != 0x2E
    requires e == fn[..11] + [0, fn[11] / 8 % 4 * 8] + seq(19, _ => 0)
    ensures IsShort(e) && e[..11] == fn[..11]
  {
  }

  lemma NameEnds(lfn: seq<word>, name: seq<word>)
    requires IsName(name) && Holds(lfn, name)
    ensures |name| >= 1 && |name| < |lfn| && lfn[|name|] == 0
    ensures forall i :: 0 <= i < |name| ==> lfn[i] != 0
  {
    forall i | 0 <= i < |name| ensures lfn[i] != 0 {
      assert lfn[i] == lfn[..|name|][i];
    }
  }

  // ---------- dir_read ----------

  /** An entry that dir_read passes over. */
  predicate Passed(e: Direntry, vol: bool) {
    |e| == 32 && e[0] != 0 && !StopsAt(e, vol)
  }

  predicate PassedFrom(table: seq<Direntry>, p: nat, q: nat, vol: bool) {
    q <= |table| && forall i :: p <= i < q ==> Passed(table[i], vol)
  }

  /** The scan state before entry i, given that the name is recorded from first to at. */
  predicate Scanning(table: seq<Direntry>, first: nat, at: nat, name: seq<word>,
                     i: nat, ord: byte, sum: byte, lfnIdx: word, buf: seq<word>)
    requires at < |table| && |table[at]| == 32
  {
    && i <= at
    && (i > first ==>
          if |name| <= LONGEST
          then lfnIdx as int == first && ord as int == at - i && sum == SumOf(table[at][..11])
               && HoldsFrom(buf, name, 13 * (at - i))
          else ord == 0xFF)
  }

  /** The name is recorded ahead, and nothing stops the scan for files before it. */
  ghost predicate Ahead(table: seq<Direntry>, p: nat, first: nat, at: nat, name: seq<word>) {
    p <= first && Recorded(table, first, at, name) && PassedFrom(table, p, first, false)
  }

  lemma PartIsPassed(e: Direntry, name: seq<word>, k: nat, sum: byte)
    requires 1 <= k <= 20 && IsPart(e, name, k, sum)
    ensures Passed(e, false) && e[0] != 0xE5 && e[0] != 0x2E && e[11] == 0x0F && e[13] == sum
    ensures IsLast(e) <==> 13 * k >= |name|
    ensures e[0] as int == if IsLast(e) then k + LLEF else k
  {
  }

  /** One LFN entry of the scan: a last-part entry starts a sequence, and the entry is picked up if it continues the
      sequence; otherwise the sequence is dropped. */
  ghost predicate Captured(e: Direntry, ord: byte, sum: byte, index: word, lfnIdx: word, was: seq<word>,
                     ord': byte, sum': byte, lfnIdx': word, buf: seq<word>)
    requires |e| == 32
  {
    var c: int := if IsLast(e) then e[0] - LLEF else e[0];
    && sum' == (if IsLast(e) then e[LDIR_CHKSUM] else sum)
    && lfnIdx' == (if IsLast(e) then index else lfnIdx)
    && (if c == (if IsLast(e) then c else ord) && sum' == e[LDIR_CHKSUM] && Pickable(e) then
          && c > 0 && ord' as int == c - 1
          && PartStart(e) + Length(e, 0) < |buf| == |was|
          && exists b :: Copied(b, was, e, PartStart(e), Length(e, 0))
                         && buf == if IsLast(e) then b[PartStart(e) + Length(e, 0) := 0] else b
        else ord' == 0xFF)
  }

  /** Capture an LFN entry, if it continues the sequence. */
  method Capture(e: Direntry, lfnbuf: array<word>, ord: byte, sum: byte, index: word, lfnIdx: word)
    returns (ord': byte, sum': byte, lfnIdx': word)
    requires |e| == 32 && lfnbuf.Length == MAX_LFN + 1
    modifies lfnbuf
    ensures Captured(e, ord, sum, index, lfnIdx, old(lfnbuf[..]), ord', sum', lfnIdx', lfnbuf[..])
  {
    hide Pickable, Copied, PartStart, Length;
    var c := e[0];
    ord', sum', lfnIdx' := ord, sum, lfnIdx;
    if IsLast(e) {
      sum' := e[LDIR_CHKSUM];
      c := c - LLEF;
      ord' := c;
      lfnIdx' := index;
    }
    if c == ord' && sum' == e[LDIR_CHKSUM] {
      var ok := PickLfn(lfnbuf, e);
      NoPartZero(e);
      ord' := if ok then c - 1 else 0xFF;
    } else {
      ord' := 0xFF;
    }
  }

  /** An entry of order 0 is never picked up. */
  lemma NoPartZero(e: Direntry)
    requires |e| == 32
    ensures Pickable(e) ==> e[0] % 0x40 != 0
  {
  }

  lemma FirstPart(table: seq<Direntry>, p: nat, first: nat, at: nat, name: seq<word>, i: nat)
    requires Ahead(table, p, first, at, name) && first <= i < at
    ensures 1 <= at - i <= Parts(name) <= 20
    ensures |table[at]| == 32 && IsPart(table[i], name, at - i, SumOf(table[at][..11]))
    ensures at - i == Parts(name) <==> i == first
  {
    hide IsPart, SumOf;
    assert PartAt(table, at, at - i, name, SumOf(table[at][..11]));
  }

  /** The scan of one part of the name. */
  lemma ScanPart(table: seq<Direntry>, p: nat, first: nat, at: nat, name: seq<word>, i: nat,
                 ord: byte, sum: byte, lfnIdx: word, was: seq<word>,
                 ord': byte, sum': byte, lfnIdx': word, buf: seq<word>)
    requires Ahead(table, p, first, at, name) && first <= i < at <= 0xFFFF && |was| == MAX_LFN + 1
    requires |table[at]| == 32 && |table[i]| == 32
    requires Scanning(table, first, at, name, i, ord, sum, lfnIdx, was)
    requires Captured(table[i], ord, sum, i, lfnIdx, was, ord', sum', lfnIdx', buf)
    ensures Scanning(table, first, at, name, i + 1, ord', sum', lfnIdx', buf)
  {
    hide IsPart, SumOf, PartStart, Length, IsLast, Pickable, Copied, PassedFrom, PartsAbove, IsShort, HoldsFrom;
    var e, k, cs := table[i], at - i, SumOf(table[at][..11]);
    FirstPart(table, p, first, at, name, i);
    PartIsPassed(e, name, k, cs);
    PartPickable(e, name, k, cs);
    if |name| <= LONGEST {
      var b :| Copied(b, was, e, PartStart(e), Length(e, 0))
               && buf == if IsLast(e) then b[PartStart(e) + Length(e, 0) := 0] else b;
      PartPicked(e, name, k, cs, was, b);
    }
  }

  datatype Step = GoOn | Found | NoMore

  /** One round of dir_read: the entry ends the table, is of the kind wanted, or is passed over, its part of a long
      name captured. */
  method ScanEntry(e: Direntry, vol: bool, index: word, lfnbuf: array<word>, ord: byte, sum: byte, lfnIdx: word,
                   ghost table: seq<Direntry>, ghost p: nat, ghost first: nat, ghost at: nat, ghost name: seq<word>)
    returns (step: Step, ord': byte, sum': byte, lfnIdx': word)
    requires Sized(table) && index as nat < |table| <= 0x1_0000 && e == table[index]
    requires p <= index as nat && PassedFrom(table, p, index as nat, vol) && lfnbuf.Length == MAX_LFN + 1
    requires !vol && Ahead(table, p, first, at, name) ==>
      at < |table| && |table[at]| == 32 && Scanning(table, first, at, name, index as nat, ord, sum, lfnIdx, lfnbuf[..])
    modifies lfnbuf
    ensures match step
            case NoMore => e[0] == 0
            case Found => StopsAt(e, vol)
            case GoOn => PassedFrom(table, p, index as nat + 1, vol)
    ensures !vol && Ahead(table, p, first, at, name) ==> at < |table| && |table[at]| == 32 && step != NoMore
    ensures !vol && Ahead(table, p, first, at, name) && step == GoOn ==>
      Scanning(table, first, at, name, index as nat + 1, ord', sum', lfnIdx', lfnbuf[..])
    ensures !vol && Ahead(table, p, first, at, name) && step == Found ==>
      && index as nat == at
      && (|name| <= 253 ==> lfnIdx' as int == first && Holds(lfnbuf[..], name))
      && (|name| > 253 ==> lfnIdx' == 0xFFFF)
  {
    hide Captured, Recorded, PassedFrom, SumOf, Scanning, HoldsFrom;
    step, ord', sum', lfnIdx' := GoOn, ord, sum, lfnIdx;
    ghost var k, was := index as nat, lfnbuf[..];
    var c := e[0];
    if !vol && Ahead(table, p, first, at, name) {
      RecordedAt(table, first, at, name);
      WhereNow(table, p, first, at, name, k, ord, sum, lfnIdx, was);
    }
    if c == 0 { step := NoMore; return; }
    var a := e[LDIR_ATTR] % 0x40;
    if c == DDEM || c == DOT_NAME || (a % 0x20 == AM_VOL) != vol {
      ord' := 0xFF;
    } else if a == AM_LFN {
      ord', sum', lfnIdx' := Capture(e, lfnbuf, ord, sum, index, lfnIdx);
    } else {
      step := Found;
      var check := SumSfn(e);
      if !vol && Ahead(table, p, first, at, name) { ScanEnds(table, p, first, at, name, k, ord, sum, lfnIdx, was); }
      if ord != 0 || sum != check { lfnIdx' := NO_LFN; }
      return;
    }
    PassOne(table, p, k, vol);
    if !vol && Ahead(table, p, first, at, name) {
      if k < first {
        ScanBefore(table, first, at, name, k, ord', sum', lfnIdx', lfnbuf[..]);
      } else {
        ScanPart(table, p, first, at, name, k, ord, sum, lfnIdx, was, ord', sum', lfnIdx', lfnbuf[..]);
      }
    }
  }

  lemma NothingPassed(table: seq<Direntry>, p: nat, vol: bool)
    requires p <= |table|
    ensures PassedFrom(table, p, p, vol)
  {
  }

  lemma PassOne(table: seq<Direntry>, p: nat, q: nat, vol: bool)
    requires p <= q < |table| && PassedFrom(table, p, q, vol) && Passed(table[q], vol)
    ensures PassedFrom(table, p, q + 1, vol)
  {
  }

  lemma RecordedAt(table: seq<Direntry>, first: nat, at: nat, name: seq<word>)
    requires Recorded(table, first, at, name)
    ensures first < at < |table| && |table[at]| == 32
  {
  }

  lemma ScanStarts(table: seq<Direntry>, first: nat, at: nat, name: seq<word>, p: nat, buf: seq<word>)
    requires p <= first <= at < |table| && |table[at]| == 32
    ensures forall ord, sum, l :: Scanning(table, first, at, name, p, ord, sum, l, buf)
  {
  }

  lemma AheadStarts(table: seq<Direntry>, p: nat, first: nat, at: nat, name: seq<word>,
                    ord: byte, sum: byte, lfnIdx: word, buf: seq<word>)
    requires Ahead(table, p, first, at, name)
    ensures at < |table| && |table[at]| == 32 && Scanning(table, first, at, name, p, ord, sum, lfnIdx, buf)
  {
    hide Recorded, PassedFrom;
    RecordedAt(table, first, at, name);
    ScanStarts(table, first, at, name, p, buf);
  }

  lemma ScanBefore(table: seq<Direntry>, first: nat, at: nat, name: seq<word>, i: nat,
                   ord: byte, sum: byte, lfnIdx: word, buf: seq<word>)
    requires i < first <= at < |table| && |table[at]| == 32
    ensures Scanning(table, first, at, name, i + 1, ord, sum, lfnIdx, buf)
  {
  }

  lemma NotPast(table: seq<Direntry>, first: nat, at: nat, name: seq<word>, i: nat,
                ord: byte, sum: byte, lfnIdx: word, buf: seq<word>)
    requires at < |table| && |table[at]| == 32 && Scanning(table, first, at, name, i, ord, sum, lfnIdx, buf)
    ensures i <= at
  {
  }

  /** The entry under the scan: passed over before the short entry of the name, and that entry itself stops it. */
  lemma WhereNow(table: seq<Direntry>, p: nat, first: nat, at: nat, name: seq<word>, i: nat,
                 ord: byte, sum: byte, lfnIdx: word, buf: seq<word>)
    requires Ahead(table, p, first, at, name) && p <= i < |table| && at < |table| && |table[at]| == 32
    requires Scanning(table, first, at, name, i, ord, sum, lfnIdx, buf)
    ensures i <= at && (i < at ==> Passed(table[i], false)) && (i == at ==> IsShort(table[i])) && table[i] != []
      && table[i][0] != 0
    ensures first <= i < at ==> table[i][0] != 0xE5 && table[i][0] != 0x2E && table[i][11] == 0x0F
  {
    if first <= i < at {
      FirstPart(table, p, first, at, name, i);
      PartIsPassed(table[i], name, at - i, SumOf(table[at][..11]));
    }
  }

  /** At the short entry the sequence is complete exactly if the name was not too long. */
  lemma ScanEnds(table: seq<Direntry>, p: nat, first: nat, at: nat, name: seq<word>, i: nat,
                 ord: byte, sum: byte, lfnIdx: word, buf: seq<word>)
    requires Ahead(table, p, first, at, name) && at < |table| && |table[at]| == 32
    requires Scanning(table, first, at, name, i, ord, sum, lfnIdx, buf) && i < |table| && IsShort(table[i])
    requires i < at ==> Passed(table[i], false)
    ensures i == at
    ensures |name| <= LONGEST ==>
      ord == 0 && sum == SumOf(table[at][..11]) && lfnIdx as int == first && Holds(buf, name)
    ensures |name| > LONGEST ==> ord != 0
  {
    HoldsAll(buf, name);
    RecordedAt(table, first, at, name);
  }

  /** The limit is met: a name of 254 characters can be registered but is not read back. */
  lemma TooLong() returns (name: seq<word>)
    ensures IsName(name) && |name| == 254
    ensures forall e, sum :: IsPart(e, name, Parts(name), sum) ==> !Pickable(e)
  {
    name := seq(254, _ => 0x61);
    forall e, sum | IsPart(e, name, Parts(name), sum) ensures !Pickable(e) {
      PartPickable(e, name, Parts(name), sum);
    }
  }
}
