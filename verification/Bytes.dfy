/** Integer widths and the byte-wise access macros of ff.h. */
module Bytes {

  type byte = x: int | 0 <= x < 0x100
  type word = x: int | 0 <= x < 0x1_0000
  type dword = x: int | 0 <= x < 0x1_0000_0000

  /** Unsigned 32-bit arithmetic wraps. */
  function Sub32(a: dword, b: dword): dword {
    if a >= b then a - b else a + 0x1_0000_0000 - b
  }

  function Inc32(a: dword): dword {
    if a == 0xFFFF_FFFF then 0 else a + 1
  }

  function Dec32(a: dword): dword {
    if a == 0 then 0xFFFF_FFFF else a - 1
  }

  lemma WrapsAround(a: dword, b: dword)
    ensures Sub32(a, b) as int == (a - b) % 0x1_0000_0000
    ensures Inc32(a) as int == (a + 1) % 0x1_0000_0000 && Dec32(a) as int == (a - 1) % 0x1_0000_0000
  {
  }

  /** b | 1 */
  function SetBit0(b: byte): (r: byte)
    ensures r % 2 == 1 && r / 2 == b / 2
  {
    if b % 2 == 0 then b + 1 else b
  }

  function LdWord(s: seq<byte>, i: nat): word
    requires i + 1 < |s|
  {
    (s[i + 1] as int) * 0x100 + s[i] as int
  }

  function LdDword(s: seq<byte>, i: nat): dword
    requires i + 3 < |s|
  {
    (s[i + 3] as int) * 0x100_0000 + (s[i + 2] as int) * 0x1_0000 + (s[i + 1] as int) * 0x100 + s[i] as int
  }

  /** The least significant byte comes first. */
  lemma LittleEndian(s: seq<byte>, i: nat)
    requires i + 1 < |s|
    ensures LdWord(s, i) as int == s[i] as int + s[i + 1] as int * 0x100
    ensures i + 3 < |s| ==>
      LdDword(s, i) as int
      == s[i] as int + s[i + 1] as int * 0x100 + s[i + 2] as int * 0x1_0000 + s[i + 3] as int * 0x100_0000
  {
  }

  /** What ST_WORD stores: the two low bytes of v, least significant first. */
  function PutWord(s: seq<byte>, i: nat, v: dword): (r: seq<byte>)
    requires i + 1 < |s|
    ensures |r| == |s|
    ensures LdWord(r, i) == v % 0x1_0000
  {
    TwoBytes(v);
    s[i := v % 0x100][i + 1 := v / 0x100 % 0x100]
  }

  lemma TwoBytes(v: dword)
    ensures v % 0x1_0000 == v / 0x100 % 0x100 * 0x100 + v % 0x100
  {
    var a, b := v as int / 0x100, v as int / 0x1_0000;
    assert a / 0x100 == b;
    assert v as int == 0x1_0000 * b + (a % 0x100 * 0x100 + v as int % 0x100);
  }

  lemma FourBytes(v: dword)
    ensures v == v / 0x100_0000 * 0x100_0000 + v / 0x1_0000 % 0x100 * 0x1_0000 + v / 0x100 % 0x100 * 0x100 + v % 0x100
  {
    var a, b := v / 0x100, v / 0x1_0000;
    assert a / 0x100 == b && b / 0x100 == v / 0x100_0000;
  }

  function PutDword(s: seq<byte>, i: nat, v: dword): (r: seq<byte>)
    requires i + 3 < |s|
    ensures |r| == |s|
    ensures LdDword(r, i) == v
  {
    FourBytes(v);
    s[i := v % 0x100][i + 1 := v / 0x100 % 0x100][i + 2 := v / 0x1_0000 % 0x100][i + 3 := v / 0x100_0000]
  }

  method StWord(a: array<byte>, i: nat, v: dword)
    requires i + 1 < a.Length
    modifies a
    ensures a[..] == PutWord(old(a[..]), i, v)
    ensures a[i] as int + a[i + 1] as int * 0x100 == v % 0x1_0000
    ensures forall j :: 0 <= j < a.Length && j != i && j != i + 1 ==> a[j] == old(a[j])
  {
    a[i] := v % 0x100;
    a[i + 1] := v / 0x100 % 0x100;
  }

  method StDword(a: array<byte>, i: nat, v: dword)
    requires i + 3 < a.Length
    modifies a
    ensures a[..] == PutDword(old(a[..]), i, v)
    ensures a[i] as int + a[i + 1] as int * 0x100 + a[i + 2] as int * 0x1_0000 + a[i + 3] as int * 0x100_0000 == v
    ensures forall j :: 0 <= j < a.Length && !(i <= j < i + 4) ==> a[j] == old(a[j])
  {
    a[i] := v % 0x100;
    a[i + 1] := v / 0x100 % 0x100;
    a[i + 2] := v / 0x1_0000 % 0x100;
    a[i + 3] := v / 0x100_0000;
  }

  /** Two bytes of a buffer hold the low 16 bits of a number. */
  predicate Has16(a: array<byte>, i: nat, v: dword)
    requires i + 1 < a.Length
    reads a
  {
    a[i] == v % 0x100 && a[i + 1] == v / 0x100 % 0x100
  }

  predicate Has32(a: array<byte>, i: nat, v: dword)
    requires i + 3 < a.Length
    reads a
  {
    a[i] == v % 0x100 && a[i + 1] == v / 0x100 % 0x100 && a[i + 2] == v / 0x1_0000 % 0x100 && a[i + 3] == v / 0x100_0000
  }

  method Put16(a: array<byte>, i: nat, v: dword)
    requires i + 1 < a.Length
    modifies a
    ensures Has16(a, i, v)
    ensures forall j :: 0 <= j < a.Length && j != i && j != i + 1 ==> a[j] == old(a[j])
  {
    a[i] := v % 0x100;
    a[i + 1] := v / 0x100 % 0x100;
  }

  method Put32(a: array<byte>, i: nat, v: dword)
    requires i + 3 < a.Length
    modifies a
    ensures Has32(a, i, v)
    ensures forall j :: 0 <= j < a.Length && !(i <= j < i + 4) ==> a[j] == old(a[j])
  {
    a[i] := v % 0x100;
    a[i + 1] := v / 0x100 % 0x100;
    a[i + 2] := v / 0x1_0000 % 0x100;
    a[i + 3] := v / 0x100_0000;
  }

  method Put8(a: array<byte>, i: nat, v: byte)
    requires i < a.Length
    modifies a
    ensures a[i] == v && forall j :: 0 <= j < a.Length && j != i ==> a[j] == old(a[j])
  {
    a[i] := v;
  }

  lemma Load16(a: array<byte>, i: nat, v: word)
    requires i + 1 < a.Length && Has16(a, i, v)
    ensures LdWord(a[..], i) == v
  {
  }

  lemma Load32(a: array<byte>, i: nat, v: dword)
    requires i + 3 < a.Length && Has32(a, i, v)
    ensures LdDword(a[..], i) == v
  {
    FourBytes(v);
  }

  /** Copy cnt bytes between distinct buffers. */
  method MemCpy(dst: array<byte>, d: nat, src: array<byte>, s: nat, cnt: nat)
    requires dst != src
    requires d + cnt <= dst.Length && s + cnt <= src.Length
    modifies dst
    ensures dst[..] == old(dst[..d]) + src[s..s + cnt] + old(dst[d + cnt..])
  {
    var k := 0;
    while k < cnt
      invariant 0 <= k <= cnt
      invariant forall j :: 0 <= j < dst.Length ==>
        dst[j] == if d <= j < d + k then src[s + (j - d)] else old(dst[j])
    {
      dst[d + k] := src[s + k];
      k := k + 1;
    }
  }

  method MemSet(dst: array<byte>, val: byte, cnt: nat)
    requires cnt <= dst.Length
    modifies dst
    ensures forall j :: 0 <= j < dst.Length ==> dst[j] == if j < cnt then val else old(dst[j])
  {
    var k := 0;
    while k < cnt
      invariant 0 <= k <= cnt
      invariant forall j :: 0 <= j < dst.Length ==> dst[j] == if j < k then val else old(dst[j])
    {
      dst[k] := val;
      k := k + 1;
    }
  }
}
