/** Multiplication and division by a sector size (512 to 4096) or a cluster size (1 to 128).

    Both come from a short list of powers of two.  Spelling the list out keeps every product,
    quotient and remainder in the project linear; ByUnitIsPlain says that nothing else is meant. */
module Units {

  predicate SectorSize(ss: int) {
    ss == 512 || ss == 1024 || ss == 2048 || ss == 4096
  }

  predicate ClusterSize(cs: int) {
    cs == 1 || cs == 2 || cs == 4 || cs == 8 || cs == 16 || cs == 32 || cs == 64 || cs == 128
  }

  lemma SupportedUnits(n: int)
    ensures SectorSize(n) <==> n in {512, 1024, 2048, 4096}
    ensures ClusterSize(n) <==> n in {1, 2, 4, 8, 16, 32, 64, 128}
  {
  }

  /** n * ss */
  function SMul(n: int, ss: int): int
    requires SectorSize(ss)
  {
    if ss == 512 then n * 512 else if ss == 1024 then n * 1024 else if ss == 2048 then n * 2048 else n * 4096
  }

  /** n / ss */
  function SDiv(n: int, ss: int): int
    requires SectorSize(ss)
  {
    if ss == 512 then n / 512 else if ss == 1024 then n / 1024 else if ss == 2048 then n / 2048 else n / 4096
  }

  /** n % ss */
  function SMod(n: int, ss: int): int
    requires SectorSize(ss)
  {
    if ss == 512 then n % 512 else if ss == 1024 then n % 1024 else if ss == 2048 then n % 2048 else n % 4096
  }

  /** n / (ss / 2), FAT16 entries into sectors */
  function HDiv(n: int, ss: int): int
    requires SectorSize(ss)
  {
    if ss == 512 then n / 256 else if ss == 1024 then n / 512 else if ss == 2048 then n / 1024 else n / 2048
  }

  /** n / (ss / 4), FAT32 entries into sectors */
  function QDiv(n: int, ss: int): int
    requires SectorSize(ss)
  {
    if ss == 512 then n / 128 else if ss == 1024 then n / 256 else if ss == 2048 then n / 512 else n / 1024
  }

  /** n / (ss / 32), entries of a directory into sectors */
  function EDiv(n: int, ss: int): int
    requires SectorSize(ss)
  {
    if ss == 512 then n / 16 else if ss == 1024 then n / 32 else if ss == 2048 then n / 64 else n / 128
  }

  /** n % (ss / 32) */
  function EMod(n: int, ss: int): int
    requires SectorSize(ss)
  {
    if ss == 512 then n % 16 else if ss == 1024 then n % 32 else if ss == 2048 then n % 64 else n % 128
  }

  /** n * cs */
  function CMul(n: int, cs: int): int
    requires ClusterSize(cs)
  {
    if cs == 1 then n else if cs == 2 then n * 2 else if cs == 4 then n * 4 else if cs == 8 then n * 8
    else if cs == 16 then n * 16 else if cs == 32 then n * 32 else if cs == 64 then n * 64 else n * 128
  }

  /** n / cs */
  function CDiv(n: int, cs: int): int
    requires ClusterSize(cs)
  {
    if cs == 1 then n else if cs == 2 then n / 2 else if cs == 4 then n / 4 else if cs == 8 then n / 8
    else if cs == 16 then n / 16 else if cs == 32 then n / 32 else if cs == 64 then n / 64 else n / 128
  }

  /** n % cs, in the source n & (cs - 1) */
  function CMod(n: int, cs: int): int
    requires ClusterSize(cs)
  {
    if cs == 1 then 0 else if cs == 2 then n % 2 else if cs == 4 then n % 4 else if cs == 8 then n % 8
    else if cs == 16 then n % 16 else if cs == 32 then n % 32 else if cs == 64 then n % 64 else n % 128
  }

  lemma ByUnitIsPlain(n: int, ss: int, cs: int)
    requires SectorSize(ss) && ClusterSize(cs)
    ensures SMul(n, ss) == n * ss && SDiv(n, ss) == n / ss && SMod(n, ss) == n % ss
    ensures HDiv(n, ss) == n / (ss / 2) && QDiv(n, ss) == n / (ss / 4)
    ensures EDiv(n, ss) == n / (ss / 32) && EMod(n, ss) == n % (ss / 32)
    ensures CMul(n, cs) == n * cs && CDiv(n, cs) == n / cs && CMod(n, cs) == n % cs
  {
  }

  lemma SectorSplit(n: int, ss: int)
    requires SectorSize(ss)
    ensures n == SMul(SDiv(n, ss), ss) + SMod(n, ss) && 0 <= SMod(n, ss) < ss
  {
  }

  lemma SectorSplitUnique(n: int, ss: int, q: int, r: int)
    requires SectorSize(ss) && 0 <= r < ss && n == SMul(q, ss) + r
    ensures SDiv(n, ss) == q && SMod(n, ss) == r
  {
  }

  /** An aligned item of two or four bytes lies within one sector. */
  lemma ItemInSector(c: nat, ss: int)
    requires SectorSize(ss)
    ensures HDiv(c, ss) == SDiv(2 * c, ss) == SDiv(2 * c + 1, ss) && SMod(2 * c + 1, ss) == SMod(2 * c, ss) + 1
    ensures QDiv(c, ss) == SDiv(4 * c, ss)
    ensures SDiv(4 * c + 1, ss) == SDiv(4 * c, ss) && SMod(4 * c + 1, ss) == SMod(4 * c, ss) + 1
    ensures SDiv(4 * c + 2, ss) == SDiv(4 * c, ss) && SMod(4 * c + 2, ss) == SMod(4 * c, ss) + 2
    ensures SDiv(4 * c + 3, ss) == SDiv(4 * c, ss) && SMod(4 * c + 3, ss) == SMod(4 * c, ss) + 3
  {
  }

  lemma ClusterSplit(n: int, cs: int)
    requires ClusterSize(cs)
    ensures n == CMul(CDiv(n, cs), cs) + CMod(n, cs) && 0 <= CMod(n, cs) < cs
  {
  }

  lemma ClusterSplitUnique(n: int, cs: int, q: int, r: int)
    requires ClusterSize(cs) && 0 <= r < cs && n == CMul(q, cs) + r
    ensures CDiv(n, cs) == q && CMod(n, cs) == r
  {
  }

  /** Byte n of cc sectors lies in sector SDiv(n, ss), at SMod(n, ss). */
  lemma RunByte(n: int, cc: int, ss: int)
    requires SectorSize(ss) && 0 <= n < SMul(cc, ss)
    ensures 0 <= SDiv(n, ss) < cc && 0 <= SMod(n, ss) < ss && n == SMul(SDiv(n, ss), ss) + SMod(n, ss)
  {
  }

  lemma RunHit(n: int, q: int, ss: int)
    requires SectorSize(ss) && 0 <= n
    ensures SMul(q, ss) <= n < SMul(q, ss) + ss <==> SDiv(n, ss) == q
    ensures SDiv(n, ss) == q ==> n - SMul(q, ss) == SMod(n, ss)
  {
  }

  lemma RunFits(q: int, cc: int, ss: int)
    requires SectorSize(ss) && 0 <= q < cc
    ensures 0 <= SMul(q, ss) && SMul(q, ss) + ss <= SMul(cc, ss)
  {
  }

  lemma RunEnds(k: int, cc: int, n: int, ss: int)
    requires SectorSize(ss) && 0 <= k && 0 <= cc && k + cc <= n
    ensures 0 <= SMul(k, ss) && 0 <= SMul(cc, ss) && SMul(k + cc, ss) == SMul(k, ss) + SMul(cc, ss) <= SMul(n, ss)
  {
  }

  // ---------- order ----------

  lemma MulOrder(a: int, b: int, ss: int)
    requires SectorSize(ss)
    ensures SMul(a, ss) < SMul(b, ss) <==> a < b
  {
  }

  lemma CMulOrder(a: int, b: int, cs: int)
    requires ClusterSize(cs)
    ensures CMul(a, cs) < CMul(b, cs) <==> a < b
  {
  }
}
