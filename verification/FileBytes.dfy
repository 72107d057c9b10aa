/** What a write does to the bytes of a file. */
module FileBytes {
  import opened Bytes
  import opened Units
  import opened Disk
  import opened FileData

  ghost predicate Sized(v: seq<Sector>, ss: int) {
    forall k :: 0 <= k < |v| ==> |v[k]| == ss
  }

  /** The n bytes from p on come from b at ofs; of the others, those below keep are as they were. */
  ghost predicate StepWritten(v: seq<Sector>, v': seq<Sector>, ss: int, p: int, n: int, b: seq<byte>, ofs: int,
    keep: int)
    requires SectorSize(ss) && Sized(v, ss) && Sized(v', ss)
  {
    && |v| <= |v'| && 0 <= p && 0 <= n && p + n <= SMul(|v'|, ss)
    && 0 <= ofs && ofs + n <= |b| && keep <= SMul(|v|, ss)
    && (forall i :: p <= i < p + n ==> At(v', ss, i) == b[ofs + (i - p)])
    && (forall i :: 0 <= i < keep && !(p <= i < p + n) ==>
          i < SMul(|v|, ss) <= SMul(|v'|, ss) && At(v', ss, i) == At(v, ss, i))
  }

  lemma LengthOrder(v: seq<Sector>, v': seq<Sector>, ss: int)
    requires SectorSize(ss) && |v| <= |v'|
    ensures SMul(|v|, ss) <= SMul(|v'|, ss)
  {
  }

  /** A write of n bytes inside the sector of byte p. */
  lemma PartialWritten(v: seq<Sector>, ss: int, p: int, n: int, b: seq<byte>, ofs: int, keep: int, s': Sector)
    requires SectorSize(ss) && Sized(v, ss) && |s'| == ss && 0 <= p && 0 < n
    requires 0 <= SDiv(p, ss) < |v| && 0 <= SMod(p, ss) && SMod(p, ss) + n <= ss
    requires 0 <= ofs && ofs + n <= |b| && keep <= SMul(|v|, ss)
    requires forall j :: SMod(p, ss) <= j < SMod(p, ss) + n ==> s'[j] == b[ofs + (j - SMod(p, ss))]
    requires forall j :: 0 <= j < ss && !(SMod(p, ss) <= j < SMod(p, ss) + n) ==>
      s'[j] == v[SDiv(p, ss)][j] || (SMod(p, ss) == 0 && j >= n && keep <= p)
    ensures Sized(v[SDiv(p, ss) := s'], ss)
    ensures StepWritten(v, v[SDiv(p, ss) := s'], ss, p, n, b, ofs, keep)
  {
    hide At, SMul, SDiv, SMod;
    var k, off, w := SDiv(p, ss), SMod(p, ss), v[SDiv(p, ss) := s'];
    SectorSplit(p, ss);
    AtInSector(v, ss, k, off + n - 1);
    forall i | p <= i < p + n ensures At(w, ss, i) == b[ofs + (i - p)] {
      AtInSector(w, ss, k, off + (i - p));
    }
    forall i | 0 <= i < keep && !(p <= i < p + n) ensures At(w, ss, i) == At(v, ss, i) {
      ByteIn(v, ss, i);
      ByteIn(w, ss, i);
      RunHit(i, k, ss);
    }
  }

  lemma ByteIn(v: seq<Sector>, ss: int, i: int)
    requires SectorSize(ss) && Sized(v, ss) && 0 <= i < SMul(|v|, ss)
    ensures 0 <= SDiv(i, ss) < |v| && 0 <= SMod(i, ss) < ss && At(v, ss, i) == v[SDiv(i, ss)][SMod(i, ss)]
    ensures i == SMul(SDiv(i, ss), ss) + SMod(i, ss)
  {
    SectorSplit(i, ss);
  }

  /** The same, for a sector made of the old one b0 (or, past keep, of anything) with n bytes copied in. */
  lemma CopiedIn(v: seq<Sector>, ss: int, p: int, n: int, b: seq<byte>, ofs: int, keep: int, b0: Sector, s': Sector)
    requires SectorSize(ss) && Sized(v, ss) && |b0| == ss && 0 <= p && 0 < n
    requires 0 <= SDiv(p, ss) < |v| && 0 <= SMod(p, ss) && SMod(p, ss) + n <= ss
    requires 0 <= ofs && ofs + n <= |b| && keep <= SMul(|v|, ss)
    requires s' == b0[..SMod(p, ss)] + b[ofs..ofs + n] + b0[SMod(p, ss) + n..]
    requires b0 == v[SDiv(p, ss)] || (SMod(p, ss) == 0 && keep <= p)
    ensures |s'| == ss && Sized(v[SDiv(p, ss) := s'], ss)
    ensures StepWritten(v, v[SDiv(p, ss) := s'], ss, p, n, b, ofs, keep)
  {
    hide SMul, SDiv, SMod, StepWritten;
    PartialWritten(v, ss, p, n, b, ofs, keep, s');
  }

  /** s is sector q of the cc sectors that b holds from ofs on. */
  ghost predicate SectorFrom(s: Sector, b: seq<byte>, ofs: int, ss: int, cc: int, q: int)
    requires SectorSize(ss)
  {
    && 0 <= ofs && 0 <= SMul(q, ss) && SMul(q, ss) + ss <= SMul(cc, ss) && ofs + SMul(cc, ss) <= |b|
    && s == b[ofs + SMul(q, ss)..ofs + SMul(q, ss) + ss]
  }

  /** w is v with the cc sectors from k on taken from b at ofs. */
  ghost predicate FromRun(v: seq<Sector>, w: seq<Sector>, ss: int, k: int, cc: int, b: seq<byte>, ofs: int)
    requires SectorSize(ss)
  {
    && |w| == |v| && 0 <= k && 0 < cc && k + cc <= |v| && 0 <= ofs && ofs + SMul(cc, ss) <= |b|
    && (forall m :: 0 <= m < |v| && !(k <= m < k + cc) ==> w[m] == v[m])
    && (forall m :: k <= m < k + cc ==> SectorFrom(w[m], b, ofs, ss, cc, m - k))
  }

  lemma RunByteNew(v: seq<Sector>, w: seq<Sector>, ss: int, k: int, cc: int, b: seq<byte>, ofs: int, i: int)
    requires SectorSize(ss) && Sized(w, ss) && FromRun(v, w, ss, k, cc, b, ofs)
    requires SMul(k, ss) <= i < SMul(k, ss) + SMul(cc, ss)
    ensures 0 <= i < SMul(|w|, ss) && 0 <= ofs && ofs + (i - SMul(k, ss)) < |b|
    ensures At(w, ss, i) == b[ofs + (i - SMul(k, ss))]
  {
    hide At, SMul, SDiv, SMod;
    var n := i - SMul(k, ss);
    RunEnds(k, cc, |w|, ss);
    RunByte(n, cc, ss);
    AtSector(w, ss, k, n);
    var m := k + SDiv(n, ss);
    assert SectorFrom(w[m], b, ofs, ss, cc, m - k);
  }

  lemma RunByteOld(v: seq<Sector>, w: seq<Sector>, ss: int, k: int, cc: int, b: seq<byte>, ofs: int, i: int)
    requires SectorSize(ss) && Sized(v, ss) && Sized(w, ss) && FromRun(v, w, ss, k, cc, b, ofs)
    requires 0 <= i < SMul(|v|, ss) && !(SMul(k, ss) <= i < SMul(k, ss) + SMul(cc, ss))
    ensures At(w, ss, i) == At(v, ss, i)
  {
    hide At, SMul, SDiv, SMod;
    ByteIn(v, ss, i);
    ByteIn(w, ss, i);
    OutsideRun(i, k, cc, ss);
  }

  /** A write of cc whole sectors from sector k on. */
  lemma RunWrittenBytes(v: seq<Sector>, w: seq<Sector>, ss: int, k: int, cc: int, b: seq<byte>, ofs: int, keep: int)
    requires SectorSize(ss) && Sized(v, ss) && Sized(w, ss) && FromRun(v, w, ss, k, cc, b, ofs)
    requires keep <= SMul(|v|, ss)
    ensures StepWritten(v, w, ss, SMul(k, ss), SMul(cc, ss), b, ofs, keep)
  {
    var p, n := SMul(k, ss), SMul(cc, ss);
    RunEnds(k, cc, |v|, ss);
    assert |w| == |v| && 0 <= ofs && ofs + n <= |b|;
    hide At, SMul, SDiv, SMod, FromRun;
    forall i | p <= i < p + n ensures At(w, ss, i) == b[ofs + (i - p)] {
      RunByteNew(v, w, ss, k, cc, b, ofs, i);
    }
    forall i | 0 <= i < keep && !(p <= i < p + n) ensures At(w, ss, i) == At(v, ss, i) {
      RunByteOld(v, w, ss, k, cc, b, ofs, i);
    }
  }

  lemma OutsideRun(i: int, k: int, cc: int, ss: int)
    requires SectorSize(ss) && 0 <= i && 0 <= k && 0 <= cc
    ensures SMul(k, ss) <= i < SMul(k, ss) + SMul(cc, ss) <==> k <= SDiv(i, ss) < k + cc
  {
  }

  /** A step on a file that first grew at the end is a step on the file. */
  lemma GrownThenWritten(v: seq<Sector>, u: seq<Sector>, w: seq<Sector>, ss: int, p: int, n: int,
                         b: seq<byte>, ofs: int, keep: int)
    requires SectorSize(ss) && Sized(v, ss) && Sized(u, ss) && Sized(w, ss)
    requires |v| <= |u| && u[..|v|] == v && keep <= SMul(|v|, ss)
    requires StepWritten(u, w, ss, p, n, b, ofs, keep)
    ensures StepWritten(v, w, ss, p, n, b, ofs, keep)
  {
    hide At, SMul;
    LengthOrder(v, u, ss);
    LengthOrder(u, w, ss);
    forall i | 0 <= i < keep && !(p <= i < p + n) ensures At(w, ss, i) == At(v, ss, i) {
      ByteIn(v, ss, i);
      ByteIn(u, ss, i);
      assert u[..|v|][SDiv(i, ss)] == u[SDiv(i, ss)];
    }
  }

  /** The write so far: done bytes of b from p on, and everything else below size as in v0. */
  ghost predicate TotalWritten(v0: seq<Sector>, v: seq<Sector>, ss: int, p: int, done: int, b: seq<byte>, size: int)
    requires SectorSize(ss) && Sized(v0, ss) && Sized(v, ss)
  {
    && 0 <= p && p <= size
    && StepWritten(v0, v, ss, p, done, b, 0, size)
  }

  lemma WrittenNothing(v: seq<Sector>, ss: int, p: int, b: seq<byte>, size: int)
    requires SectorSize(ss) && Sized(v, ss) && 0 <= p <= size <= SMul(|v|, ss)
    ensures TotalWritten(v, v, ss, p, 0, b, size)
  {
    hide At;
  }

  lemma WrittenMore(v0: seq<Sector>, v: seq<Sector>, w: seq<Sector>, ss: int, p: int, done: int, n: int,
                    b: seq<byte>, size: int)
    requires SectorSize(ss) && Sized(v0, ss) && Sized(v, ss) && Sized(w, ss)
    requires TotalWritten(v0, v, ss, p, done, b, size)
    requires StepWritten(v, w, ss, p + done, n, b, done, if size >= p + done then size else p + done)
    ensures TotalWritten(v0, w, ss, p, done + n, b, size)
  {
    hide At, SMul;
    LengthOrder(v0, v, ss);
    LengthOrder(v, w, ss);
    forall i | p <= i < p + done + n ensures At(w, ss, i) == b[0 + (i - p)] {
      if i < p + done {
        assert At(w, ss, i) == At(v, ss, i);
      } else {
        assert At(w, ss, i) == b[done + (i - (p + done))];
      }
    }
  }

  /** data put over the bytes from pos on. */
  function Overwritten(bytes: seq<byte>, pos: nat, data: seq<byte>): seq<byte>
    requires pos <= |bytes|
  {
    bytes[..pos] + data + bytes[if pos + |data| <= |bytes| then pos + |data| else |bytes|..]
  }

  /** The contents after a write of done bytes: the written bytes at p, everything else below size kept. */
  lemma WrittenContent(v0: seq<Sector>, v: seq<Sector>, ss: int, p: int, done: int, b: seq<byte>, size: nat, size': nat)
    requires SectorSize(ss) && Sized(v0, ss) && Sized(v, ss)
    requires TotalWritten(v0, v, ss, p, done, b, size)
    requires size' == (if size >= p + done then size else p + done)
    ensures 0 <= p <= size <= SMul(|v0|, ss) && size' <= SMul(|v|, ss) && 0 <= done <= |b|
    ensures Content(v, ss, size') == Overwritten(Content(v0, ss, size), p, b[..done])
  {
    hide At, SMul;
    LengthOrder(v0, v, ss);
    var c0, c := Content(v0, ss, size), Content(v, ss, size');
    var e := Overwritten(c0, p, b[..done]);
    forall i | 0 <= i < size' ensures c[i] == e[i] {
      if p <= i < p + done {
        assert At(v, ss, i) == b[0 + (i - p)];
      } else {
        assert At(v, ss, i) == At(v0, ss, i);
      }
    }
  }
}
