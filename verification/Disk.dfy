/** The physical drive: an abstract array of sectors behind disk_read and disk_write. */
module Disk {
  import opened Bytes
  import opened Units

  type Sector = seq<byte>
  type Medium = seq<Sector>

  /** Sector k of a byte string. */
  function Piece(ss: nat, data: seq<byte>, k: nat): (r: Sector)
    requires SectorSize(ss) && SMul(k + 1, ss) <= |data|
    ensures |r| == ss
  {
    data[SMul(k, ss)..SMul(k + 1, ss)]
  }

  /** The medium after cc consecutive sectors have been replaced from a byte string. */
  function PutRun(d: Medium, ss: nat, sector: nat, data: seq<byte>, cc: nat): (r: Medium)
    requires SectorSize(ss) && sector + cc <= |d| && SMul(cc, ss) <= |data|
    ensures |r| == |d|
    ensures forall s :: 0 <= s < |d| ==>
      r[s] == if sector <= s < sector + cc then Piece(ss, data, s - sector) else d[s]
  {
    seq(|d|, s requires 0 <= s < |d| =>
      if sector <= s < sector + cc then Piece(ss, data, s - sector) else d[s])
  }

  class Drive {
    const ss: nat
    /** No access to an existing sector ever fails. */
    const reliable: bool
    var sectors: Medium
    /** Every state the medium has gone through: the initial one, then one per completed write. */
    ghost var history: seq<Medium>

    ghost predicate Valid()
      reads this
    {
      && SectorSize(ss) && |sectors| <= 0xFFFF_FFFF
      && (forall s :: 0 <= s < |sectors| ==> |sectors[s]| == ss)
      && |history| > 0 && history[|history| - 1] == sectors
    }

    constructor (ss: nat, medium: Medium, reliable: bool)
      requires SectorSize(ss) && |medium| <= 0xFFFF_FFFF
      requires forall s :: 0 <= s < |medium| ==> |medium[s]| == ss
      ensures Valid() && sectors == medium && history == [medium]
      ensures this.ss == ss && this.reliable == reliable
    {
      this.ss := ss;
      this.reliable := reliable;
      sectors := medium;
      history := [medium];
    }

    /** disk_read of one sector; the buffer is undefined after a failure. */
    method ReadSector(dst: array<byte>, sector: dword) returns (ok: bool)
      requires Valid() && dst.Length == ss
      modifies dst
      ensures ok ==> sector < |sectors| && dst[..] == sectors[sector]
      ensures reliable && sector < |sectors| ==> ok
    {
      var up: bool := *;
      ok := sector < |sectors| && (reliable || up);
      if ok {
        var data := sectors[sector];
        forall i | 0 <= i < ss { dst[i] := data[i]; }
      } else {
        var junk: byte := *;
        forall i | 0 <= i < ss { dst[i] := junk; }
      }
    }

    /** disk_write of one sector; a failed write leaves the medium as it was. */
    method WriteSector(src: array<byte>, sector: dword) returns (ok: bool)
      requires Valid() && src.Length == ss
      modifies this
      ensures Valid()
      ensures ok ==> sector < |old(sectors)| && sectors == old(sectors)[sector := src[..]]
      ensures ok ==> history == old(history) + [sectors]
      ensures !ok ==> sectors == old(sectors) && history == old(history)
      ensures reliable && sector < |old(sectors)| ==> ok
    {
      var up: bool := *;
      ok := sector < |sectors| && (reliable || up);
      if ok {
        sectors := sectors[sector := src[..]];
        history := history + [sectors];
      }
    }

    /** disk_read of cc sectors into the caller's buffer at ofs. */
    method ReadSectors(dst: array<byte>, ofs: nat, sector: dword, cc: nat) returns (ok: bool)
      requires Valid() && ofs + SMul(cc, ss) <= dst.Length
      modifies dst
      ensures ok ==> sector + cc <= |sectors|
      ensures ok ==> forall i :: ofs <= i < ofs + SMul(cc, ss) ==>
        dst[i] == sectors[sector + SDiv(i - ofs, ss)][SMod(i - ofs, ss)]
      ensures forall i :: 0 <= i < dst.Length && !(ofs <= i < ofs + SMul(cc, ss)) ==> dst[i] == old(dst[i])
      ensures reliable && sector + cc <= |sectors| ==> ok
    {
      var up: bool := *;
      ok := sector + cc <= |sectors| && (reliable || up);
      if ok {
        forall i | ofs <= i < ofs + SMul(cc, ss) {
          dst[i] := sectors[sector + SDiv(i - ofs, ss)][SMod(i - ofs, ss)];
        }
      }
    }

    /** disk_write of cc sectors from the caller's buffer at ofs. */
    method WriteSectors(src: array<byte>, ofs: nat, sector: dword, cc: nat) returns (ok: bool)
      requires Valid() && ofs + SMul(cc, ss) <= src.Length
      modifies this
      ensures Valid()
      ensures ok ==> sector + cc <= |old(sectors)|
                     && sectors == PutRun(old(sectors), ss, sector, src[ofs..ofs + SMul(cc, ss)], cc)
      ensures ok ==> history == old(history) + [sectors]
      ensures !ok ==> sectors == old(sectors) && history == old(history)
      ensures reliable && sector + cc <= |old(sectors)| ==> ok
    {
      var up: bool := *;
      ok := sector + cc <= |sectors| && (reliable || up);
      if ok {
        sectors := PutRun(sectors, ss, sector, src[ofs..ofs + SMul(cc, ss)], cc);
        history := history + [sectors];
      }
    }
  }
}
