/** Sector ranges of a raw artifact. */
module Sectors {
  import opened Machine

  const SECTOR: nat := 512

  function LbaToOffset(lba: u64): Option<usize> {
    CheckedMul(lba, SECTOR)
  }

  /** `lba_range`: the bytes of sectors `start..end`, when they lie inside the artifact. */
  function LbaRange(bytes: Slice, start: u64, end: u64): (r: Option<seq<u8>>)
    ensures r.Some? <==> start <= end && end * SECTOR <= |bytes|
    ensures r.Some? ==> r.value == bytes[start * SECTOR..end * SECTOR]
  {
    if start > end then None
    else
      var first :- LbaToOffset(start);
      var last :- LbaToOffset(end);
      if last <= |bytes| then Some(bytes[first..last]) else None
  }

  function SectorAt(bytes: Slice, lba: u64): (r: Option<seq<u8>>)
    ensures r.Some? <==> (lba + 1) * SECTOR <= |bytes|
    ensures r.Some? ==> r.value == bytes[lba * SECTOR..(lba + 1) * SECTOR] && |r.value| == SECTOR
  {
    var next :- CheckedAdd(lba, 1);
    LbaRange(bytes, lba, next)
  }

  predicate AllZero(s: seq<u8>) {
    forall i | 0 <= i < |s| :: s[i] == 0
  }
}
