/** The FAT32 layout checks and the canonical table scan. */
module FatTable {
  import opened Machine
  import opened Sectors
  import BitMask
  import LE = LittleEndian

  datatype FatFault =
    | ClusterUnderflow | TableTooShort | BadReserved | NotPrefix | BadSuccessor(cluster: nat)
    | BadSentinel | NoFreeCluster | BadHint | BadField(offset: nat) | NotZero | MirrorsDiffer
    | DataOutside | OutsideArtifact

  /** `value & 0x0fff_ffff` */
  function Low28(value: u32): nat { value % 0x1000_0000 }

  /** The remainders used here are the masks of the scan. */
  lemma MaskedReads(value: u32)
    ensures Low28(value) == BitMask.And(value, 0x0fff_ffff)
    ensures value % 0x100 == BitMask.And(value, 0xff)
  {
    BitMask.Pow2Double(7, 0x80);
    BitMask.Pow2Double(14, 0x4000);
    BitMask.LowMask(value, 28);
    BitMask.RemainderIsModulo(value, 0x1000_0000);
    BitMask.LowMask(value, 8);
    BitMask.RemainderIsModulo(value, 0x100);
  }

  const END_OF_CHAIN: nat := 0x0fff_fff8

  /** The 28-bit entry of a cluster. */
  function Entry(fat: seq<u8>, cluster: nat): nat
    requires 4 * cluster + 4 <= |fat| < 0x8000_0000_0000_0000
  {
    Low28(LE.ReadU32(fat, 4 * cluster).value)
  }

  predicate ValidSuccessor(value: nat, entryCount: nat) {
    2 <= value < entryCount || value >= END_OF_CHAIN
  }

  predicate ReservedEntries(fat: seq<u8>) {
    && LE.ReadU32(fat, 0).Some? && LE.ReadU32(fat, 0).value % 0x100 == 0xf8
    && LE.ReadU32(fat, 4).Some? && Low28(LE.ReadU32(fat, 4).value) >= END_OF_CHAIN
  }

  /** Whole four-byte chunks after the last cluster hold the end-of-chain sentinel. */
  predicate Sentinels(fat: seq<u8>, entryCount: nat)
    requires 4 * entryCount <= |fat|
  {
    forall j | entryCount <= j <= |fat| && 4 * j + 4 <= |fat| :: IsSentinel(fat, j)
  }

  predicate IsSentinel(fat: seq<u8>, j: nat)
    requires 4 * j + 4 <= |fat|
  {
    fat[4 * j..4 * j + 4] == [0xff, 0xff, 0xff, 0x0f]
  }

  // ---------------------------------------------------------------------------------
  // The same table, byte by byte.
  // ---------------------------------------------------------------------------------

  /** The low 28 bits of a cluster's four bytes. */
  function EntryValue(fat: seq<u8>, cluster: nat): int
    requires 4 * cluster + 4 <= |fat|
  {
    fat[4 * cluster] as int + 256 * fat[4 * cluster + 1] as int + 65536 * fat[4 * cluster + 2] as int
    + 16777216 * (fat[4 * cluster + 3] as int % 16)
  }

  /** The media entry ends in 0xf8, and the second entry is an end of chain. */
  predicate ReservedBytes(fat: seq<u8>) {
    |fat| >= 8 && fat[0] == 0xf8 && fat[4] >= 0xf8 && fat[5] == 0xff && fat[6] == 0xff && fat[7] % 16 == 15
  }

  predicate SentinelBytes(fat: seq<u8>, entryCount: nat)
    requires 4 * entryCount <= |fat|
  {
    forall j | entryCount <= j <= |fat| && 4 * j + 4 <= |fat| :: EndsChain(fat, j)
  }

  predicate EndsChain(fat: seq<u8>, j: nat)
    requires 4 * j + 4 <= |fat|
  {
    fat[4 * j] == 0xff && fat[4 * j + 1] == 0xff && fat[4 * j + 2] == 0xff && fat[4 * j + 3] == 0x0f
  }

  /** An allocated entry names a cluster of the volume or ends its chain. */
  predicate ChainsOn(value: int, entryCount: nat) {
    2 <= value && (value < entryCount || value >= 0x0fff_fff8)
  }

  /** Clusters `2..k` are allocated with a valid successor and clusters `k..entryCount` are free. */
  predicate AllocatedPrefix(fat: seq<u8>, entryCount: nat, k: nat)
    requires 4 * entryCount <= |fat| < 0x8000_0000_0000_0000
  {
    && (forall c | 2 <= c < k && c < entryCount :: ChainsOn(EntryValue(fat, c), entryCount))
    && (forall c | k <= c < entryCount :: EntryValue(fat, c) == 0)
  }

  lemma EntryBytes(fat: Slice, cluster: nat)
    requires 4 * cluster + 4 <= |fat|
    ensures LE.ReadU32(fat, 4 * cluster).Some? && Entry(fat, cluster) == EntryValue(fat, cluster)
  {
    var b := fat[4 * cluster..4 * cluster + 4];
    LE.FourBytes(b);
    hide LE.Value;
    assert b[0] == fat[4 * cluster] && b[1] == fat[4 * cluster + 1] && b[2] == fat[4 * cluster + 2]
        && b[3] == fat[4 * cluster + 3];
    HighNibble(b[3], b[0] as int + 256 * b[1] as int + 65536 * b[2] as int);
  }

  lemma HighNibble(top: u8, low: int)
    requires 0 <= low < 16777216
    ensures (low + 16777216 * top as int) % 0x1000_0000 == low + 16777216 * (top as int % 16)
  {
    var q := top / 16;
    assert low + 16777216 * top as int == 0x1000_0000 * q + (low + 16777216 * (top as int % 16));
  }

  lemma ReservedExactly(fat: Slice)
    ensures ReservedEntries(fat) <==> ReservedBytes(fat)
  {
    if |fat| >= 8 {
      EntryBytes(fat, 0);
      EntryBytes(fat, 1);
      var b := fat[0..4];
      LE.FourBytes(b);
      hide LE.Value, LE.Read;
      LowByte(b[0], b[1] as int + 256 * b[2] as int + 65536 * b[3] as int);
      FirstWord(fat);
      EndOfChainBytes(fat[4], fat[5], fat[6], fat[7]);
    }
  }

  lemma FirstWord(fat: Slice)
    requires |fat| >= 8
    ensures LE.ReadU32(fat, 0) == Some(LE.Value(fat[0..4]))
  {
  }

  lemma LowByte(low: u8, high: int)
    ensures (low as int + 256 * high) % 0x100 == low
  {
  }

  lemma EndOfChainBytes(a: u8, b: u8, c: u8, d: u8)
    ensures a as int + 256 * b as int + 65536 * c as int + 16777216 * (d as int % 16) >= 0x0fff_fff8
       <==> a >= 0xf8 && b == 0xff && c == 0xff && d % 16 == 15
  {
  }

  lemma SentinelsExactly(fat: seq<u8>, entryCount: nat)
    requires 4 * entryCount <= |fat|
    ensures Sentinels(fat, entryCount) <==> SentinelBytes(fat, entryCount)
  {
    forall j: nat | 4 * j + 4 <= |fat|
      ensures IsSentinel(fat, j) <==> EndsChain(fat, j)
    {
      var b := fat[4 * j..4 * j + 4];
      assert b[0] == fat[4 * j] && b[1] == fat[4 * j + 1] && b[2] == fat[4 * j + 2] && b[3] == fat[4 * j + 3];
    }
  }

  /** The tables that the image builder can produce, with first free cluster `k`. */
  predicate CanonicalFat(fat: Slice, totalSectors: u32, dataLba: u64, fsInfo: Slice, k: nat) {
    && dataLba <= totalSectors
    && var entryCount := totalSectors - dataLba + 2;
       && 4 * entryCount <= |fat|
       && ReservedBytes(fat)
       && 2 <= k < entryCount
       && AllocatedPrefix(fat, entryCount, k)
       && SentinelBytes(fat, entryCount)
       && LE.ReadU32(fsInfo, 492) == Some(k)
  }

  /**
    `validate_canonical_fat_entries`: the scan accepts exactly the canonical tables, and
    then `first` is their boundary.
  */
  method ValidateCanonicalFatEntries(fat: Slice, totalSectors: u32, dataLba: u64, fsInfo: Slice)
    returns (r: Result<(), FatFault>, ghost first: nat)
    ensures r.Ok? ==> CanonicalFat(fat, totalSectors, dataLba, fsInfo, first)
    ensures r.Err? ==> forall k: nat :: !CanonicalFat(fat, totalSectors, dataLba, fsInfo, k)
  {
    hide LE.ReadU32, Low28, Entry, EntryValue, ReservedEntries, ReservedBytes, Sentinels, SentinelBytes;
    first := 0;
    if dataLba > totalSectors {
      return Err(ClusterUnderflow), 0;
    }
    var entryCount := totalSectors - dataLba + 2;
    var tableBytes := CheckedMul(entryCount, 4);
    if tableBytes.None? || tableBytes.value > |fat| {
      return Err(TableTooShort), 0;
    }
    ReservedExactly(fat);
    SentinelsExactly(fat, entryCount);
    if !ReservedEntries(fat) {
      return Err(BadReserved), 0;
    }
    var firstFree: Option<nat> := None;
    var cluster := 2;
    while cluster < entryCount
      invariant 2 <= cluster <= entryCount
      invariant firstFree.None? ==>
                  forall c | 2 <= c < cluster :: ChainsOn(EntryValue(fat, c), entryCount)
      invariant firstFree.Some? ==>
                  && 2 <= firstFree.value < cluster
                  && (forall c | 2 <= c < firstFree.value :: ChainsOn(EntryValue(fat, c), entryCount))
                  && (forall c | firstFree.value <= c < cluster :: EntryValue(fat, c) == 0)
    {
      EntryBytes(fat, cluster);
      var value := Entry(fat, cluster);
      if value == 0 {
        if firstFree.None? {
          firstFree := Some(cluster);
        }
      } else {
        if firstFree.Some? {
          assert EntryValue(fat, firstFree.value) == 0;
          return Err(NotPrefix), 0;
        }
        if !ValidSuccessor(value, entryCount) {
          return Err(BadSuccessor(cluster)), 0;
        }
      }
      cluster := cluster + 1;
    }
    if !Sentinels(fat, entryCount) {
      return Err(BadSentinel), 0;
    }
    if firstFree.None? {
      forall k | 2 <= k < entryCount
        ensures !AllocatedPrefix(fat, entryCount, k)
      {
        NoBoundary(fat, entryCount, k);
      }
      return Err(NoFreeCluster), 0;
    }
    if LE.ReadU32(fsInfo, 492) != Some(firstFree.value) {
      forall k | 2 <= k < entryCount && AllocatedPrefix(fat, entryCount, k)
        ensures k == firstFree.value
      {
        BoundaryUnique(fat, entryCount, k, firstFree.value);
      }
      return Err(BadHint), 0;
    }
    return Ok(()), firstFree.value;
  }

  /** A table has at most one boundary between allocated and free clusters. */
  lemma BoundaryUnique(fat: Slice, entryCount: nat, j: nat, k: nat)
    requires 4 * entryCount <= |fat| && 2 <= j < entryCount && 2 <= k < entryCount
    requires AllocatedPrefix(fat, entryCount, j) && AllocatedPrefix(fat, entryCount, k)
    ensures j == k
  {
    var atJ, atK := EntryValue(fat, j), EntryValue(fat, k);
  }

  lemma NoBoundary(fat: Slice, entryCount: nat, k: nat)
    requires 4 * entryCount <= |fat| && 2 <= k < entryCount
    requires forall c | 2 <= c < entryCount :: EntryValue(fat, c) != 0
    ensures !AllocatedPrefix(fat, entryCount, k)
  {
    var atK := EntryValue(fat, k);
  }

  // ---------------------------------------------------------------------------------
  // The volume around the table.
  // ---------------------------------------------------------------------------------

  const FIRST_FAT_LBA: u64 := 8

  /** `MSWIN4.1` */
  const OEM_IDENTITY: seq<u8> := [0x4d, 0x53, 0x57, 0x49, 0x4e, 0x34, 0x2e, 0x31]

  /** The fixed fields of the boot sector. */
  predicate BootSectorFields(boot: seq<u8>, sectors: u32)
    requires |boot| == SECTOR
  {
    && boot[3..11] == OEM_IDENTITY
    && LE.ReadU16(boot, 11) == Some(512)
    && boot[13] == 1
    && LE.ReadU16(boot, 14) == Some(8)
    && boot[16] == 2
    && LE.ReadU16(boot, 17) == Some(0)
    && LE.ReadU16(boot, 19) == Some(0)
    && boot[21] == 0xf8
    && LE.ReadU16(boot, 22) == Some(0)
    && LE.ReadU32(boot, 32) == Some(sectors)
    && LE.ReadU32(boot, 36).Some? && LE.ReadU32(boot, 36).value > 0
    && LE.ReadU16(boot, 40) == Some(0)
    && LE.ReadU16(boot, 42) == Some(0)
    && LE.ReadU32(boot, 44) == Some(2)
    && LE.ReadU16(boot, 48) == Some(1)
    && LE.ReadU16(boot, 50) == Some(6)
    && boot[510..] == [0x55, 0xaa]
  }

  predicate FsInfoFields(fsInfo: seq<u8>)
    requires |fsInfo| == SECTOR
  {
    && LE.ReadU32(fsInfo, 0) == Some(0x4161_5252)
    && LE.ReadU32(fsInfo, 484) == Some(0x6141_7272)
    && LE.ReadU32(fsInfo, 488) == Some(0xffff_ffff)
    && fsInfo[508..512] == [0x00, 0x00, 0x55, 0xaa]
  }

  /** The boot sector, byte by byte: what FAT32 fixes for this volume and where the FAT size stands. */
  predicate BootSectorBytes(boot: seq<u8>, sectors: u32)
    requires |boot| == SECTOR
  {
    && boot[3..11] == [0x4d, 0x53, 0x57, 0x49, 0x4e, 0x34, 0x2e, 0x31]
    && boot[11..13] == [0, 2] && boot[13] == 1 && boot[14..16] == [8, 0] && boot[16] == 2
    && boot[17..19] == [0, 0] && boot[19..21] == [0, 0] && boot[21] == 0xf8 && boot[22..24] == [0, 0]
    && boot[32..36] == LE.Bytes(sectors, 4) && boot[36..40] != [0, 0, 0, 0]
    && boot[40..42] == [0, 0] && boot[42..44] == [0, 0] && boot[44..48] == [2, 0, 0, 0]
    && boot[48..50] == [1, 0] && boot[50..52] == [6, 0] && boot[510] == 0x55 && boot[511] == 0xaa
  }

  lemma BootSectorExactly(boot: seq<u8>, sectors: u32)
    requires |boot| == SECTOR
    ensures BootSectorFields(boot, sectors) <==> BootSectorBytes(boot, sectors)
  {
    hide LE.Bytes, LE.Read, LE.ReadU16, LE.ReadU32, LE.Pow256;
    LE.Widths();
    BootReads(boot);
    LE.SmallFields(0);
    LE.SmallFields(1);
    LE.SmallFields(2);
    LE.SmallFields(6);
    LE.SmallFields(8);
    SectorSize();
    LE.FieldIs(boot, 11, 2, 512);
    LE.FieldIs(boot, 14, 2, 8);
    LE.FieldIs(boot, 17, 2, 0);
    LE.FieldIs(boot, 19, 2, 0);
    LE.FieldIs(boot, 22, 2, 0);
    LE.FieldIs(boot, 32, 4, sectors);
    LE.FieldIs(boot, 36, 4, 0);
    LE.FieldIs(boot, 40, 2, 0);
    LE.FieldIs(boot, 42, 2, 0);
    LE.FieldIs(boot, 44, 4, 2);
    LE.FieldIs(boot, 48, 2, 1);
    LE.FieldIs(boot, 50, 2, 6);
    LastTwo(boot);
  }

  lemma LastTwo(boot: seq<u8>)
    requires |boot| == SECTOR
    ensures boot[510..] == [0x55, 0xaa] <==> boot[510] == 0x55 && boot[511] == 0xaa
  {
    var end := boot[510..];
    assert end[0] == boot[510] && end[1] == boot[511];
  }

  lemma SectorSize()
    ensures LE.Bytes(512, 2) == [0, 2]
  {
    assert LE.Bytes(2, 1) == [2];
  }

  lemma BootReads(boot: seq<u8>)
    requires |boot| == SECTOR
    ensures forall at: nat | at + 2 <= SECTOR :: LE.ReadU16(boot, at) == LE.Read(boot, at, 2)
    ensures forall at: nat | at + 4 <= SECTOR ::
              LE.ReadU32(boot, at) == LE.Read(boot, at, 4) && LE.ReadU32(boot, at).Some?
  {
  }

  /** `RRaA`, `rrAa`, an unknown free count and the trailing signature. */
  predicate FsInfoBytes(fsInfo: seq<u8>)
    requires |fsInfo| == SECTOR
  {
    && fsInfo[0..4] == [0x52, 0x52, 0x61, 0x41] && fsInfo[484..488] == [0x72, 0x72, 0x41, 0x61]
    && fsInfo[488..492] == [0xff, 0xff, 0xff, 0xff] && fsInfo[508..512] == [0, 0, 0x55, 0xaa]
  }

  lemma FsInfoExactly(fsInfo: seq<u8>)
    requires |fsInfo| == SECTOR
    ensures FsInfoFields(fsInfo) <==> FsInfoBytes(fsInfo)
  {
    hide LE.Bytes, LE.Read, LE.ReadU32, LE.Pow256;
    LE.Widths();
    BootReads(fsInfo);
    Signatures();
    LE.FieldIs(fsInfo, 0, 4, 0x4161_5252);
    LE.FieldIs(fsInfo, 484, 4, 0x6141_7272);
    LE.FieldIs(fsInfo, 488, 4, 0xffff_ffff);
  }

  lemma Signatures()
    ensures LE.Bytes(0x4161_5252, 4) == [0x52, 0x52, 0x61, 0x41]
    ensures LE.Bytes(0x6141_7272, 4) == [0x72, 0x72, 0x41, 0x61]
    ensures LE.Bytes(0xffff_ffff, 4) == [0xff, 0xff, 0xff, 0xff]
  {
    assert LE.Bytes(0x4161, 2) == [0x61, 0x41] && LE.Bytes(0x6141, 2) == [0x41, 0x61];
    assert LE.Bytes(0xffff, 2) == [0xff, 0xff];
    assert LE.Bytes(0x41_6152, 3) == [0x52] + LE.Bytes(0x4161, 2);
    assert LE.Bytes(0x61_4172, 3) == [0x72] + LE.Bytes(0x6141, 2);
    assert LE.Bytes(0xff_ffff, 3) == [0xff] + LE.Bytes(0xffff, 2);
  }

  /** Reserved sectors, two FATs of `f` sectors and the data clusters, one after another inside the volume. */
  predicate Geometry(partition: Slice, f: nat) {
    var sectors := |partition| / SECTOR;
    var dataLba := 8 + 2 * f;
    && 0 < f && dataLba < sectors < U32_LIMIT
    && partition[8 * SECTOR..(8 + f) * SECTOR]
       == partition[(8 + f) * SECTOR..dataLba * SECTOR]
  }

  function FirstFat(partition: Slice, f: nat): Slice
    requires (8 + f) * SECTOR <= |partition|
  {
    partition[8 * SECTOR..(8 + f) * SECTOR]
  }

  /** The eight reserved sectors: boot sector, its backup and FSInfo, the rest zero. */
  predicate ReservedArea(partition: Slice) {
    && 8 * SECTOR <= |partition| && |partition| / SECTOR < U32_LIMIT
    && BootSectorBytes(partition[0..SECTOR], |partition| / SECTOR)
    && partition[0..SECTOR] == partition[6 * SECTOR..7 * SECTOR]
    && AllZero(partition[2 * SECTOR..6 * SECTOR]) && AllZero(partition[7 * SECTOR..8 * SECTOR])
    && FsInfoBytes(partition[SECTOR..2 * SECTOR])
  }

  /** The volumes that the image builder can produce, with FATs of `f` sectors and first free cluster `first`. */
  predicate CanonicalVolume(partition: Slice, f: nat, first: nat) {
    && ReservedArea(partition)
    && LE.ReadU32(partition[0..SECTOR], 36) == Some(f)
    && Geometry(partition, f)
    && CanonicalFat(FirstFat(partition, f), |partition| / SECTOR, 8 + 2 * f,
                    partition[SECTOR..2 * SECTOR], first)
  }

  /** The first half of `validate_raw_fat32_layout`. */
  method ValidateReservedSectors(partition: Slice) returns (r: Result<(), FatFault>)
    ensures r.Ok? <==> ReservedArea(partition)
  {
    hide AllZero, LE.Read, LE.ReadU16, LE.ReadU32, BootSectorFields, FsInfoFields, BootSectorBytes, FsInfoBytes;
    var boot := SectorAt(partition, 0);
    if boot.None? {
      return Err(OutsideArtifact);
    }
    var sectors := |partition| / SECTOR;
    if sectors >= U32_LIMIT {
      return Err(BadField(32));
    }
    BootSectorExactly(boot.value, sectors);
    if !BootSectorFields(boot.value, sectors) {
      return Err(BadField(0));
    }
    var backup := SectorAt(partition, 6);
    if backup.None? || boot.value != backup.value {
      return Err(BadField(6 * SECTOR));
    }
    var unused := LbaRange(partition, 2, 6);
    if unused.None? || !AllZero(unused.value) {
      return Err(NotZero);
    }
    var adjacent := SectorAt(partition, 7);
    if adjacent.None? || !AllZero(adjacent.value) {
      return Err(NotZero);
    }
    var fsInfo := SectorAt(partition, 1);
    if fsInfo.Some? {
      FsInfoExactly(fsInfo.value);
    }
    if fsInfo.None? || !FsInfoFields(fsInfo.value) {
      return Err(BadField(SECTOR));
    }
    return Ok(());
  }

  lemma ReservedHasFatSectors(partition: Slice)
    requires ReservedArea(partition)
    ensures 8 * SECTOR <= |partition| && |partition| / SECTOR < U32_LIMIT
    ensures var f := LE.ReadU32(partition[0..SECTOR], 36); f.Some? && f.value > 0
  {
    hide BootSectorBytes, FsInfoBytes;
    BootSectorExactly(partition[0..SECTOR], |partition| / SECTOR);
  }

  ghost predicate IsCanonicalVolume(partition: Slice) {
    exists f: nat, first: nat :: CanonicalVolume(partition, f, first)
  }

  /** `validate_raw_fat32_layout`: the slices it cuts are in bounds, and it accepts exactly the canonical volumes. */
  method ValidateRawFat32Layout(partition: Slice) returns (r: Result<(), FatFault>)
    ensures r.Ok? <==> IsCanonicalVolume(partition)
  {
    hide CanonicalFat, ReservedArea, LE.ReadU32;
    r := ValidateReservedSectors(partition);
    if r.Err? {
      return;
    }
    ReservedHasFatSectors(partition);
    var sectors := |partition| / SECTOR;
    var fatSectors := LE.ReadU32(partition[0..SECTOR], 36).value;
    var secondFatLba: u64 := FIRST_FAT_LBA + fatSectors;
    var dataLba: u64 := secondFatLba + fatSectors;
    if dataLba >= sectors {
      return Err(DataOutside);
    }
    var firstFat := LbaRange(partition, FIRST_FAT_LBA, secondFatLba);
    var secondFat := LbaRange(partition, secondFatLba, dataLba);
    assert firstFat.Some? && secondFat.Some?;
    if firstFat.value != secondFat.value {
      return Err(MirrorsDiffer);
    }
    ghost var first: nat;
    r, first := ValidateCanonicalFatEntries(firstFat.value, sectors, dataLba, partition[SECTOR..2 * SECTOR]);
    if r.Ok? {
      assert CanonicalVolume(partition, fatSectors, first);
    }
  }

  /**
    In an accepted volume the four regions are disjoint and ordered, every cluster's entry
    lies inside the first FAT, and every cluster's sector lies inside the volume after both FATs.
  */
  lemma ClustersInBounds(partition: Slice, f: nat, first: nat, cluster: nat)
    requires CanonicalVolume(partition, f, first)
    requires 2 <= cluster < |partition| / SECTOR - (8 + 2 * f) + 2
    ensures 8 * SECTOR + 4 * cluster + 4 <= (8 + f) * SECTOR
    ensures var sector := 8 + 2 * f + (cluster - 2);
            (8 + 2 * f) * SECTOR <= sector * SECTOR && (sector + 1) * SECTOR <= |partition|
    ensures cluster < first <==> EntryValue(FirstFat(partition, f), cluster) != 0
  {
    hide LE.ReadU32;
  }
}
