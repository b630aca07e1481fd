/** The byte form of the contract: encoder, prevalidation and decoder. */
module ContractCodec {
  import opened Machine
  import opened BootContract
  import LE = LittleEndian

  // ---------------------------------------------------------------------------------
  // The layout, as concatenated little-endian fields and as fixed offsets.
  // ---------------------------------------------------------------------------------

  function HeaderBytes(h: BootHeader): (r: seq<u8>)
    ensures |r| == 32
  {
    h.magic + LE.Bytes(h.abiMajor, 2) + LE.Bytes(h.abiMinor, 2) + LE.Bytes(h.headerSize, 4)
    + LE.Bytes(h.totalSize, 4) + LE.Bytes(h.memoryRegionSize, 4)
    + LE.Bytes(h.memoryRegionCount, 4) + LE.Bytes(h.flags, 4)
  }

  function PlatformBytes(p: PlatformInfo): (r: seq<u8>)
    ensures |r| == 32
  {
    LE.Bytes(p.firmware, 4) + LE.Bytes(p.architecture, 4) + LE.Bytes(p.flags, 8)
    + LE.Bytes(p.rsdpAddress, 8) + LE.Bytes(p.rsdpLength, 4) + LE.Bytes(p.bootCpuId, 4)
  }

  function ScenarioBytes(s: ScenarioInfo): (r: seq<u8>)
    ensures |r| == 16
  {
    LE.Bytes(s.kind, 4) + LE.Bytes(s.flags, 4) + LE.Bytes(s.argument, 8)
  }

  function RegionBytes(m: MemoryRegion): (r: seq<u8>)
    ensures |r| == 32
  {
    LE.Bytes(m.start, 8) + LE.Bytes(m.length, 8) + LE.Bytes(m.kind, 4)
    + LE.Bytes(m.sourceKind, 4) + LE.Bytes(m.attributes, 8)
  }

  function RegionsBytes(regions: seq<MemoryRegion>): (r: seq<u8>)
    ensures |r| == 32 * |regions|
  {
    if regions == [] then []
    else RegionsBytes(regions[..|regions| - 1]) + RegionBytes(regions[|regions| - 1])
  }

  function InfoBytes(info: BootInfo): (r: seq<u8>)
    ensures |r| == BOOT_INFO_SIZE
  {
    HeaderBytes(info.header) + PlatformBytes(info.platform) + ScenarioBytes(info.scenario)
    + RegionsBytes(info.memoryRegions)
  }

  function U16At(bytes: seq<u8>, i: nat): u16
    requires i + 2 <= |bytes|
  {
    LE.Widths();
    LE.ValueBound(bytes[i..i + 2]);
    LE.Value(bytes[i..i + 2])
  }

  function U32At(bytes: seq<u8>, i: nat): u32
    requires i + 4 <= |bytes|
  {
    LE.Widths();
    LE.ValueBound(bytes[i..i + 4]);
    LE.Value(bytes[i..i + 4])
  }

  function U64At(bytes: seq<u8>, i: nat): u64
    requires i + 8 <= |bytes|
  {
    LE.Widths();
    LE.ValueBound(bytes[i..i + 8]);
    LE.Value(bytes[i..i + 8])
  }

  function HeaderAt(b: seq<u8>, i: nat): BootHeader
    requires i + 32 <= |b|
  {
    BootHeader(b[i..i + 8], U16At(b, i + 8), U16At(b, i + 10), U32At(b, i + 12), U32At(b, i + 16),
               U32At(b, i + 20), U32At(b, i + 24), U32At(b, i + 28))
  }

  function PlatformAt(b: seq<u8>, i: nat): PlatformInfo
    requires i + 32 <= |b|
  {
    PlatformInfo(U32At(b, i), U32At(b, i + 4), U64At(b, i + 8), U64At(b, i + 16), U32At(b, i + 24), U32At(b, i + 28))
  }

  function ScenarioAt(b: seq<u8>, i: nat): ScenarioInfo
    requires i + 16 <= |b|
  {
    ScenarioInfo(U32At(b, i), U32At(b, i + 4), U64At(b, i + 8))
  }

  function RegionAt(b: seq<u8>, i: nat): MemoryRegion
    requires i + 32 <= |b|
  {
    MemoryRegion(U64At(b, i), U64At(b, i + 8), U32At(b, i + 16), U32At(b, i + 20), U64At(b, i + 24))
  }

  function RegionsAt(b: seq<u8>, i: nat, n: nat): (r: seq<MemoryRegion>)
    requires i + 32 * n <= |b|
    ensures |r| == n
  {
    if n == 0 then [] else RegionsAt(b, i, n - 1) + [RegionAt(b, i + 32 * (n - 1))]
  }

  function InfoAt(b: seq<u8>): BootInfo
    requires |b| == BOOT_INFO_SIZE
  {
    BootInfo(HeaderAt(b, 0), PlatformAt(b, 32), ScenarioAt(b, 64), RegionsAt(b, 80, 128))
  }

  // ---------------------------------------------------------------------------------
  // The two directions of the round trip, record by record.
  // ---------------------------------------------------------------------------------

  lemma FieldRoundTrip(b: seq<u8>, i: nat, s: seq<u8>, at: nat, v: nat, n: nat)
    requires i + |s| <= |b| && b[i..i + |s|] == s
    requires at + n <= |s| && s[at..at + n] == LE.Bytes(v, n)
    requires v < LE.Pow256(n)
    ensures LE.Value(b[i + at..i + at + n]) == v
  {
    var field, copy := b[i + at..i + at + n], s[at..at + n];
    forall k | 0 <= k < n
      ensures field[k] == copy[k]
    {
      assert b[i..i + |s|][at + k] == b[i + at + k];
    }
    assert field == copy;
    LE.ValueOfBytes(v, n);
  }

  lemma HeaderRoundTrip(b: seq<u8>, i: nat, h: BootHeader)
    requires i + 32 <= |b| && b[i..i + 32] == HeaderBytes(h)
    ensures HeaderAt(b, i) == h
  {
    hide LE.Bytes, LE.Value, LE.Pow256;
    LE.Widths();
    var s := HeaderBytes(h);
    var p1 := h.magic;
    var p2 := p1 + LE.Bytes(h.abiMajor, 2);
    var p3 := p2 + LE.Bytes(h.abiMinor, 2);
    var p4 := p3 + LE.Bytes(h.headerSize, 4);
    var p5 := p4 + LE.Bytes(h.totalSize, 4);
    var p6 := p5 + LE.Bytes(h.memoryRegionSize, 4);
    var p7 := p6 + LE.Bytes(h.memoryRegionCount, 4);
    assert s[..32] == p7 + LE.Bytes(h.flags, 4);
    LE.Chop(s, 32, p7, LE.Bytes(h.flags, 4));
    LE.Chop(s, 28, p6, LE.Bytes(h.memoryRegionCount, 4));
    LE.Chop(s, 24, p5, LE.Bytes(h.memoryRegionSize, 4));
    LE.Chop(s, 20, p4, LE.Bytes(h.totalSize, 4));
    LE.Chop(s, 16, p3, LE.Bytes(h.headerSize, 4));
    LE.Chop(s, 12, p2, LE.Bytes(h.abiMinor, 2));
    LE.Chop(s, 10, p1, LE.Bytes(h.abiMajor, 2));
    assert b[i..i + 8] == s[0..8] == h.magic;
    FieldRoundTrip(b, i, s, 8, h.abiMajor, 2);
    FieldRoundTrip(b, i, s, 10, h.abiMinor, 2);
    FieldRoundTrip(b, i, s, 12, h.headerSize, 4);
    FieldRoundTrip(b, i, s, 16, h.totalSize, 4);
    FieldRoundTrip(b, i, s, 20, h.memoryRegionSize, 4);
    FieldRoundTrip(b, i, s, 24, h.memoryRegionCount, 4);
    FieldRoundTrip(b, i, s, 28, h.flags, 4);
  }

  lemma PlatformRoundTrip(b: seq<u8>, i: nat, p: PlatformInfo)
    requires i + 32 <= |b| && b[i..i + 32] == PlatformBytes(p)
    ensures PlatformAt(b, i) == p
  {
    hide LE.Bytes, LE.Value, LE.Pow256;
    LE.Widths();
    var s := PlatformBytes(p);
    var p1 := LE.Bytes(p.firmware, 4);
    var p2 := p1 + LE.Bytes(p.architecture, 4);
    var p3 := p2 + LE.Bytes(p.flags, 8);
    var p4 := p3 + LE.Bytes(p.rsdpAddress, 8);
    var p5 := p4 + LE.Bytes(p.rsdpLength, 4);
    assert s[..32] == p5 + LE.Bytes(p.bootCpuId, 4);
    LE.Chop(s, 32, p5, LE.Bytes(p.bootCpuId, 4));
    LE.Chop(s, 28, p4, LE.Bytes(p.rsdpLength, 4));
    LE.Chop(s, 24, p3, LE.Bytes(p.rsdpAddress, 8));
    LE.Chop(s, 16, p2, LE.Bytes(p.flags, 8));
    LE.Chop(s, 8, p1, LE.Bytes(p.architecture, 4));
    FieldRoundTrip(b, i, s, 0, p.firmware, 4);
    FieldRoundTrip(b, i, s, 4, p.architecture, 4);
    FieldRoundTrip(b, i, s, 8, p.flags, 8);
    FieldRoundTrip(b, i, s, 16, p.rsdpAddress, 8);
    FieldRoundTrip(b, i, s, 24, p.rsdpLength, 4);
    FieldRoundTrip(b, i, s, 28, p.bootCpuId, 4);
  }

  lemma ScenarioRoundTrip(b: seq<u8>, i: nat, c: ScenarioInfo)
    requires i + 16 <= |b| && b[i..i + 16] == ScenarioBytes(c)
    ensures ScenarioAt(b, i) == c
  {
    hide LE.Bytes, LE.Value, LE.Pow256;
    LE.Widths();
    var s := ScenarioBytes(c);
    var p1 := LE.Bytes(c.kind, 4);
    var p2 := p1 + LE.Bytes(c.flags, 4);
    assert s[..16] == p2 + LE.Bytes(c.argument, 8);
    LE.Chop(s, 16, p2, LE.Bytes(c.argument, 8));
    LE.Chop(s, 8, p1, LE.Bytes(c.flags, 4));
    FieldRoundTrip(b, i, s, 0, c.kind, 4);
    FieldRoundTrip(b, i, s, 4, c.flags, 4);
    FieldRoundTrip(b, i, s, 8, c.argument, 8);
  }

  lemma RegionRoundTrip(b: seq<u8>, i: nat, m: MemoryRegion)
    requires i + 32 <= |b| && b[i..i + 32] == RegionBytes(m)
    ensures RegionAt(b, i) == m
  {
    hide LE.Bytes, LE.Value, LE.Pow256;
    LE.Widths();
    var s := RegionBytes(m);
    var p1 := LE.Bytes(m.start, 8);
    var p2 := p1 + LE.Bytes(m.length, 8);
    var p3 := p2 + LE.Bytes(m.kind, 4);
    var p4 := p3 + LE.Bytes(m.sourceKind, 4);
    assert s[..32] == p4 + LE.Bytes(m.attributes, 8);
    LE.Chop(s, 32, p4, LE.Bytes(m.attributes, 8));
    LE.Chop(s, 24, p3, LE.Bytes(m.sourceKind, 4));
    LE.Chop(s, 20, p2, LE.Bytes(m.kind, 4));
    LE.Chop(s, 16, p1, LE.Bytes(m.length, 8));
    FieldRoundTrip(b, i, s, 0, m.start, 8);
    FieldRoundTrip(b, i, s, 8, m.length, 8);
    FieldRoundTrip(b, i, s, 16, m.kind, 4);
    FieldRoundTrip(b, i, s, 20, m.sourceKind, 4);
    FieldRoundTrip(b, i, s, 24, m.attributes, 8);
  }

  lemma {:induction false} RegionsRoundTrip(b: seq<u8>, i: nat, regions: seq<MemoryRegion>)
    requires i + 32 * |regions| <= |b| && b[i..i + 32 * |regions|] == RegionsBytes(regions)
    ensures RegionsAt(b, i, |regions|) == regions
  {
    hide RegionBytes, RegionAt;
    if regions != [] {
      var n := |regions| - 1;
      var whole := RegionsBytes(regions);
      assert whole[..32 * n] == RegionsBytes(regions[..n]);
      assert whole[32 * n..] == RegionBytes(regions[n]);
      assert b[i..i + 32 * n] == b[i..i + 32 * |regions|][..32 * n];
      assert b[i + 32 * n..i + 32 * n + 32] == b[i..i + 32 * |regions|][32 * n..];
      RegionsRoundTrip(b, i, regions[..n]);
      RegionRoundTrip(b, i + 32 * n, regions[n]);
      assert regions == regions[..n] + [regions[n]];
    }
  }

  /** Every contract value is recovered from its encoding. */
  lemma DecodeOfEncode(info: BootInfo)
    ensures InfoAt(InfoBytes(info)) == info
  {
    hide HeaderBytes, PlatformBytes, ScenarioBytes, RegionsBytes, HeaderAt, PlatformAt, ScenarioAt, RegionsAt;
    var b := InfoBytes(info);
    var p1 := HeaderBytes(info.header);
    var p2 := p1 + PlatformBytes(info.platform);
    var p3 := p2 + ScenarioBytes(info.scenario);
    assert b[..4176] == p3 + RegionsBytes(info.memoryRegions);
    LE.Chop(b, 4176, p3, RegionsBytes(info.memoryRegions));
    LE.Chop(b, 80, p2, ScenarioBytes(info.scenario));
    LE.Chop(b, 64, p1, PlatformBytes(info.platform));
    HeaderRoundTrip(b, 0, info.header);
    PlatformRoundTrip(b, 32, info.platform);
    ScenarioRoundTrip(b, 64, info.scenario);
    RegionsRoundTrip(b, 80, info.memoryRegions);
  }

  lemma HeaderReencode(b: seq<u8>, i: nat)
    requires i + 32 <= |b|
    ensures HeaderBytes(HeaderAt(b, i)) == b[i..i + 32]
  {
    hide LE.Bytes, LE.Value;
    LE.BytesOfValue(b[i + 8..i + 10]);
    LE.BytesOfValue(b[i + 10..i + 12]);
    LE.BytesOfValue(b[i + 12..i + 16]);
    LE.BytesOfValue(b[i + 16..i + 20]);
    LE.BytesOfValue(b[i + 20..i + 24]);
    LE.BytesOfValue(b[i + 24..i + 28]);
    LE.BytesOfValue(b[i + 28..i + 32]);
    assert b[i..i + 32] == b[i..i + 8] + b[i + 8..i + 10] + b[i + 10..i + 12] + b[i + 12..i + 16] + b[i + 16..i + 20]
                           + b[i + 20..i + 24] + b[i + 24..i + 28] + b[i + 28..i + 32];
  }

  lemma PlatformReencode(b: seq<u8>, i: nat)
    requires i + 32 <= |b|
    ensures PlatformBytes(PlatformAt(b, i)) == b[i..i + 32]
  {
    hide LE.Bytes, LE.Value;
    LE.BytesOfValue(b[i..i + 4]);
    LE.BytesOfValue(b[i + 4..i + 8]);
    LE.BytesOfValue(b[i + 8..i + 16]);
    LE.BytesOfValue(b[i + 16..i + 24]);
    LE.BytesOfValue(b[i + 24..i + 28]);
    LE.BytesOfValue(b[i + 28..i + 32]);
    assert b[i..i + 32] == b[i..i + 4] + b[i + 4..i + 8] + b[i + 8..i + 16] + b[i + 16..i + 24]
                           + b[i + 24..i + 28] + b[i + 28..i + 32];
  }

  lemma ScenarioReencode(b: seq<u8>, i: nat)
    requires i + 16 <= |b|
    ensures ScenarioBytes(ScenarioAt(b, i)) == b[i..i + 16]
  {
    hide LE.Bytes, LE.Value;
    LE.BytesOfValue(b[i..i + 4]);
    LE.BytesOfValue(b[i + 4..i + 8]);
    LE.BytesOfValue(b[i + 8..i + 16]);
    assert b[i..i + 16] == b[i..i + 4] + b[i + 4..i + 8] + b[i + 8..i + 16];
  }

  lemma RegionReencode(b: seq<u8>, i: nat)
    requires i + 32 <= |b|
    ensures RegionBytes(RegionAt(b, i)) == b[i..i + 32]
  {
    hide LE.Bytes, LE.Value;
    LE.BytesOfValue(b[i..i + 8]);
    LE.BytesOfValue(b[i + 8..i + 16]);
    LE.BytesOfValue(b[i + 16..i + 20]);
    LE.BytesOfValue(b[i + 20..i + 24]);
    LE.BytesOfValue(b[i + 24..i + 32]);
    assert b[i..i + 32] == b[i..i + 8] + b[i + 8..i + 16] + b[i + 16..i + 20] + b[i + 20..i + 24] + b[i + 24..i + 32];
  }

  lemma {:induction false} RegionsReencode(b: seq<u8>, i: nat, n: nat)
    requires i + 32 * n <= |b|
    ensures RegionsBytes(RegionsAt(b, i, n)) == b[i..i + 32 * n]
  {
    hide RegionBytes, RegionAt;
    if n > 0 {
      RegionsReencode(b, i, n - 1);
      RegionReencode(b, i + 32 * (n - 1));
      var regions := RegionsAt(b, i, n);
      assert regions[..n - 1] == RegionsAt(b, i, n - 1);
      assert b[i..i + 32 * n] == b[i..i + 32 * (n - 1)] + b[i + 32 * (n - 1)..i + 32 * n];
    }
  }

  /** Every byte string of the exact length is recovered from its decoding. */
  lemma EncodeOfDecode(b: seq<u8>)
    requires |b| == BOOT_INFO_SIZE
    ensures InfoBytes(InfoAt(b)) == b
  {
    hide HeaderBytes, PlatformBytes, ScenarioBytes, RegionsBytes, HeaderAt, PlatformAt, ScenarioAt, RegionsAt;
    HeaderReencode(b, 0);
    PlatformReencode(b, 32);
    ScenarioReencode(b, 64);
    RegionsReencode(b, 80, 128);
    assert b == b[0..32] + b[32..64] + b[64..80] + b[80..4176];
  }

  // ---------------------------------------------------------------------------------
  // Prevalidation and parsing.
  // ---------------------------------------------------------------------------------

  datatype PrevalidatedHeader = PrevalidatedHeader(
    abiMajor: u16, abiMinor: u16, totalSize: u32, memoryRegionCount: u32)

  function Prevalidate(bytes: Slice): Result<PrevalidatedHeader, ValidationError> {
    if |bytes| < BOOT_HEADER_SIZE then Err(Truncated(|bytes|, BOOT_HEADER_SIZE))
    else
      var h := HeaderAt(bytes, 0);
      var _ :- ValidateHeader(h);
      if |bytes| < h.totalSize then Err(Truncated(|bytes|, h.totalSize))
      else if |bytes| != h.totalSize then Err(LengthMismatch(|bytes|, h.totalSize))
      else Ok(PrevalidatedHeader(h.abiMajor, h.abiMinor, h.totalSize, h.memoryRegionCount))
  }

  function Parse(bytes: Slice): Result<BootInfo, ValidationError> {
    var _ :- Prevalidate(bytes);
    var info := InfoAt(bytes);
    var _ :- Validate(info);
    Ok(info)
  }

  /**
    Both directions: every valid contract parses back from its bytes, and every accepted
    byte string is exactly the encoding of the contract it yields.
  */
  lemma ParseInverse(bytes: Slice, info: BootInfo)
    ensures Parse(bytes) == Ok(info) <==> Validate(info).Ok? && bytes == InfoBytes(info)
  {
    hide HeaderBytes, PlatformBytes, ScenarioBytes, RegionsBytes, HeaderAt, PlatformAt, ScenarioAt, RegionsAt,
         ValidatePlatform, ValidateScenario, ValidateRegions;
    if Parse(bytes) == Ok(info) {
      EncodeOfDecode(bytes);
    }
    if Validate(info).Ok? && bytes == InfoBytes(info) {
      DecodeOfEncode(info);
      assert InfoAt(bytes).header == HeaderAt(bytes, 0);
    }
  }

  // ---------------------------------------------------------------------------------
  // The cursor-based reader and writer.
  // ---------------------------------------------------------------------------------

  class Reader {
    const bytes: Slice
    var position: usize

    constructor (bytes: Slice)
      ensures this.bytes == bytes && position == 0
    {
      this.bytes := bytes;
      position := 0;
    }

    method Array8() returns (v: Magic)
      requires position + 8 <= |bytes|
      modifies this
      ensures v == bytes[old(position)..old(position) + 8] && position == old(position) + 8
    {
      v := bytes[position..position + 8];
      position := position + 8;
    }

    method U16() returns (v: u16)
      requires position + 2 <= |bytes|
      modifies this
      ensures v == U16At(bytes, old(position)) && position == old(position) + 2
    {
      v := U16At(bytes, position);
      position := position + 2;
    }

    method U32() returns (v: u32)
      requires position + 4 <= |bytes|
      modifies this
      ensures v == U32At(bytes, old(position)) && position == old(position) + 4
    {
      v := U32At(bytes, position);
      position := position + 4;
    }

    method U64() returns (v: u64)
      requires position + 8 <= |bytes|
      modifies this
      ensures v == U64At(bytes, old(position)) && position == old(position) + 8
    {
      v := U64At(bytes, position);
      position := position + 8;
    }
  }

  method ReadHeader(reader: Reader) returns (h: BootHeader)
    requires reader.position + 32 <= |reader.bytes|
    modifies reader
    ensures h == HeaderAt(reader.bytes, old(reader.position))
    ensures reader.position == old(reader.position) + 32
  {
    hide U16At, U32At;
    var magic := reader.Array8();
    var abiMajor := reader.U16();
    var abiMinor := reader.U16();
    var headerSize := reader.U32();
    var totalSize := reader.U32();
    var memoryRegionSize := reader.U32();
    var memoryRegionCount := reader.U32();
    var flags := reader.U32();
    h := BootHeader(magic, abiMajor, abiMinor, headerSize, totalSize, memoryRegionSize, memoryRegionCount, flags);
  }

  method ReadPlatform(reader: Reader) returns (p: PlatformInfo)
    requires reader.position + 32 <= |reader.bytes|
    modifies reader
    ensures p == PlatformAt(reader.bytes, old(reader.position))
    ensures reader.position == old(reader.position) + 32
  {
    hide U32At, U64At;
    var firmware := reader.U32();
    var architecture := reader.U32();
    var flags := reader.U64();
    var rsdpAddress := reader.U64();
    var rsdpLength := reader.U32();
    var bootCpuId := reader.U32();
    p := PlatformInfo(firmware, architecture, flags, rsdpAddress, rsdpLength, bootCpuId);
  }

  method ReadScenario(reader: Reader) returns (c: ScenarioInfo)
    requires reader.position + 16 <= |reader.bytes|
    modifies reader
    ensures c == ScenarioAt(reader.bytes, old(reader.position))
    ensures reader.position == old(reader.position) + 16
  {
    hide U32At, U64At;
    var kind := reader.U32();
    var flags := reader.U32();
    var argument := reader.U64();
    c := ScenarioInfo(kind, flags, argument);
  }

  method ReadRegion(reader: Reader) returns (m: MemoryRegion)
    requires reader.position + 32 <= |reader.bytes|
    modifies reader
    ensures m == RegionAt(reader.bytes, old(reader.position))
    ensures reader.position == old(reader.position) + 32
  {
    hide U32At, U64At;
    var start := reader.U64();
    var length := reader.U64();
    var kind := reader.U32();
    var sourceKind := reader.U32();
    var attributes := reader.U64();
    m := MemoryRegion(start, length, kind, sourceKind, attributes);
  }

  method PrevalidateBytes(bytes: Slice) returns (r: Result<PrevalidatedHeader, ValidationError>)
    ensures r == Prevalidate(bytes)
  {
    if |bytes| < BOOT_HEADER_SIZE {
      return Err(Truncated(|bytes|, BOOT_HEADER_SIZE));
    }
    var reader := new Reader(bytes);
    var h := ReadHeader(reader);
    var verdict := ValidateHeader(h);
    if verdict.Err? {
      return Err(verdict.error);
    }
    var declared := h.totalSize;
    if |bytes| < declared {
      return Err(Truncated(|bytes|, declared));
    }
    if |bytes| != declared {
      return Err(LengthMismatch(|bytes|, declared));
    }
    return Ok(PrevalidatedHeader(h.abiMajor, h.abiMinor, h.totalSize, h.memoryRegionCount));
  }

  /** `parse`: no read leaves the slice, because prevalidation fixed its length. */
  method ParseBytes(bytes: Slice) returns (r: Result<BootInfo, ValidationError>)
    ensures r == Parse(bytes)
  {
    hide HeaderAt, PlatformAt, ScenarioAt, RegionAt, Prevalidate, Validate;
    var prevalidated := PrevalidateBytes(bytes);
    if prevalidated.Err? {
      return Err(prevalidated.error);
    }
    assert |bytes| == BOOT_INFO_SIZE by { PrevalidatedLength(bytes); }
    var reader := new Reader(bytes);
    var header := ReadHeader(reader);
    var platform := ReadPlatform(reader);
    var scenario := ReadScenario(reader);
    var regions: seq<MemoryRegion> := [];
    var i := 0;
    while i < MAX_MEMORY_REGIONS
      invariant i <= MAX_MEMORY_REGIONS
      invariant reader.position == 80 + 32 * i
      invariant regions == RegionsAt(bytes, 80, i)
    {
      var region := ReadRegion(reader);
      regions := regions + [region];
      i := i + 1;
    }
    assert reader.position == BOOT_INFO_SIZE;
    var info := BootInfo(header, platform, scenario, regions);
    var verdict := Validate(info);
    if verdict.Err? {
      return Err(verdict.error);
    }
    return Ok(info);
  }

  lemma PrevalidatedLength(bytes: Slice)
    ensures Prevalidate(bytes).Ok? ==> |bytes| == BOOT_INFO_SIZE
  {
    hide HeaderAt;
  }

  /** `after` is `before` with `s` written at `start`. */
  ghost predicate Wrote(before: seq<u8>, after: seq<u8>, start: nat, s: seq<u8>) {
    && start + |s| <= |before|
    && after == before[..start] + s + before[start + |s|..]
  }

  lemma WroteMore(before: seq<u8>, mid: seq<u8>, after: seq<u8>, start: nat, s: seq<u8>, t: seq<u8>)
    requires Wrote(before, mid, start, s) && Wrote(mid, after, start + |s|, t)
    ensures Wrote(before, after, start, s + t)
  {
    assert mid[..start + |s|] == before[..start] + s;
    assert mid[start + |s| + |t|..] == before[start + |s| + |t|..];
    assert before[..start] + s + t == before[..start] + (s + t);
  }

  class Writer {
    const buffer: array<u8>
    const start: nat
    const limit: nat
    var position: nat
    ghost const initial: seq<u8>
    ghost var written: seq<u8>

    ghost predicate Valid()
      reads this, buffer
    {
      && position == |written| && start + position <= limit <= buffer.Length
      && Wrote(initial, buffer[..], start, written)
    }

    constructor (buffer: array<u8>, start: nat, limit: nat)
      requires start <= limit <= buffer.Length
      ensures this.buffer == buffer && this.start == start && this.limit == limit
      ensures position == 0 && written == [] && initial == buffer[..]
      ensures Valid()
    {
      this.buffer := buffer;
      this.start := start;
      this.limit := limit;
      position := 0;
      initial := buffer[..];
      written := [];
      new;
      assert buffer[..] == initial[..start] + [] + initial[start..];
    }

    method Bytes(value: seq<u8>)
      requires Valid() && start + position + |value| <= limit
      modifies this`position, this`written, buffer
      ensures Valid() && written == old(written) + value
    {
      var at := start + position;
      ghost var mid := buffer[..];
      forall i | 0 <= i < |value| {
        buffer[at + i] := value[i];
      }
      position := position + |value|;
      assert buffer[..] == mid[..at] + value + mid[at + |value|..];
      WroteMore(initial, mid, buffer[..], start, written, value);
      written := written + value;
    }

    method U16(value: u16)
      requires Valid() && start + position + 2 <= limit
      modifies this`position, this`written, buffer
      ensures Valid() && written == old(written) + LE.Bytes(value, 2)
    {
      Bytes(LE.Bytes(value, 2));
    }

    method U32(value: u32)
      requires Valid() && start + position + 4 <= limit
      modifies this`position, this`written, buffer
      ensures Valid() && written == old(written) + LE.Bytes(value, 4)
    {
      Bytes(LE.Bytes(value, 4));
    }

    method U64(value: u64)
      requires Valid() && start + position + 8 <= limit
      modifies this`position, this`written, buffer
      ensures Valid() && written == old(written) + LE.Bytes(value, 8)
    {
      Bytes(LE.Bytes(value, 8));
    }
  }

  method WriteHeader(w: Writer, h: BootHeader)
    requires w.Valid() && w.start + w.position + 32 <= w.limit
    modifies w`position, w`written, w.buffer
    ensures w.Valid() && w.written == old(w.written) + HeaderBytes(h)
  {
    hide LE.Bytes, Wrote;
    w.Bytes(h.magic);
    w.U16(h.abiMajor);
    w.U16(h.abiMinor);
    w.U32(h.headerSize);
    w.U32(h.totalSize);
    w.U32(h.memoryRegionSize);
    w.U32(h.memoryRegionCount);
    w.U32(h.flags);
    assert w.written == old(w.written) + HeaderBytes(h);
  }

  method WritePlatform(w: Writer, p: PlatformInfo)
    requires w.Valid() && w.start + w.position + 32 <= w.limit
    modifies w`position, w`written, w.buffer
    ensures w.Valid() && w.written == old(w.written) + PlatformBytes(p)
  {
    hide LE.Bytes, Wrote;
    w.U32(p.firmware);
    w.U32(p.architecture);
    w.U64(p.flags);
    w.U64(p.rsdpAddress);
    w.U32(p.rsdpLength);
    w.U32(p.bootCpuId);
    assert w.written == old(w.written) + PlatformBytes(p);
  }

  method WriteScenario(w: Writer, s: ScenarioInfo)
    requires w.Valid() && w.start + w.position + 16 <= w.limit
    modifies w`position, w`written, w.buffer
    ensures w.Valid() && w.written == old(w.written) + ScenarioBytes(s)
  {
    hide LE.Bytes, Wrote;
    w.U32(s.kind);
    w.U32(s.flags);
    w.U64(s.argument);
    assert w.written == old(w.written) + ScenarioBytes(s);
  }

  method WriteRegion(w: Writer, m: MemoryRegion)
    requires w.Valid() && w.start + w.position + 32 <= w.limit
    modifies w`position, w`written, w.buffer
    ensures w.Valid() && w.written == old(w.written) + RegionBytes(m)
  {
    hide LE.Bytes, Wrote;
    w.U64(m.start);
    w.U64(m.length);
    w.U32(m.kind);
    w.U32(m.sourceKind);
    w.U64(m.attributes);
    assert w.written == old(w.written) + RegionBytes(m);
  }

  datatype EncodeError = Invalid(error: ValidationError) | BufferTooSmall(provided: nat, required: nat)

  /**
    `encode` into the slice `output[start..end]`: exactly the contract's bytes are
    written, and every other byte of the underlying memory is untouched.
  */
  method Encode(info: BootInfo, output: array<u8>, start: nat, end: nat) returns (r: Result<nat, EncodeError>)
    requires start <= end <= output.Length
    modifies output
    ensures r == match Validate(info)
                 case Err(e) => Err(Invalid(e))
                 case Ok(_) =>
                   if end - start < BOOT_INFO_SIZE then Err(BufferTooSmall(end - start, BOOT_INFO_SIZE))
                   else Ok(BOOT_INFO_SIZE)
    ensures r.Ok? ==> Wrote(old(output[..]), output[..], start, InfoBytes(info))
    ensures r.Err? ==> output[..] == old(output[..])
  {
    hide HeaderBytes, PlatformBytes, ScenarioBytes, RegionBytes, Wrote, Validate;
    var verdict := Validate(info);
    if verdict.Err? {
      return Err(Invalid(verdict.error));
    }
    if end - start < BOOT_INFO_SIZE {
      return Err(BufferTooSmall(end - start, BOOT_INFO_SIZE));
    }
    var w := new Writer(output, start, start + BOOT_INFO_SIZE);
    WriteHeader(w, info.header);
    WritePlatform(w, info.platform);
    WriteScenario(w, info.scenario);
    ghost var front := w.written;
    var i := 0;
    while i < |info.memoryRegions|
      invariant 0 <= i <= |info.memoryRegions|
      invariant w.Valid() && w.written == front + RegionsBytes(info.memoryRegions[..i])
    {
      WriteRegion(w, info.memoryRegions[i]);
      i := i + 1;
      assert info.memoryRegions[..i][..i - 1] == info.memoryRegions[..i - 1];
    }
    assert info.memoryRegions[..i] == info.memoryRegions;
    assert w.position == BOOT_INFO_SIZE;
    assert w.written == InfoBytes(info);
    return Ok(BOOT_INFO_SIZE);
  }
}
