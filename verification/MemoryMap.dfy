/** Building the contract from the firmware memory map. */
module MemoryMap {
  import opened Machine
  import opened BootContract
  import opened ContractCodec
  import opened KernelLoader
  import LE = LittleEndian

  datatype BootScenario = Normal | IncompatibleVersion | TruncatedContract | DeliberatePanic

  datatype Descriptor = Descriptor(ty: u32, physStart: u64, pageCount: u64, attributes: u64)

  type Map = seq<Descriptor>

  const KERNEL_MEMORY_TYPE: u32 := 0x8000_0000
  const CONTRACT_MEMORY_TYPE: u32 := 0x8000_0001
  const STACK_GUARD_MEMORY_TYPE: u32 := 0x8000_0002

  /** Firmware memory types are numbered as in section 7.2.1 of the UEFI Specification 2.10. */
  function NormalizeMemoryKind(ty: u32): (kind: u32)
    ensures 1 <= kind <= 9
    ensures kind == 2 <==> ty == 7
    ensures kind == 4 <==> ty == KERNEL_MEMORY_TYPE
    ensures kind == 5 <==> ty == CONTRACT_MEMORY_TYPE
    ensures kind == 3 <==> ty in {1, 2, 3, 4}
    ensures kind == 6 <==> ty in {5, 6}
    ensures kind == 7 <==> ty == 9
    ensures kind == 8 <==> ty == 10
    ensures kind == 9 <==> ty in {11, 12}
  {
    if ty == STACK_GUARD_MEMORY_TYPE then 1
    else if ty == KERNEL_MEMORY_TYPE then 4
    else if ty == CONTRACT_MEMORY_TYPE then 5
    else if ty == 7 then 2
    else if 1 <= ty <= 4 then 3
    else if 5 <= ty <= 6 then 6
    else if ty == 9 then 7
    else if ty == 10 then 8
    else if 11 <= ty <= 12 then 9
    else 1
  }

  function ByteLength(d: Descriptor): int {
    d.pageCount * REGION_PAGE
  }

  function RegionOf(d: Descriptor): MemoryRegion
    requires ByteLength(d) < U64_LIMIT
  {
    MemoryRegion(d.physStart, ByteLength(d), NormalizeMemoryKind(d.ty), d.ty, d.attributes)
  }

  /** The descriptors with at least one page among the first `n`, in order. */
  function Live(m: Map, n: nat): (r: Map)
    requires n <= |m|
  {
    if n == 0 then []
    else if m[n - 1].pageCount == 0 then Live(m, n - 1)
    else Live(m, n - 1) + [m[n - 1]]
  }

  predicate Representable(live: Map) {
    forall i | 0 <= i < |live| :: ByteLength(live[i]) < U64_LIMIT
  }

  function RegionsOf(live: Map): (r: seq<MemoryRegion>)
    requires Representable(live)
    ensures |r| == |live|
  {
    seq(|live|, i requires 0 <= i < |live| => RegionOf(live[i]))
  }

  /**
    The maps that fit the contract: at most 128 non-empty descriptors, each aligned and
    ending below 2^64, and every earlier one ending at or below every later one.
  */
  predicate Encodable(m: Map) {
    var live := Live(m, |m|);
    && |live| <= 128
    && (forall i | 0 <= i < |live| ::
          live[i].physStart % 4096 == 0 && live[i].physStart + ByteLength(live[i]) < 0x1_0000_0000_0000_0000)
    && (forall i, j | 0 <= i < j < |live| ::
          live[i].physStart + ByteLength(live[i]) <= live[j].physStart)
  }

  function ScenarioFor(scenario: BootScenario): ScenarioInfo {
    match scenario
    case Normal => ScenarioInfo(SCENARIO_NORMAL, 0, 0)
    case IncompatibleVersion => ScenarioInfo(SCENARIO_INCOMPATIBLE_VERSION, 1, 0)
    case TruncatedContract => ScenarioInfo(SCENARIO_MALFORMED_METADATA, 1, 0)
    case DeliberatePanic => ScenarioInfo(SCENARIO_DELIBERATE_PANIC, 1, 0)
  }

  const PLATFORM := PlatformInfo(1, 1, 0, 0, 0, 0)

  function Padded(regions: seq<MemoryRegion>): RegionTable
    requires |regions| <= 128
  {
    regions + seq(128 - |regions|, _ => EMPTY_REGION)
  }

  /** The contract that carries `regions` and nothing else. */
  function ContractWith(scenario: BootScenario, regions: seq<MemoryRegion>): BootInfo
    requires |regions| <= 128
  {
    BootInfo(CurrentHeader().(memoryRegionCount := |regions|), PLATFORM, ScenarioFor(scenario), Padded(regions))
  }

  lemma LiveNonEmpty(m: Map, n: nat)
    requires n <= |m|
    ensures forall i | 0 <= i < |Live(m, n)| :: Live(m, n)[i].pageCount > 0
  {
  }

  lemma {:induction false} LivePrefix(m: Map, n: nat, k: nat)
    requires n <= k <= |m|
    ensures Live(m, n) <= Live(m, k)
  {
    if n < k {
      LivePrefix(m, n, k - 1);
    }
  }

  /** The validator accepts the built contract exactly when the map is encodable. */
  lemma ContractValidExactly(m: Map, scenario: BootScenario)
    requires Representable(Live(m, |m|)) && |Live(m, |m|)| <= 128
    ensures Validate(ContractWith(scenario, RegionsOf(Live(m, |m|)))).Ok? <==> Encodable(m)
  {
    hide ValidateRegions;
    var live := Live(m, |m|);
    var info := ContractWith(scenario, RegionsOf(live));
    assert Validate(info) == ValidateRegions(info);
    ValidateRegionsExact(info);
    assert info.memoryRegions[..|live|] == RegionsOf(live);
    LiveNonEmpty(m, |m|);
    RegionsValidExactly(live);
  }

  lemma RegionsValidExactly(live: Map)
    requires Representable(live)
    requires forall i | 0 <= i < |live| :: live[i].pageCount > 0
    ensures ValidRegions(RegionsOf(live))
       <==> && (forall i | 0 <= i < |live| ::
                  live[i].physStart % REGION_PAGE == 0 && live[i].physStart + ByteLength(live[i]) < U64_LIMIT)
            && (forall i, j | 0 <= i < j < |live| ::
                  live[i].physStart + ByteLength(live[i]) <= live[j].physStart)
  {
    var regions := RegionsOf(live);
    forall i | 0 <= i < |live|
      ensures ValidRegion(regions[i])
         <==> live[i].physStart % REGION_PAGE == 0 && live[i].physStart + ByteLength(live[i]) < U64_LIMIT
    {
      WholePages(live[i].pageCount);
    }
    if ValidRegions(regions) {
      forall i, j | 0 <= i < j < |live|
        ensures live[i].physStart + ByteLength(live[i]) <= live[j].physStart
      {
        assert regions[i].start + regions[i].length <= regions[j].start;
      }
    }
  }

  lemma WholePages(n: nat)
    ensures n * REGION_PAGE % REGION_PAGE == 0
  {
  }

  lemma StartContract(scenario: BootScenario)
    ensures NewBootInfo(PLATFORM, ScenarioFor(scenario)) == ContractWith(scenario, [])
  {
  }

  lemma AddRegion(scenario: BootScenario, regions: seq<MemoryRegion>, region: MemoryRegion)
    requires |regions| <= 128
    ensures var r := SetMemoryRegion(ContractWith(scenario, regions), |regions|, region);
            if |regions| == 128 then r.Err? else r == Ok(ContractWith(scenario, regions + [region]))
  {
    if |regions| < 128 {
      assert Padded(regions)[|regions| := region] == Padded(regions + [region]);
    }
  }

  /** `encode_contract`'s loop: the contract with the map's live regions, or an error. */
  method BuildContract(m: Map, scenario: BootScenario) returns (r: Result<BootInfo, LoaderError>)
    ensures r.Ok? <==> Representable(Live(m, |m|)) && |Live(m, |m|)| <= 128
    ensures r.Ok? ==> r.value == ContractWith(scenario, RegionsOf(Live(m, |m|)))
    ensures r.Err? ==> r.error == Contract
  {
    hide SetMemoryRegion, ContractWith;
    StartContract(scenario);
    var info := NewBootInfo(PLATFORM, ScenarioFor(scenario));
    var regionIndex: usize := 0;
    var i := 0;
    assert RegionsOf(Live(m, 0)) == [];
    while i < |m|
      invariant 0 <= i <= |m|
      invariant regionIndex == |Live(m, i)| <= 128
      invariant Representable(Live(m, i))
      invariant info == ContractWith(scenario, RegionsOf(Live(m, i)))
    {
      var descriptor := m[i];
      LivePrefix(m, i + 1, |m|);
      if descriptor.pageCount == 0 {
        i := i + 1;
        continue;
      }
      assert Live(m, i + 1)[regionIndex] == descriptor;
      var length := CheckedMul(descriptor.pageCount, REGION_PAGE);
      if length.None? {
        assert Live(m, |m|)[regionIndex] == descriptor;
        return Err(Contract);
      }
      var region := MemoryRegion(descriptor.physStart, length.value, NormalizeMemoryKind(descriptor.ty),
                                 descriptor.ty, descriptor.attributes);
      var set_ := SetMemoryRegion(info, regionIndex, region);
      AddRegion(scenario, RegionsOf(Live(m, i)), region);
      if set_.Err? {
        return Err(Contract);
      }
      assert RegionsOf(Live(m, i + 1)) == RegionsOf(Live(m, i)) + [region];
      info := set_.value;
      regionIndex := regionIndex + 1;
      i := i + 1;
    }
    return Ok(info);
  }

  /** The 4176 bytes that reach the kernel: only the major version may differ from the contract's. */
  function HandoffBytes(m: Map, scenario: BootScenario): seq<u8>
    requires Encodable(m)
  {
    var info := EncodableContract(m, scenario);
    InfoBytes(if scenario == IncompatibleVersion then info.(header := info.header.(abiMajor := ABI_MAJOR + 1))
              else info)
  }

  function EncodableContract(m: Map, scenario: BootScenario): BootInfo
    requires Encodable(m)
  {
    assert Representable(Live(m, |m|));
    ContractWith(scenario, RegionsOf(Live(m, |m|)))
  }

  function HandoffLength(scenario: BootScenario): usize {
    if scenario == TruncatedContract then BOOT_INFO_SIZE - 1 else BOOT_INFO_SIZE
  }

  /** What every handed-over contract starts with: header, platform and scenario. */
  function HandoffFront(scenario: BootScenario, regions: u8): seq<u8> {
    var major := if scenario == IncompatibleVersion then 2 else 1;
    var kind :=
      match scenario
      case Normal => 0
      case IncompatibleVersion => 1
      case TruncatedContract => 2
      case DeliberatePanic => 3;
    var testOnly := if scenario == Normal then 0 else 1;
    // `POLYBOOT`, version, header size, total size, region size, region count, flags
    [0x50, 0x4f, 0x4c, 0x59, 0x42, 0x4f, 0x4f, 0x54, major, 0, 0, 0, 32, 0, 0, 0,
     0x50, 0x10, 0, 0, 32, 0, 0, 0, regions, 0, 0, 0, 0, 0, 0, 0]
    // UEFI, x86_64, no flags, no RSDP, processor 0
    + [1, 0, 0, 0, 1, 0, 0, 0, 0, 0, 0, 0, 0, 0, 0, 0, 0, 0, 0, 0, 0, 0, 0, 0, 0, 0, 0, 0, 0, 0, 0, 0]
    // kind, flags, argument
    + [kind, 0, 0, 0, testOnly, 0, 0, 0, 0, 0, 0, 0, 0, 0, 0, 0]
  }

  lemma FixedFields()
    ensures LE.Bytes(0, 8) == [0, 0, 0, 0, 0, 0, 0, 0] && LE.Bytes(4176, 4) == [0x50, 0x10, 0, 0]
  {
    assert LE.Bytes(0, 2) == [0, 0];
    assert LE.Bytes(0, 4) == [0, 0, 0, 0];
    assert LE.Bytes(0, 6) == [0, 0, 0, 0, 0, 0];
    assert LE.Bytes(16, 3) == [0x10, 0, 0];
  }

  lemma HeaderFront(h: BootHeader)
    requires ValidHeader(h.(abiMajor := 1)) && h.abiMajor < 256
    ensures HeaderBytes(h)
         == [0x50, 0x4f, 0x4c, 0x59, 0x42, 0x4f, 0x4f, 0x54, h.abiMajor, 0, 0, 0, 32, 0, 0, 0,
             0x50, 0x10, 0, 0, 32, 0, 0, 0, h.memoryRegionCount, 0, 0, 0, 0, 0, 0, 0]
  {
    hide LE.Bytes;
    FixedFields();
    LE.SmallFields(0);
    LE.SmallFields(32);
    LE.SmallFields(h.abiMajor);
    LE.SmallFields(h.memoryRegionCount);
  }

  lemma PlatformFront()
    ensures PlatformBytes(PlatformInfo(1, 1, 0, 0, 0, 0))
         == [1, 0, 0, 0, 1, 0, 0, 0, 0, 0, 0, 0, 0, 0, 0, 0, 0, 0, 0, 0, 0, 0, 0, 0, 0, 0, 0, 0, 0, 0, 0, 0]
  {
    hide LE.Bytes;
    FixedFields();
    LE.SmallFields(0);
    LE.SmallFields(1);
  }

  lemma ScenarioFront(s: ScenarioInfo)
    requires s.kind < 256 && s.flags < 256 && s.argument == 0
    ensures ScenarioBytes(s) == [s.kind, 0, 0, 0, s.flags, 0, 0, 0, 0, 0, 0, 0, 0, 0, 0, 0]
  {
    hide LE.Bytes;
    FixedFields();
    LE.SmallFields(s.kind);
    LE.SmallFields(s.flags);
  }

  /** For every encodable map and every scenario the handed-over contract starts with those bytes. */
  lemma HandoffStarts(m: Map, scenario: BootScenario)
    requires Encodable(m)
    ensures |HandoffBytes(m, scenario)| == 4176
    ensures HandoffBytes(m, scenario)[..80] == HandoffFront(scenario, |Live(m, |m|)|)
  {
    hide Encodable, HeaderBytes, PlatformBytes, ScenarioBytes, RegionsBytes, Padded, RegionsOf;
    var info := EncodableContract(m, scenario);
    assert info.header.memoryRegionCount == |Live(m, |m|)| <= 128 by { EncodableIsRepresentable(m); }
    var header := if scenario == IncompatibleVersion then info.header.(abiMajor := 2) else info.header;
    HeaderFront(header);
    PlatformFront();
    ScenarioFront(info.scenario);
    var front := HeaderBytes(header) + PlatformBytes(info.platform) + ScenarioBytes(info.scenario);
    assert HandoffBytes(m, scenario) == front + RegionsBytes(info.memoryRegions);
    assert |front| == 80;
  }

  /** Overwriting the two version bytes gives the encoding of the same contract with that version. */
  lemma PatchedVersion(info: BootInfo, major: u16)
    ensures InfoBytes(info)[..8] + LE.Bytes(major, 2) + InfoBytes(info)[10..]
         == InfoBytes(info.(header := info.header.(abiMajor := major)))
  {
    hide PlatformBytes, ScenarioBytes, RegionsBytes, LE.Bytes;
    var rest := PlatformBytes(info.platform) + ScenarioBytes(info.scenario) + RegionsBytes(info.memoryRegions);
    var h := HeaderBytes(info.header);
    var h' := HeaderBytes(info.header.(abiMajor := major));
    assert InfoBytes(info) == h + rest;
    assert InfoBytes(info.(header := info.header.(abiMajor := major))) == h' + rest;
    assert h[..8] == info.header.magic == h'[..8];
    assert h'[8..10] == LE.Bytes(major, 2);
    assert h[10..] == h'[10..];
    assert h' == h'[..8] + h'[8..10] + h'[10..];
    assert (h + rest)[10..] == h[10..] + rest;
  }

  /** No byte outside `[start, end)` changed. */
  ghost predicate ChangedOnlyIn(before: seq<u8>, after: seq<u8>, start: nat, end: nat) {
    && |after| == |before| && start <= end <= |before|
    && after[..start] == before[..start] && after[end..] == before[end..]
  }

  /**
    `encode_contract` into the storage `ram[base..base + size]`: it succeeds exactly on
    encodable maps, an over-limit map is an error and never truncated, and nothing outside
    the storage changes.
  */
  method EncodeContract(m: Map, ram: array<u8>, base: nat, size: nat, scenario: BootScenario)
    returns (r: Result<usize, LoaderError>)
    requires BOOT_INFO_SIZE <= size && base + size <= ram.Length
    modifies ram
    ensures r == if Encodable(m) then Ok(HandoffLength(scenario)) else Err(Contract)
    ensures ChangedOnlyIn(old(ram[..]), ram[..], base, base + size)
    ensures r.Ok? ==> ram[base..base + BOOT_INFO_SIZE] == HandoffBytes(m, scenario)
    ensures r.Ok? ==> ram[base..base + 80] == HandoffFront(scenario, |Live(m, |m|)|)
  {
    hide Validate, InfoBytes, HandoffFront;
    var built := BuildContract(m, scenario);
    if built.Err? {
      if Encodable(m) {
        EncodableIsRepresentable(m);
      }
      return Err(Contract);
    }
    var info := built.value;
    ContractValidExactly(m, scenario);
    forall i | base <= i < base + size {
      ram[i] := 0;
    }
    ghost var zeroed := ram[..];
    var encoded := Encode(info, ram, base, base + size);
    if encoded.Err? {
      return Err(Contract);
    }
    WrittenRange(zeroed, ram[..], base, InfoBytes(info), size);
    if scenario == IncompatibleVersion {
      ghost var whole := ram[..];
      var version := LE.Bytes(ABI_MAJOR + 1, 2);
      ram[base + 8] := version[0];
      ram[base + 9] := version[1];
      PatchedVersion(info, ABI_MAJOR + 1);
      PatchedRange(whole, ram[..], base, version);
    }
    HandoffStarts(m, scenario);
    assert ram[base..base + 80] == ram[base..base + BOOT_INFO_SIZE][..80];
    if scenario == TruncatedContract {
      return Ok(encoded.value - 1);
    }
    return Ok(encoded.value);
  }

  lemma EncodableIsRepresentable(m: Map)
    requires Encodable(m)
    ensures Representable(Live(m, |m|)) && |Live(m, |m|)| <= 128
  {
  }

  lemma WrittenRange(before: seq<u8>, after: seq<u8>, base: nat, s: seq<u8>, size: nat)
    requires Wrote(before, after, base, s) && |s| <= size && base + size <= |before|
    ensures ChangedOnlyIn(before, after, base, base + size)
    ensures after[base..base + |s|] == s
  {
    assert after[base + size..] == before[base + size..];
  }

  lemma PatchedRange(before: seq<u8>, after: seq<u8>, base: nat, version: seq<u8>)
    requires |version| == 2 && base + BOOT_INFO_SIZE <= |before| && |after| == |before|
    requires after[base + 8] == version[0] && after[base + 9] == version[1]
    requires forall i | 0 <= i < |before| && i != base + 8 && i != base + 9 :: after[i] == before[i]
    ensures var b := before[base..base + BOOT_INFO_SIZE];
            after[base..base + BOOT_INFO_SIZE] == b[..8] + version + b[10..]
  {
  }

  predicate Describes(region: MemoryRegion, d: Descriptor) {
    && region.start == d.physStart && region.length == ByteLength(d)
    && region.kind == NormalizeMemoryKind(d.ty)
    && region.sourceKind == d.ty && region.attributes == d.attributes
  }

  /** `regions` holds exactly the live descriptors, in order, and is empty after them. */
  predicate CarriesMap(info: BootInfo, live: Map) {
    && info.header.memoryRegionCount == |live| <= 128
    && (forall i | 0 <= i < |live| :: Describes(info.memoryRegions[i], live[i]))
    && (forall i | |live| <= i < 128 :: info.memoryRegions[i] == EMPTY_REGION)
  }

  /** In the two scenarios that hand over a valid contract the kernel recovers the whole map. */
  lemma MapConserved(m: Map, scenario: BootScenario) returns (info: BootInfo)
    requires Encodable(m) && scenario in {Normal, DeliberatePanic}
    ensures Parse(HandoffBytes(m, scenario)) == Ok(info)
    ensures CarriesMap(info, Live(m, |m|))
    ensures info.scenario == ScenarioFor(scenario)
  {
    hide Validate, InfoBytes, Parse;
    EncodableIsRepresentable(m);
    ContractValidExactly(m, scenario);
    info := EncodableContract(m, scenario);
    ParseInverse(HandoffBytes(m, scenario), info);
  }

  /** The bad-version handoff is rejected for its version and nothing else. */
  lemma BadVersionRejected(m: Map)
    requires Encodable(m)
    ensures Parse(HandoffBytes(m, IncompatibleVersion)) == Err(UnsupportedVersion(2, 0))
  {
    hide InfoBytes, PlatformAt, ScenarioAt, RegionsAt;
    var info := EncodableContract(m, IncompatibleVersion);
    var patched := info.(header := info.header.(abiMajor := 2));
    DecodeOfEncode(patched);
    assert HeaderAt(InfoBytes(patched), 0) == InfoAt(InfoBytes(patched)).header;
  }
}
