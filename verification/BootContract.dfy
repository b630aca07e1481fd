/** The loader-to-kernel contract: its records and the semantic validator. */
module BootContract {
  import opened Machine

  const ABI_MAJOR: u16 := 1
  const ABI_MINOR: u16 := 0
  const REGION_PAGE: u64 := 4096
  const MAX_MEMORY_REGIONS: nat := 128
  const BOOT_HEADER_SIZE: nat := 32
  const BOOT_INFO_SIZE: nat := 4176
  /** `POLYBOOT` */
  const BOOT_MAGIC: Magic := [0x50, 0x4f, 0x4c, 0x59, 0x42, 0x4f, 0x4f, 0x54]

  const SCENARIO_NORMAL: u32 := 0
  const SCENARIO_INCOMPATIBLE_VERSION: u32 := 1
  const SCENARIO_MALFORMED_METADATA: u32 := 2
  const SCENARIO_DELIBERATE_PANIC: u32 := 3

  type Magic = s: seq<u8> | |s| == 8 witness [0, 0, 0, 0, 0, 0, 0, 0]

  datatype BootHeader = BootHeader(
    magic: Magic, abiMajor: u16, abiMinor: u16, headerSize: u32, totalSize: u32,
    memoryRegionSize: u32, memoryRegionCount: u32, flags: u32)

  datatype PlatformInfo = PlatformInfo(
    firmware: u32, architecture: u32, flags: u64, rsdpAddress: u64, rsdpLength: u32, bootCpuId: u32)

  datatype ScenarioInfo = ScenarioInfo(kind: u32, flags: u32, argument: u64)

  datatype MemoryRegion = MemoryRegion(
    start: u64, length: u64, kind: u32, sourceKind: u32, attributes: u64)

  const EMPTY_REGION := MemoryRegion(0, 0, 0, 0, 0)

  type RegionTable = s: seq<MemoryRegion> | |s| == 128 witness seq(128, _ => EMPTY_REGION)

  datatype BootInfo = BootInfo(
    header: BootHeader, platform: PlatformInfo, scenario: ScenarioInfo, memoryRegions: RegionTable)

  datatype ValidationError =
    | Truncated(provided: nat, required: nat)
    | LengthMismatch(provided: nat, declared: nat)
    | BadMagic
    | UnsupportedVersion(major: u16, minor: u16)
    | HeaderSize(found: u32, expected: u32)
    | TotalSize(found: u32, expected: u32)
    | MemoryRegionSize(found: u32, expected: u32)
    | TooManyMemoryRegions(count: u32, maximum: u32)
    | UnknownHeaderFlags(headerFlags: u32)
    | RegionIndexOutOfBounds(slot: nat)
    | UnsupportedFirmware(firmware: u32)
    | UnsupportedArchitecture(architecture: u32)
    | UnknownPlatformFlags(platformFlags: u64)
    | InconsistentRsdpPresence
    | InvalidRsdpRange(address: u64, rsdpLength: u32)
    | UnknownScenario(scenario: u32)
    | UnknownScenarioFlags(scenarioFlags: u32)
    | ScenarioNotMarkedTestOnly(scenario: u32)
    | NormalScenarioHasTestState
    | ActiveMemoryRegionIsEmpty(index: u32)
    | EmptyMemoryRegion(index: u32)
    | UnalignedMemoryRegion(index: u32, start: u64, length: u64)
    | MemoryRegionOverflow(index: u32)
    | UnknownMemoryKind(index: u32, kind: u32)
    | UnsortedMemoryRegions(previous: u32, current: u32)
    | OverlappingMemoryRegions(previous: u32, current: u32)
    | NonZeroUnusedMemoryRegion(unused: u32)

  type Verdict = Result<(), ValidationError>

  function CurrentHeader(): BootHeader {
    BootHeader(BOOT_MAGIC, ABI_MAJOR, ABI_MINOR, 32, 4176, 32, 0, 0)
  }

  function NewBootInfo(platform: PlatformInfo, scenario: ScenarioInfo): BootInfo {
    BootInfo(CurrentHeader(), platform, scenario, seq(128, _ => EMPTY_REGION))
  }

  function SetMemoryRegion(info: BootInfo, index: usize, region: MemoryRegion): Result<BootInfo, ValidationError> {
    if index >= MAX_MEMORY_REGIONS then Err(RegionIndexOutOfBounds(index))
    else
      var count := index + 1;
      Ok(info.(memoryRegions := info.memoryRegions[index := region],
               header := if count > info.header.memoryRegionCount
                         then info.header.(memoryRegionCount := count) else info.header))
  }

  function ValidateHeader(h: BootHeader): Verdict {
    if h.magic != BOOT_MAGIC then Err(BadMagic)
    else if (h.abiMajor, h.abiMinor) != (ABI_MAJOR, ABI_MINOR) then Err(UnsupportedVersion(h.abiMajor, h.abiMinor))
    else if h.headerSize != 32 then Err(HeaderSize(h.headerSize, 32))
    else if h.totalSize != 4176 then Err(TotalSize(h.totalSize, 4176))
    else if h.memoryRegionSize != 32 then Err(MemoryRegionSize(h.memoryRegionSize, 32))
    else if h.memoryRegionCount > 128 then Err(TooManyMemoryRegions(h.memoryRegionCount, 128))
    else if h.flags != 0 then Err(UnknownHeaderFlags(h.flags))
    else Ok(())
  }

  function ValidatePlatform(p: PlatformInfo): Verdict {
    if p.firmware != 1 then Err(UnsupportedFirmware(p.firmware))
    else if p.architecture != 1 then Err(UnsupportedArchitecture(p.architecture))
    else if p.flags > 1 then Err(UnknownPlatformFlags(p.flags))
    else if p.flags == 0 then
      if p.rsdpAddress != 0 || p.rsdpLength != 0 then Err(InconsistentRsdpPresence) else Ok(())
    else
      var validLength := 20 <= p.rsdpLength <= 4096;
      var validAddress := p.rsdpAddress != 0 && p.rsdpAddress % 16 == 0;
      var hasEnd := CheckedAdd(p.rsdpAddress, p.rsdpLength).Some?;
      if !validLength || !validAddress || !hasEnd then Err(InvalidRsdpRange(p.rsdpAddress, p.rsdpLength))
      else Ok(())
  }

  function ValidateScenario(s: ScenarioInfo): Verdict {
    if s.kind > 3 then Err(UnknownScenario(s.kind))
    else if s.flags > 1 then Err(UnknownScenarioFlags(s.flags))
    else if s.kind == SCENARIO_NORMAL then
      if s.flags != 0 || s.argument != 0 then Err(NormalScenarioHasTestState) else Ok(())
    else if s.flags == 0 then Err(ScenarioNotMarkedTestOnly(s.kind))
    else Ok(())
  }

  type Previous = Option<(u32, u64, u64)>

  /** The loop body of `validate_regions` for one active region. */
  function CheckRegion(index: u32, region: MemoryRegion, previous: Previous): Result<Previous, ValidationError> {
    if region.kind == 0 then Err(ActiveMemoryRegionIsEmpty(index))
    else if region.kind > 9 then Err(UnknownMemoryKind(index, region.kind))
    else if region.length == 0 then Err(EmptyMemoryRegion(index))
    else if region.start % REGION_PAGE != 0 || region.length % REGION_PAGE != 0 then
      Err(UnalignedMemoryRegion(index, region.start, region.length))
    else
      var end :- CheckedAdd(region.start, region.length).OkOr(MemoryRegionOverflow(index));
      if previous.Some? && region.start < previous.value.1 then
        Err(UnsortedMemoryRegions(previous.value.0, index))
      else if previous.Some? && region.start < previous.value.2 then
        Err(OverlappingMemoryRegions(previous.value.0, index))
      else Ok(Some((index, region.start, end)))
  }

  /** The state of the first loop after `n` active regions, or the first error. */
  function CheckPrefix(regions: seq<MemoryRegion>, n: nat): Result<Previous, ValidationError>
    requires n <= |regions| <= 128
  {
    if n == 0 then Ok(None)
    else
      var previous :- CheckPrefix(regions, n - 1);
      CheckRegion(n - 1, regions[n - 1], previous)
  }

  /** The second loop, from slot `i`. */
  function CheckUnused(regions: seq<MemoryRegion>, i: nat): Verdict
    requires i <= |regions| <= 128
    decreases |regions| - i
  {
    if i == |regions| then Ok(())
    else if regions[i] != EMPTY_REGION then Err(NonZeroUnusedMemoryRegion(i))
    else CheckUnused(regions, i + 1)
  }

  function ValidateRegions(info: BootInfo): Verdict
    requires info.header.memoryRegionCount <= 128
  {
    var _ :- CheckPrefix(info.memoryRegions, info.header.memoryRegionCount);
    CheckUnused(info.memoryRegions, info.header.memoryRegionCount)
  }

  function Validate(info: BootInfo): Verdict {
    var _ :- ValidateHeader(info.header);
    var _ :- ValidatePlatform(info.platform);
    var _ :- ValidateScenario(info.scenario);
    ValidateRegions(info)
  }

  lemma {:induction false} FirstRegionErrorStands(regions: seq<MemoryRegion>, n: nat, m: nat)
    requires n <= m <= |regions| <= 128 && CheckPrefix(regions, n).Err?
    ensures CheckPrefix(regions, m) == CheckPrefix(regions, n)
  {
    if n < m {
      FirstRegionErrorStands(regions, n, m - 1);
    }
  }

  /** `validate_regions` as the two loops. */
  method ValidateRegionsLoop(info: BootInfo) returns (r: Verdict)
    requires info.header.memoryRegionCount <= 128
    ensures r == ValidateRegions(info)
  {
    var regions := info.memoryRegions;
    var count := info.header.memoryRegionCount;
    var previous: Previous := None;
    var index: u32 := 0;
    while index < count
      invariant index <= count
      invariant CheckPrefix(regions, index) == Ok(previous)
    {
      if CheckPrefix(regions, index + 1).Err? {
        FirstRegionErrorStands(regions, index + 1, count);
      }
      var region := regions[index];
      if region.kind == 0 {
        return Err(ActiveMemoryRegionIsEmpty(index));
      }
      if !(1 <= region.kind <= 9) {
        return Err(UnknownMemoryKind(index, region.kind));
      }
      if region.length == 0 {
        return Err(EmptyMemoryRegion(index));
      }
      if region.start % REGION_PAGE != 0 || region.length % REGION_PAGE != 0 {
        return Err(UnalignedMemoryRegion(index, region.start, region.length));
      }
      var end := CheckedAdd(region.start, region.length);
      if end.None? {
        return Err(MemoryRegionOverflow(index));
      }
      if previous.Some? {
        if region.start < previous.value.1 {
          return Err(UnsortedMemoryRegions(previous.value.0, index));
        }
        if region.start < previous.value.2 {
          return Err(OverlappingMemoryRegions(previous.value.0, index));
        }
      }
      previous := Some((index, region.start, end.value));
      index := index + 1;
    }
    var offset: u32 := 0;
    while count + offset < |regions|
      invariant count + offset <= |regions|
      invariant CheckUnused(regions, count + offset) == CheckUnused(regions, count)
    {
      if regions[count + offset] != EMPTY_REGION {
        return Err(NonZeroUnusedMemoryRegion(count + offset));
      }
      offset := offset + 1;
    }
    return Ok(());
  }

  // ---------------------------------------------------------------------------------
  // What the adjacent checks mean.
  // ---------------------------------------------------------------------------------

  predicate ValidRegion(r: MemoryRegion) {
    && 1 <= r.kind <= 9
    && r.length > 0
    && r.start % 4096 == 0 && r.length % 4096 == 0
    && r.start + r.length < 0x1_0000_0000_0000_0000
  }

  /** All of the regions are valid and every earlier one ends at or below every later one. */
  predicate ValidRegions(regions: seq<MemoryRegion>) {
    && (forall i | 0 <= i < |regions| :: ValidRegion(regions[i]))
    && (forall i, j | 0 <= i < j < |regions| :: regions[i].start + regions[i].length <= regions[j].start)
  }

  predicate LastOf(previous: Previous, regions: seq<MemoryRegion>) {
    previous == if regions == [] then None
                else var n := |regions| - 1;
                     Some((n, regions[n].start, regions[n].start + regions[n].length))
  }

  lemma ValidRegionsSnoc(regions: seq<MemoryRegion>, r: MemoryRegion)
    requires ValidRegions(regions)
    ensures ValidRegions(regions + [r])
       <==> ValidRegion(r)
            && (regions == [] || regions[|regions| - 1].start + regions[|regions| - 1].length <= r.start)
  {
    var all := regions + [r];
    var n := |regions|;
    assert all[n] == r;
    if n > 0 {
      assert all[n - 1] == regions[n - 1];
      if ValidRegion(r) && regions[n - 1].start + regions[n - 1].length <= r.start {
        forall i, j | 0 <= i < j < |all|
          ensures all[i].start + all[i].length <= all[j].start
        {
          if j == n && i < n - 1 {
            assert regions[i].start + regions[i].length <= regions[n - 1].start;
          }
        }
      }
    }
  }

  lemma NoRegions()
    ensures ValidRegions([])
  {
  }

  lemma CheckRegionExact(regions: seq<MemoryRegion>, r: MemoryRegion, previous: Previous)
    requires |regions| < 128 && ValidRegions(regions) && LastOf(previous, regions)
    ensures CheckRegion(|regions|, r, previous).Ok? <==> ValidRegions(regions + [r])
    ensures CheckRegion(|regions|, r, previous).Ok? ==>
              LastOf(CheckRegion(|regions|, r, previous).value, regions + [r])
  {
    ValidRegionsSnoc(regions, r);
  }

  lemma {:induction false} CheckPrefixExact(regions: seq<MemoryRegion>, n: nat)
    requires n <= |regions| <= 128
    ensures CheckPrefix(regions, n).Ok? <==> ValidRegions(regions[..n])
    ensures CheckPrefix(regions, n).Ok? ==> LastOf(CheckPrefix(regions, n).value, regions[..n])
  {
    hide CheckRegion, ValidRegions;
    if n == 0 {
      NoRegions();
    } else {
      CheckPrefixExact(regions, n - 1);
      assert regions[..n] == regions[..n - 1] + [regions[n - 1]];
      if CheckPrefix(regions, n - 1).Ok? {
        CheckRegionExact(regions[..n - 1], regions[n - 1], CheckPrefix(regions, n - 1).value);
      } else {
        PrefixOfValidRegions(regions[..n], n - 1);
        assert regions[..n][..n - 1] == regions[..n - 1];
      }
    }
  }

  lemma PrefixOfValidRegions(regions: seq<MemoryRegion>, n: nat)
    requires n <= |regions|
    ensures ValidRegions(regions) ==> ValidRegions(regions[..n])
  {
  }

  lemma {:induction false} CheckUnusedExact(regions: seq<MemoryRegion>, i: nat)
    requires i <= |regions| <= 128
    ensures CheckUnused(regions, i).Ok? <==> forall j | i <= j < |regions| :: regions[j] == EMPTY_REGION
    ensures CheckUnused(regions, i).Err? ==>
              exists k | i <= k < |regions| ::
                && CheckUnused(regions, i) == Err(NonZeroUnusedMemoryRegion(k))
                && regions[k] != EMPTY_REGION
                && forall j | i <= j < k :: regions[j] == EMPTY_REGION
    decreases |regions| - i
  {
    if i < |regions| && regions[i] == EMPTY_REGION {
      CheckUnusedExact(regions, i + 1);
    }
  }

  /** The region that an active-region error is about. */
  function FaultIndex(e: ValidationError): Option<nat> {
    match e
    case ActiveMemoryRegionIsEmpty(i) => Some(i)
    case EmptyMemoryRegion(i) => Some(i)
    case UnalignedMemoryRegion(i, _, _) => Some(i)
    case MemoryRegionOverflow(i) => Some(i)
    case UnknownMemoryKind(i, _) => Some(i)
    case UnsortedMemoryRegions(_, i) => Some(i)
    case OverlappingMemoryRegions(_, i) => Some(i)
    case _ => None
  }

  lemma FaultNamesRegion(index: u32, region: MemoryRegion, previous: Previous)
    ensures CheckRegion(index, region, previous).Err? ==>
              FaultIndex(CheckRegion(index, region, previous).error) == Some(index)
  {
  }

  lemma {:induction false} FirstBadRegion(regions: seq<MemoryRegion>, n: nat) returns (k: nat)
    requires n <= |regions| <= 128 && CheckPrefix(regions, n).Err?
    ensures k < n
    ensures FaultIndex(CheckPrefix(regions, n).error) == Some(k)
    ensures ValidRegions(regions[..k]) && !ValidRegions(regions[..k + 1])
  {
    hide CheckRegion, ValidRegions, FaultIndex, LastOf;
    if CheckPrefix(regions, n - 1).Err? {
      k := FirstBadRegion(regions, n - 1);
    } else {
      k := n - 1;
      CheckPrefixExact(regions, n - 1);
      CheckPrefixExact(regions, n);
      FaultNamesRegion(k, regions[k], CheckPrefix(regions, k).value);
    }
  }

  predicate CanonicalRegions(info: BootInfo)
    requires info.header.memoryRegionCount <= 128
  {
    && ValidRegions(info.memoryRegions[..info.header.memoryRegionCount])
    && forall j | info.header.memoryRegionCount <= j < 128 :: Blank(info.memoryRegions[j])
  }

  predicate Blank(r: MemoryRegion) {
    r.start == 0 && r.length == 0 && r.kind == 0 && r.sourceKind == 0 && r.attributes == 0
  }

  /**
    Comparing each region with the one before it accepts exactly the tables that are
    ordered and disjoint over all pairs; an active-region error names the least index at
    which the prefix stops being valid.
  */
  lemma ValidateRegionsExact(info: BootInfo)
    requires info.header.memoryRegionCount <= 128
    ensures ValidateRegions(info).Ok? <==> CanonicalRegions(info)
    ensures ValidateRegions(info).Err? ==>
              match FaultIndex(ValidateRegions(info).error)
              case Some(k) =>
                && k < info.header.memoryRegionCount
                && ValidRegions(info.memoryRegions[..k]) && !ValidRegions(info.memoryRegions[..k + 1])
              case None =>
                && ValidRegions(info.memoryRegions[..info.header.memoryRegionCount])
                && ValidateRegions(info).error.NonZeroUnusedMemoryRegion?
  {
    var n := info.header.memoryRegionCount;
    CheckPrefixExact(info.memoryRegions, n);
    CheckUnusedExact(info.memoryRegions, n);
    if CheckPrefix(info.memoryRegions, n).Err? {
      var k := FirstBadRegion(info.memoryRegions, n);
    }
  }

  predicate ValidPlatform(p: PlatformInfo) {
    && p.firmware == 1 && p.architecture == 1
    && (|| (p.flags == 0 && p.rsdpAddress == 0 && p.rsdpLength == 0)
        || (p.flags == 1 && 20 <= p.rsdpLength <= 4096 && p.rsdpAddress > 0 && p.rsdpAddress % 16 == 0
            && p.rsdpAddress + p.rsdpLength < U64_LIMIT))
  }

  predicate ValidScenario(s: ScenarioInfo) {
    s == ScenarioInfo(0, 0, 0) || (1 <= s.kind <= 3 && s.flags == 1)
  }

  /** `POLYBOOT`, version 1.0, the sizes of header, contract and region, a count and no flags. */
  predicate ValidHeader(h: BootHeader) {
    && h.magic == [0x50, 0x4f, 0x4c, 0x59, 0x42, 0x4f, 0x4f, 0x54] && h.abiMajor == 1 && h.abiMinor == 0
    && h.headerSize == 32 && h.totalSize == 4176 && h.memoryRegionSize == 32
    && h.memoryRegionCount <= 128 && h.flags == 0
  }

  /** A valid contract: every part is well formed. */
  predicate ValidContract(info: BootInfo) {
    && ValidHeader(info.header)
    && ValidPlatform(info.platform)
    && ValidScenario(info.scenario)
    && CanonicalRegions(info)
  }

  /**
    Setting a slot changes that slot alone, raises the count to cover it and never lowers
    it; exactly the slots from 128 on are refused.
  */
  lemma SetRegionExactly(info: BootInfo, index: usize, region: MemoryRegion)
    ensures SetMemoryRegion(info, index, region).Ok? <==> index < 128
    ensures index >= 128 ==> SetMemoryRegion(info, index, region) == Err(RegionIndexOutOfBounds(index))
    ensures index < 128 ==>
              var after := SetMemoryRegion(info, index, region).value;
              && (forall i | 0 <= i < 128 ::
                    after.memoryRegions[i] == if i == index then region else info.memoryRegions[i])
              && index < after.header.memoryRegionCount
              && info.header.memoryRegionCount <= after.header.memoryRegionCount
              && (after.header.memoryRegionCount == index + 1
                  || after.header.memoryRegionCount == info.header.memoryRegionCount)
              && after.header.(memoryRegionCount := 0) == info.header.(memoryRegionCount := 0)
              && after.platform == info.platform && after.scenario == info.scenario
  {
  }

  /** The ordered checks accept exactly the valid contracts. */
  lemma ValidateExactly(info: BootInfo)
    ensures Validate(info).Ok? <==> ValidContract(info)
  {
    hide ValidateRegions, CanonicalRegions;
    if info.header.memoryRegionCount <= 128 {
      ValidateRegionsExact(info);
    }
  }
}
