/** Which error the contract checks report: the first fault in a fixed order, with the values at fault. */
module ContractErrors {
  import opened Machine
  import opened BootContract
  import opened ContractCodec

  /** Fault number `r` of the header, the platform or the scenario of a contract. */
  predicate InfoFault(r: nat, info: BootInfo) {
    var h, p, s := info.header, info.platform, info.scenario;
    match r
    case 0 => h.magic != [0x50, 0x4f, 0x4c, 0x59, 0x42, 0x4f, 0x4f, 0x54]
    case 1 => h.abiMajor != 1 || h.abiMinor != 0
    case 2 => h.headerSize != 32
    case 3 => h.totalSize != 4176
    case 4 => h.memoryRegionSize != 32
    case 5 => h.memoryRegionCount > 128
    case 6 => h.flags != 0
    case 7 => p.firmware != 1
    case 8 => p.architecture != 1
    case 9 => p.flags > 1
    case 10 => p.flags == 0 && (p.rsdpAddress != 0 || p.rsdpLength != 0)
    case 11 =>
      p.flags == 1 && (|| p.rsdpLength < 20 || p.rsdpLength > 4096 || p.rsdpAddress == 0 || p.rsdpAddress % 16 != 0
                       || p.rsdpAddress + p.rsdpLength >= 0x1_0000_0000_0000_0000)
    case 12 => s.kind > 3
    case 13 => s.flags > 1
    case 14 => s.kind == 0 && (s.flags != 0 || s.argument != 0)
    case 15 => s.kind != 0 && s.flags == 0
    case _ => false
  }

  /** How fault `r` is reported. */
  predicate ReportsInfo(e: ValidationError, r: nat, info: BootInfo) {
    var h, p, s := info.header, info.platform, info.scenario;
    match r
    case 0 => e == BadMagic
    case 1 => e == UnsupportedVersion(h.abiMajor, h.abiMinor)
    case 2 => e == HeaderSize(h.headerSize, 32)
    case 3 => e == TotalSize(h.totalSize, 4176)
    case 4 => e == MemoryRegionSize(h.memoryRegionSize, 32)
    case 5 => e == TooManyMemoryRegions(h.memoryRegionCount, 128)
    case 6 => e == UnknownHeaderFlags(h.flags)
    case 7 => e == UnsupportedFirmware(p.firmware)
    case 8 => e == UnsupportedArchitecture(p.architecture)
    case 9 => e == UnknownPlatformFlags(p.flags)
    case 10 => e == InconsistentRsdpPresence
    case 11 => e == InvalidRsdpRange(p.rsdpAddress, p.rsdpLength)
    case 12 => e == UnknownScenario(s.kind)
    case 13 => e == UnknownScenarioFlags(s.flags)
    case 14 => e == NormalScenarioHasTestState
    case 15 => e == ScenarioNotMarkedTestOnly(s.kind)
    case _ => false
  }

  /** The first of those faults, in this order, is what the validator reports. */
  lemma InfoErrorFirst(info: BootInfo, r: nat)
    requires InfoFault(r, info) && forall q: nat | q < r :: !InfoFault(q, info)
    ensures Validate(info).Err? && ReportsInfo(Validate(info).error, r, info)
  {
    hide ValidateRegions;
    var faults := [InfoFault(0, info), InfoFault(1, info), InfoFault(2, info), InfoFault(3, info),
                   InfoFault(4, info), InfoFault(5, info), InfoFault(6, info), InfoFault(7, info),
                   InfoFault(8, info), InfoFault(9, info), InfoFault(10, info), InfoFault(11, info),
                   InfoFault(12, info), InfoFault(13, info), InfoFault(14, info), InfoFault(15, info)];
  }

  /** Fault number `r` of the region after the valid regions `before`. */
  predicate RegionFault(r: nat, before: seq<MemoryRegion>, region: MemoryRegion) {
    match r
    case 0 => region.kind == 0
    case 1 => region.kind > 9
    case 2 => region.length == 0
    case 3 => region.start % 4096 != 0 || region.length % 4096 != 0
    case 4 => region.start + region.length >= 0x1_0000_0000_0000_0000
    case 5 => before != [] && region.start < before[|before| - 1].start
    case 6 => before != [] && region.start < before[|before| - 1].start + before[|before| - 1].length
    case _ => false
  }

  predicate ReportsRegion(e: ValidationError, r: nat, index: u32, region: MemoryRegion) {
    match r
    case 0 => e == ActiveMemoryRegionIsEmpty(index)
    case 1 => e == UnknownMemoryKind(index, region.kind)
    case 2 => e == EmptyMemoryRegion(index)
    case 3 => e == UnalignedMemoryRegion(index, region.start, region.length)
    case 4 => e == MemoryRegionOverflow(index)
    case 5 => index > 0 && e == UnsortedMemoryRegions(index - 1, index)
    case 6 => index > 0 && e == OverlappingMemoryRegions(index - 1, index)
    case _ => false
  }

  /** In an otherwise valid contract the first fault of the first bad region is what the validator reports. */
  lemma RegionErrorFirst(info: BootInfo, k: nat, r: nat)
    requires ValidHeader(info.header) && ValidPlatform(info.platform) && ValidScenario(info.scenario)
    requires k < info.header.memoryRegionCount && ValidRegions(info.memoryRegions[..k])
    requires var before, region := info.memoryRegions[..k], info.memoryRegions[k];
             RegionFault(r, before, region) && forall q: nat | q < r :: !RegionFault(q, before, region)
    ensures Validate(info).Err? && ReportsRegion(Validate(info).error, r, k, info.memoryRegions[k])
  {
    hide ValidRegions, CheckPrefix, CheckUnused, RegionFault, ReportsRegion;
    var regions := info.memoryRegions;
    CheckPrefixExact(regions, k);
    var previous := CheckPrefix(regions, k).value;
    StepReports(regions[..k], regions[k], previous, r);
    NextRegion(regions, k);
    FirstRegionErrorStands(regions, k + 1, info.header.memoryRegionCount);
  }

  lemma NextRegion(regions: RegionTable, k: nat)
    requires k < 128 && CheckPrefix(regions, k).Ok?
    ensures CheckPrefix(regions, k + 1) == CheckRegion(k, regions[k], CheckPrefix(regions, k).value)
  {
  }

  lemma StepReports(before: seq<MemoryRegion>, region: MemoryRegion, previous: Previous, r: nat)
    requires |before| < 128 && LastOf(previous, before)
    requires RegionFault(r, before, region) && forall q: nat | q < r :: !RegionFault(q, before, region)
    ensures var verdict := CheckRegion(|before|, region, previous);
            verdict.Err? && ReportsRegion(verdict.error, r, |before|, region)
  {
    var faults := [RegionFault(0, before, region), RegionFault(1, before, region), RegionFault(2, before, region),
                   RegionFault(3, before, region), RegionFault(4, before, region), RegionFault(5, before, region),
                   RegionFault(6, before, region)];
  }

  /**
    Prevalidation, on every byte string: too short, the first header fault, the wrong length,
    or the header's own version, size and count.
  */
  lemma PrevalidatedExactly(bytes: Slice, info: BootInfo)
    requires |bytes| >= 32 ==> info.header == HeaderAt(bytes, 0)
    ensures |bytes| < 32 ==> Prevalidate(bytes) == Err(Truncated(|bytes|, 32))
    ensures |bytes| >= 32 && !ValidHeader(info.header) ==> Prevalidate(bytes).Err?
    ensures |bytes| >= 32 && !ValidHeader(info.header) && Validate(info).Err? ==>
              Prevalidate(bytes) == Err(Validate(info).error)
    ensures |bytes| >= 32 && ValidHeader(info.header) ==>
              Prevalidate(bytes)
              == if |bytes| < 4176 then Err(Truncated(|bytes|, 4176))
                 else if |bytes| > 4176 then Err(LengthMismatch(|bytes|, 4176))
                 else Ok(PrevalidatedHeader(1, 0, 4176, info.header.memoryRegionCount))
  {
    hide HeaderAt, ValidateRegions;
  }
}
