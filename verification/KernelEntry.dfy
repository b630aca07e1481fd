/** The kernel's decision on the contract it receives. */
module KernelEntry {
  import opened Machine
  import opened BootContract
  import opened ContractCodec
  import opened Records
  import LE = LittleEndian

  datatype ExitCode = Success | ContractRejected | KernelPanic | LoaderFailure | KernelReturned

  /** The value written to the debug-exit device. */
  function GuestValue(code: ExitCode): nat {
    match code
    case Success => 0x10
    case ContractRejected => 0x20
    case KernelPanic => 0x21
    case LoaderFailure => 0x22
    case KernelReturned => 0x23
  }

  /** QEMU exits with `(value << 1) | 1`. */
  function HostStatus(code: ExitCode): int {
    GuestValue(code) * 2 + 1
  }

  datatype KernelOutcome = KernelOutcome(marker: Marker, exit: ExitCode)

  const REJECT_LENGTH := KernelOutcome(ContractLengthMarker, ContractRejected)
  const REJECT_INVALID := KernelOutcome(ContractInvalidMarker, ContractRejected)
  const REJECT_VERSION := KernelOutcome(AbiVersionMarker, ContractRejected)
  const READY := KernelOutcome(ReadyMarker, Success)
  const PANICKED := KernelOutcome(KernelPanicMarker, KernelPanic)

  /** `polytope_kernel_main`, given the `length` readable bytes at `address`. */
  function KernelMain(address: u64, length: usize, bytes: Slice): KernelOutcome
    requires |bytes| == length
  {
    if length != BOOT_INFO_SIZE then REJECT_LENGTH
    else if address == 0 || address % 4096 != 0 || CheckedAdd(address, length).None? then REJECT_INVALID
    else
      match Parse(bytes)
      case Err(UnsupportedVersion(_, _)) => REJECT_VERSION
      case Err(Truncated(_, _)) => REJECT_LENGTH
      case Err(LengthMismatch(_, _)) => REJECT_LENGTH
      case Err(_) => REJECT_INVALID
      case Ok(info) =>
        if info.scenario.kind == SCENARIO_NORMAL then READY
        else if info.scenario.kind == SCENARIO_DELIBERATE_PANIC then PANICKED
        else REJECT_INVALID
  }

  predicate AboutLength(e: ValidationError) {
    e.Truncated? || e.LengthMismatch?
  }

  predicate AboutRegion(e: ValidationError) {
    !AboutLength(e) && !e.UnsupportedVersion?
  }

  lemma {:induction false} PrefixErrorsAboutRegions(regions: seq<MemoryRegion>, n: nat)
    requires n <= |regions| <= 128
    ensures CheckPrefix(regions, n).Err? ==> AboutRegion(CheckPrefix(regions, n).error)
  {
    if n > 0 {
      PrefixErrorsAboutRegions(regions, n - 1);
    }
  }

  lemma {:induction false} UnusedErrorsAboutRegions(regions: seq<MemoryRegion>, i: nat)
    requires i <= |regions| <= 128
    ensures CheckUnused(regions, i).Err? ==> AboutRegion(CheckUnused(regions, i).error)
    decreases |regions| - i
  {
    if i < |regions| {
      UnusedErrorsAboutRegions(regions, i + 1);
    }
  }

  /**
    Once the kernel's own length check has passed, parsing never reports a length error,
    so that branch of the match is unreachable.
  */
  lemma LengthBranchUnreachable(bytes: Slice)
    requires |bytes| == BOOT_INFO_SIZE
    ensures Parse(bytes).Err? ==> !AboutLength(Parse(bytes).error)
  {
    hide HeaderAt, PlatformAt, ScenarioAt, RegionsAt, CheckPrefix, CheckUnused;
    var info := InfoAt(bytes);
    if info.header.memoryRegionCount <= 128 {
      PrefixErrorsAboutRegions(info.memoryRegions, info.header.memoryRegionCount);
      UnusedErrorsAboutRegions(info.memoryRegions, info.header.memoryRegionCount);
    }
  }

  // ---------------------------------------------------------------------------------
  // What each outcome means, on every pointer, length and byte string.
  // ---------------------------------------------------------------------------------

  predicate UsableRange(address: u64, length: usize) {
    address != 0 && address % 4096 == 0 && address + length < U64_LIMIT
  }

  /** The bytes are the encoding of a valid contract of this scenario. */
  ghost predicate HoldsContract(bytes: Slice, kind: u32) {
    exists info :: ValidContract(info) && bytes == InfoBytes(info) && info.scenario.kind == kind
  }

  lemma HoldsContractExactly(bytes: Slice, kind: u32)
    ensures HoldsContract(bytes, kind) <==> Parse(bytes).Ok? && Parse(bytes).value.scenario.kind == kind
    ensures HoldsContract(bytes, kind) ==> |bytes| == BOOT_INFO_SIZE
  {
    hide Parse, Validate, InfoBytes, ValidContract;
    if info :| ValidContract(info) && bytes == InfoBytes(info) && info.scenario.kind == kind {
      ValidateExactly(info);
      ParseInverse(bytes, info);
    }
    if Parse(bytes).Ok? {
      ParseInverse(bytes, Parse(bytes).value);
      ValidateExactly(Parse(bytes).value);
    }
  }

  lemma TwoBytes(b: seq<u8>)
    requires |b| == 2
    ensures LE.Value(b) == b[0] as int + 256 * b[1] as int
  {
    var rest := b[1..];
    assert rest[0] == b[1] && rest[1..] == [];
    assert LE.Value(rest) == rest[0] as int + 256 * LE.Value(rest[1..]);
  }

  /** Little-endian major 1 and minor 0 are the bytes 1, 0, 0, 0. */
  lemma VersionBytes(bytes: Slice)
    requires |bytes| == BOOT_INFO_SIZE
    ensures HeaderAt(bytes, 0).magic == bytes[..8]
    ensures (HeaderAt(bytes, 0).abiMajor, HeaderAt(bytes, 0).abiMinor) == (1, 0) <==> bytes[8..12] == [1, 0, 0, 0]
  {
    var major, minor, both := bytes[8..10], bytes[10..12], bytes[8..12];
    TwoBytes(major);
    TwoBytes(minor);
    assert both[0] == major[0] && both[1] == major[1] && both[2] == minor[0] && both[3] == minor[1];
    assert bytes[0..8] == bytes[..8];
    if both == [1, 0, 0, 0] {
      assert major[0] == 1 && major[1] == 0 && minor[0] == 0 && minor[1] == 0;
    }
    if major[0] == 1 && major[1] == 0 && minor[0] == 0 && minor[1] == 0 {
      assert both == [1, 0, 0, 0];
    }
  }

  lemma VersionErrorExactly(bytes: Slice)
    requires |bytes| == BOOT_INFO_SIZE
    ensures Parse(bytes).Err? && Parse(bytes).error.UnsupportedVersion?
       <==> HeaderAt(bytes, 0).magic == BOOT_MAGIC
            && (HeaderAt(bytes, 0).abiMajor, HeaderAt(bytes, 0).abiMinor) != (1, 0)
  {
    hide HeaderAt, PlatformAt, ScenarioAt, RegionsAt, CheckPrefix, CheckUnused;
    var info := InfoAt(bytes);
    if info.header.memoryRegionCount <= 128 {
      PrefixErrorsAboutRegions(info.memoryRegions, info.header.memoryRegionCount);
      UnusedErrorsAboutRegions(info.memoryRegions, info.header.memoryRegionCount);
    }
  }

  /**
    Readiness means a usable range holding the encoding of a valid normal contract; the panic
    means the same for the panic scenario. A length rejection means that the supplied length
    is not the contract size, and never anything inside the contract. A version rejection
    means the right magic with other version bytes. Everything else is rejected as invalid.
  */
  lemma KernelDecides(address: u64, length: usize, bytes: Slice)
    requires |bytes| == length
    ensures KernelMain(address, length, bytes) == READY
       <==> UsableRange(address, length) && HoldsContract(bytes, SCENARIO_NORMAL)
    ensures KernelMain(address, length, bytes) == PANICKED
       <==> UsableRange(address, length) && HoldsContract(bytes, SCENARIO_DELIBERATE_PANIC)
    ensures KernelMain(address, length, bytes) == REJECT_LENGTH <==> length != BOOT_INFO_SIZE
    ensures KernelMain(address, length, bytes) == REJECT_VERSION
       <==> && length == BOOT_INFO_SIZE && UsableRange(address, length)
            && bytes[..8] == BOOT_MAGIC && bytes[8..12] != [1, 0, 0, 0]
    ensures KernelMain(address, length, bytes) == REJECT_INVALID
       <==> && length == BOOT_INFO_SIZE
            && (UsableRange(address, length) ==>
                  && !HoldsContract(bytes, SCENARIO_NORMAL) && !HoldsContract(bytes, SCENARIO_DELIBERATE_PANIC)
                  && (bytes[..8] != BOOT_MAGIC || bytes[8..12] == [1, 0, 0, 0]))
    ensures KernelMain(address, length, bytes) in {READY, PANICKED, REJECT_LENGTH, REJECT_VERSION, REJECT_INVALID}
  {
    hide Parse, HoldsContract;
    HoldsContractExactly(bytes, SCENARIO_NORMAL);
    HoldsContractExactly(bytes, SCENARIO_DELIBERATE_PANIC);
    if length == BOOT_INFO_SIZE {
      LengthBranchUnreachable(bytes);
      VersionBytes(bytes);
      VersionErrorExactly(bytes);
    }
  }

  /** A wrong size field inside the contract is reported as invalid and not as a length rejection. */
  lemma SizeFaultIsInvalid(address: u64, bytes: Slice)
    requires |bytes| == BOOT_INFO_SIZE && UsableRange(address, |bytes|)
    requires bytes[..8] == BOOT_MAGIC && bytes[8..12] == [1, 0, 0, 0]
    requires var h := HeaderAt(bytes, 0);
             h.headerSize != 32 || h.totalSize != BOOT_INFO_SIZE || h.memoryRegionSize != 32
    ensures KernelMain(address, |bytes|, bytes) == REJECT_INVALID
  {
    hide HeaderAt, InfoAt, Validate;
    VersionBytes(bytes);
  }
}
