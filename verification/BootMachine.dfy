/** The whole boot: files, kernel loading, contract, handoff and kernel decision. */
module BootMachine {
  import opened Machine
  import opened ElfImage
  import ElfPlan
  import ElfSegments
  import opened Firmware
  import opened KernelLoader
  import opened BootContract
  import opened ContractCodec
  import opened MemoryMap
  import opened KernelEntry
  import opened LoaderControl

  /** What was read from the boot volume. */
  datatype Files = Files(kernel: Slice, scenario: BootScenario)

  datatype Prepared = Prepared(entryPoint: u64, storageBase: u64, storageSize: nat, scenario: BootScenario)

  const STORAGE_PAGES: nat := 2
  const STORAGE_BYTES: nat := 8192

  function KernelSegments(kernel: Slice): seq<LoadSegment>
    requires ElfPlan.Parse(kernel).Ok?
  {
    ElfSegments.SegmentsIn(ElfPlan.Parse(kernel).value)
  }

  ghost predicate KernelInMemory(ram: seq<u8>, segments: seq<LoadSegment>) {
    forall k | 0 <= k < |segments| :: HoldsImage(ram, segments[k])
  }

  /** The pages the kernel needs: its segments and the stack guard, which no segment may cover. */
  ghost predicate Placeable(segments: seq<LoadSegment>, free: set<int>) {
    AllFree(segments, free) && GUARD_PAGE in free - PlanPages(segments)
  }

  ghost predicate StorageApart(segments: seq<LoadSegment>, base: int, ramLength: int) {
    && 0 < base && base % PAGE_SIZE == 0 && base + STORAGE_BYTES <= ramLength
    && PageRun(base / PAGE_SIZE, STORAGE_PAGES) !! PlanPages(segments)
  }

  lemma AcceptedIsParsed(kernel: Slice)
    requires ElfPlan.Parse(kernel).Ok?
    ensures ElfPlan.Parse(ElfPlan.Parse(kernel).value.bytes) == ElfPlan.Parse(kernel)
  {
    hide ElfPlan.ScanResult, ValidateIdentification, ParseHeader;
  }

  lemma ParsedBytes(kernel: Slice)
    requires ElfPlan.Parse(kernel).Ok?
    ensures ElfPlan.Parse(kernel).value.bytes == kernel
  {
    hide ElfPlan.ScanResult, ValidateIdentification, ParseHeader;
  }

  predicate Accepted(files: Result<Files, LoaderError>) {
    files.Ok? && ElfPlan.Parse(files.value.kernel).Ok?
  }

  /**
    What `prepare_kernel` returns: the first cause of failure in this order, or the parsed
    entry point with two pages that the firmware offers apart from the kernel and the guard.
  */
  ghost function PrepareResult(files: Result<Files, LoaderError>, free: set<int>, offer: Option<int>)
    : Result<Prepared, LoaderError>
  {
    if files.Err? then Err(files.error)
    else if !Accepted(files) then Err(ElfInvalid)
    else
      var segments := KernelSegments(files.value.kernel);
      if !Placeable(segments, free) then Err(KernelAddress)
      else if !Grants(offer, STORAGE_PAGES, free - PlanPages(segments) - {GUARD_PAGE}) then Err(ContractStorage)
      else
        var entryPoint := ElfPlan.Parse(files.value.kernel).value.entryPoint;
        Ok(Prepared(entryPoint, offer.value * PAGE_SIZE, STORAGE_BYTES, files.value.scenario))
  }

  /** No byte outside the pages of the plan changed. */
  ghost predicate OnlyPlanChanged(before: seq<u8>, after: seq<u8>, segments: seq<LoadSegment>) {
    |after| == |before| && forall a | 0 <= a < |before| && Uncovered(segments, a) :: after[a] == before[a]
  }

  lemma PrefixChangesLess(before: seq<u8>, after: seq<u8>, segments: seq<LoadSegment>, k: nat)
    requires k <= |segments| && MemoryImage(before, after, segments[..k])
    ensures OnlyPlanChanged(before, after, segments)
  {
    forall a | 0 <= a < |before| && Uncovered(segments, a)
      ensures after[a] == before[a]
    {
      assert Uncovered(segments[..k], a);
    }
  }

  lemma OfferedApart(segments: seq<LoadSegment>, offer: Option<int>, free: set<int>, ramLength: nat)
    requires Grants(offer, STORAGE_PAGES, free - PlanPages(segments) - {GUARD_PAGE})
    requires forall p | p in free :: 0 <= p && (p + 1) * PAGE_SIZE <= ramLength
    ensures StorageApart(segments, offer.value * PAGE_SIZE, ramLength)
  {
    hide PlanPages;
    assert offer.value + 1 in PageRun(offer.value, STORAGE_PAGES);
  }

  /**
    `prepare_kernel`: the result is the first cause of failure or the prepared kernel, and
    memory changes only under the plan; on success it holds the kernel's whole image.
  */
  method PrepareKernel(fw: Memory, files: Result<Files, LoaderError>, offer: Option<int>)
    returns (r: Result<Prepared, LoaderError>)
    requires fw.Valid()
    modifies fw`free, fw.ram
    ensures fw.Valid()
    ensures r == PrepareResult(files, old(fw.free), offer)
    ensures !Accepted(files) ==> fw.ram[..] == old(fw.ram[..]) && fw.free == old(fw.free)
    ensures Accepted(files) ==> OnlyPlanChanged(old(fw.ram[..]), fw.ram[..], KernelSegments(files.value.kernel))
    ensures r.Ok? ==>
              var segments := KernelSegments(files.value.kernel);
              && MemoryImage(old(fw.ram[..]), fw.ram[..], segments)
              && StorageApart(segments, r.value.storageBase, fw.ram.Length)
              && fw.free == old(fw.free) - PlanPages(segments) - {GUARD_PAGE} - PageRun(offer.value, STORAGE_PAGES)
  {
    hide ElfPlan.Parse, MemoryImage, OnlyPlanChanged, StorageApart, SegmentPages, ElfSegments.Yields, AllFree;
    if files.Err? {
      return Err(files.error);
    }
    var kernel := files.value.kernel;
    var parsed := ElfPlan.Parse(kernel);
    if parsed.Err? {
      return Err(ElfInvalid);
    }
    AcceptedIsParsed(kernel);
    var elf := parsed.value;
    ghost var segments := ElfSegments.SegmentsIn(elf);
    ElfSegments.ParsedSegmentsLoadable(elf);
    var loaded, k := LoadSegments(fw, elf);
    PrefixChangesLess(old(fw.ram[..]), fw.ram[..], segments, k);
    if loaded.Err? {
      return Err(loaded.error);
    }
    assert segments[..k] == segments;
    var guarded := ReserveStackGuard(fw);
    if guarded.Err? {
      return Err(guarded.error);
    }
    var base := fw.AllocateAny(STORAGE_PAGES, offer);
    if base.None? {
      return Err(ContractStorage);
    }
    OfferedApart(segments, offer, old(fw.free), fw.ram.Length);
    return Ok(Prepared(elf.entryPoint, base.value, STORAGE_BYTES, files.value.scenario));
  }

  /**
    From file to memory, byte for byte: for every load record whose 56 bytes stand in the
    program-header table of an accepted kernel, memory holds the file bytes it names at the
    address it names, and zeros up to its memory size.
  */
  lemma LoadedByteForByte(kernel: Slice, ram: seq<u8>, index: u16, h: ProgramHeader, j: nat)
    requires ElfPlan.Parse(kernel).Ok?
    requires ElfSegments.RecordAt(ElfPlan.Parse(kernel).value, index, h) && h.kind == 1 && j < h.memorySize
    requires KernelInMemory(ram, KernelSegments(kernel))
    ensures h.physicalAddress + j < |ram|
    ensures j < h.fileSize ==> h.fileOffset + j < |kernel| && ram[h.physicalAddress + j] == kernel[h.fileOffset + j]
    ensures h.fileSize <= j ==> ram[h.physicalAddress + j] == 0
  {
    hide ElfPlan.Parse, ElfSegments.Yields, ElfSegments.RecordAt;
    var elf := ElfPlan.Parse(kernel).value;
    AcceptedIsParsed(kernel);
    assert elf.bytes == kernel by { ParsedBytes(kernel); }
    var k := ElfSegments.RecordYielded(elf, index, h);
    ElfSegments.ParsedSegmentsLoadable(elf);
    var s := KernelSegments(kernel)[k];
    assert HoldsImage(ram, s) && ElfSegments.LoadableSegment(s);
    assert h.physicalAddress + j < ElfSegments.SegmentPageEnd(s);
    assert ram[h.physicalAddress + j] == ImageByte(s, h.physicalAddress + j);
  }

  lemma ImageOfAll(before: seq<u8>, after: seq<u8>, segments: seq<LoadSegment>)
    requires MemoryImage(before, after, segments)
    ensures KernelInMemory(after, segments)
  {
  }

  /** Writing the contract into its own pages cannot disturb the loaded kernel. */
  lemma ContractLeavesKernel(before: seq<u8>, after: seq<u8>, segments: seq<LoadSegment>, base: int)
    requires ElfSegments.LoadableSegments(segments)
    requires KernelInMemory(before, segments)
    requires StorageApart(segments, base, |before|)
    requires ChangedOnlyIn(before, after, base, base + STORAGE_BYTES)
    ensures KernelInMemory(after, segments)
  {
    hide SegmentPages, ElfSegments.SegmentPageEnd;
    forall k | 0 <= k < |segments|
      ensures HoldsImage(after, segments[k])
    {
      var s := segments[k];
      assert HoldsImage(before, s);
      forall a | s.physicalAddress <= a < ElfSegments.SegmentPageEnd(s)
        ensures after[a] == before[a]
      {
        CoveredPage(s, a);
        PlanPagesContain(segments, k);
        StoragePage(base, a);
        SameOutside(before, after, base, base + STORAGE_BYTES, a);
      }
    }
  }

  lemma StoragePage(base: nat, a: nat)
    requires base % PAGE_SIZE == 0
    ensures base <= a < base + STORAGE_BYTES <==> a / PAGE_SIZE in PageRun(base / PAGE_SIZE, STORAGE_PAGES)
  {
    assert base == 4096 * (base / 4096);
  }

  lemma SameOutside(before: seq<u8>, after: seq<u8>, start: nat, end: nat, a: nat)
    requires ChangedOnlyIn(before, after, start, end) && a < |before| && !(start <= a < end)
    ensures after[a] == before[a]
  {
    if a < start {
      assert after[..start][a] == before[..start][a];
    } else {
      assert after[end..][a - end] == before[end..][a - end];
    }
  }

  /** The kernel outcome each scenario is built to produce. */
  function ExpectedOutcome(scenario: BootScenario): KernelOutcome {
    match scenario
    case Normal => READY
    case IncompatibleVersion => REJECT_VERSION
    case TruncatedContract => REJECT_LENGTH
    case DeliberatePanic => PANICKED
  }

  /** For every encodable map the handed-over bytes drive the kernel to the scenario's outcome. */
  lemma HandoffOutcome(m: Map, scenario: BootScenario, base: u64, bytes: Slice)
    requires Encodable(m)
    requires base != 0 && base % 4096 == 0 && base + BOOT_INFO_SIZE < U64_LIMIT
    requires bytes == HandoffBytes(m, scenario)[..HandoffLength(scenario)]
    ensures KernelMain(base, HandoffLength(scenario), bytes) == ExpectedOutcome(scenario)
  {
    hide ContractCodec.Parse, HandoffBytes, Encodable;
    assert |HandoffBytes(m, scenario)| == BOOT_INFO_SIZE by { HandoffSize(m, scenario); }
    if scenario != TruncatedContract {
      assert bytes == HandoffBytes(m, scenario);
    }
    match scenario
    case Normal => var info := MapConserved(m, scenario);
    case DeliberatePanic => var info := MapConserved(m, scenario);
    case IncompatibleVersion => BadVersionRejected(m);
    case TruncatedContract =>
  }

  lemma HandoffSize(m: Map, scenario: BootScenario)
    requires Encodable(m)
    ensures |HandoffBytes(m, scenario)| == BOOT_INFO_SIZE
  {
    hide InfoBytes;
  }

  /**
    Memory side of the boot: the handoff is reached exactly when preparation succeeds and
    the map is encodable; the kernel then reaches the scenario's outcome with its image
    still intact in memory.
  */
  method HandOff(fw: Memory, files: Files, prepared: Prepared, m: Map) returns (r: Result<KernelOutcome, LoaderError>)
    requires fw.Valid() && ElfPlan.Parse(files.kernel).Ok?
    requires prepared.scenario == files.scenario && prepared.storageSize == STORAGE_BYTES
    requires StorageApart(KernelSegments(files.kernel), prepared.storageBase, fw.ram.Length)
    requires KernelInMemory(fw.ram[..], KernelSegments(files.kernel))
    modifies fw.ram
    ensures fw.Valid()
    ensures r == if Encodable(m) then Ok(ExpectedOutcome(files.scenario)) else Err(Contract)
    ensures KernelInMemory(fw.ram[..], KernelSegments(files.kernel))
    ensures ChangedOnlyIn(old(fw.ram[..]), fw.ram[..], prepared.storageBase, prepared.storageBase + STORAGE_BYTES)
  {
    hide ElfPlan.Parse, HoldsImage, SegmentPages, ElfSegments.Yields, KernelMain, HandoffBytes, Encodable;
    ghost var segments := KernelSegments(files.kernel);
    AcceptedIsParsed(files.kernel);
    ElfSegments.ParsedSegmentsLoadable(ElfPlan.Parse(files.kernel).value);
    ghost var before := fw.ram[..];
    var base := prepared.storageBase;
    var length := EncodeContract(m, fw.ram, base, prepared.storageSize, prepared.scenario);
    ContractLeavesKernel(before, fw.ram[..], segments, base);
    if length.Err? {
      return Err(length.error);
    }
    var bytes := fw.ram[base..base + length.value];
    assert bytes == fw.ram[base..base + BOOT_INFO_SIZE][..length.value];
    HandoffOutcome(m, prepared.scenario, base, bytes);
    return Ok(KernelMain(base, length.value, bytes));
  }

  /** What can go wrong while the files are read. */
  const FILE_ERRORS: set<LoaderError> := {FileRead, ConfigInvalid, ElfInvalid, Allocation}

  /** The event that ends a boot. */
  ghost function LastEvent(prepared: Result<Prepared, LoaderError>, m: Map): Event {
    match prepared
    case Err(error) => Fail(error)
    case Ok(p) => if Encodable(m) then EnterKernel(ExpectedOutcome(p.scenario)) else Fail(Contract)
  }

  /**
    The whole machine, without panics: a run of the loader's control flow whose preparation
    is decided by the files, the free pages and the firmware's offer, and whose last event is
    decided by that and the map; a run that enters the kernel leaves its image in memory.
  */
  method RunBoot(fw: Memory, files: Result<Files, LoaderError>, offer: Option<int>, m: Map)
    returns (run: Run, prepared: Result<Prepared, LoaderError>)
    requires fw.Valid()
    requires files.Err? ==> files.error in FILE_ERRORS
    modifies fw`free, fw.ram
    ensures prepared == PrepareResult(files, old(fw.free), offer)
    ensures ValidRun(run) && run.events != [] && run.events[|run.events| - 1] == LastEvent(prepared, m)
    ensures prepared.Ok? ==> Accepted(files) && KernelInMemory(fw.ram[..], KernelSegments(files.value.kernel))
  {
    hide ElfPlan.Parse, ElfSegments.Yields, Encodable, Placeable, KernelInMemory, StorageApart, ValidRun, MemoryImage,
         OnlyPlanChanged, Grants, ToPrepare, ToEncode, ToTransfer, Step;
    run := ToPrepare();
    prepared := PrepareKernel(fw, files, offer);
    if prepared.Err? {
      assert prepared.error != Contract;
      run := Extend(run, Fail(prepared.error));
      return;
    }
    ImageOfAll(old(fw.ram[..]), fw.ram[..], KernelSegments(files.value.kernel));
    run := ToEncode(run);
    var outcome := HandOff(fw, files.value, prepared.value, m);
    if outcome.Err? {
      run := Extend(run, Fail(outcome.error));
      return;
    }
    run := Extend(ToTransfer(run), EnterKernel(outcome.value));
  }
}
