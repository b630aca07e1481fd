/** The host-side inspector: agreement between the linker map and the ELF load segments. */
module KernelLayout {
  import opened Machine
  import opened BitMask
  import opened ElfImage
  import ElfPlan
  import ElfSegments
  import opened Firmware
  import opened KernelLoader
  import BootMachine

  const KERNEL_BASE_ADDRESS: u64 := 0x0400_0000
  const KERNEL_LOAD_LIMIT: u64 := 0x0480_0000
  const STACK_BASE_ADDRESS: u64 := 0x0480_0000
  const STACK_SIZE_BYTES: u64 := 0x0001_0000
  const STACK_TOP: u64 := 0x0481_0000
  const EXPECTED_SEGMENTS: nat := 4

  datatype MapSection = MapSection(address: u64, size: u64, line: nat)

  datatype MapLayout = MapLayout(
    sections: map<string, MapSection>, constants: map<string, u64>, symbols: map<string, u64>,
    sawLoadEndExpression: bool)

  datatype Fault =
    | SegmentCount | EntryPoint
    | MissingName(name: string) | WrongValue(name: string) | MissingLoadEnd
    | MissingSection(name: string) | SectionOverflow(name: string) | OutOfOrder(name: string)
    | BadSection(name: string) | Overlap(name: string) | BadGuard | BadStack | Alignment | LoadReachesGuard
    | SegmentMismatch(name: string) | GuardMapped

  function Section(m: MapLayout, name: string): Result<MapSection, Fault> {
    if name in m.sections then Ok(m.sections[name]) else Err(MissingSection(name))
  }

  function End(s: MapSection, name: string): Result<u64, Fault> {
    CheckedAdd(s.address, s.size).OkOr(SectionOverflow(name))
  }

  /** The inspector's `align_up` refuses an alignment that is not a power of two. */
  function AlignAddress(value: u64, alignment: u64): Result<u64, Fault> {
    if !IsPowerOfTwo(alignment) then Err(Alignment) else AlignUp(value, alignment).OkOr(Alignment)
  }

  function Ensure(ok: bool, fault: Fault): Result<(), Fault> {
    if ok then Ok(()) else Err(fault)
  }

  /** Each named value must be present and equal to what is expected. */
  function CheckValues(values: map<string, u64>, expected: seq<(string, int)>): Result<(), Fault> {
    if expected == [] then Ok(())
    else
      var (name, value) := expected[0];
      if name !in values then Err(MissingName(name))
      else if values[name] != value then Err(WrongValue(name))
      else CheckValues(values, expected[1..])
  }

  predicate HasValues(values: map<string, u64>, expected: seq<(string, int)>) {
    forall i | 0 <= i < |expected| :: HasValue(values, expected[i])
  }

  predicate HasValue(values: map<string, u64>, expected: (string, int)) {
    expected.0 in values && values[expected.0] == expected.1
  }

  /** The check passes exactly when every expected name has its expected value. */
  lemma {:induction false} CheckValuesExact(values: map<string, u64>, expected: seq<(string, int)>)
    ensures CheckValues(values, expected).Ok? <==> HasValues(values, expected)
  {
    if expected != [] {
      CheckValuesExact(values, expected[1..]);
      assert forall i | 0 < i < |expected| :: expected[i] == expected[1..][i - 1];
    }
  }

  /** The first name that is absent or bound otherwise is the one reported. */
  lemma {:induction false} CheckValuesReports(values: map<string, u64>, expected: seq<(string, int)>, k: nat)
    requires k < |expected| && !HasValue(values, expected[k]) && forall i | 0 <= i < k :: HasValue(values, expected[i])
    ensures CheckValues(values, expected)
         == Err(if expected[k].0 in values then WrongValue(expected[k].0) else MissingName(expected[k].0))
  {
    if k > 0 {
      assert HasValue(values, expected[0]);
      CheckValuesReports(values, expected[1..], k - 1);
    }
  }

  const EXPECTED_CONSTANTS: seq<(string, int)> := [
    ("KERNEL_BASE", KERNEL_BASE_ADDRESS), ("KERNEL_LOAD_LIMIT", KERNEL_LOAD_LIMIT),
    ("KERNEL_STACK_GUARD_BASE", STACK_GUARD_ADDRESS), ("KERNEL_STACK_BASE", STACK_BASE_ADDRESS),
    ("KERNEL_STACK_SIZE", STACK_SIZE_BYTES), ("PAGE_SIZE", PAGE_SIZE)]

  function ExpectedSymbols(text: MapSection, rodata: MapSection, data: MapSection, bss: MapSection, entry: u64)
    : seq<(string, int)>
  {
    [("__kernel_start", KERNEL_BASE_ADDRESS),
     ("__text_start", text.address), ("__text_end", text.address + text.size),
     ("__rodata_start", rodata.address), ("__rodata_end", rodata.address + rodata.size),
     ("__data_start", data.address), ("__data_end", data.address + data.size),
     ("__bss_start", bss.address), ("__bss_end", bss.address + bss.size),
     ("__bootstrap_stack_guard_start", STACK_GUARD_ADDRESS),
     ("__bootstrap_stack_guard_end", STACK_BASE_ADDRESS),
     ("__bootstrap_stack_bottom", STACK_BASE_ADDRESS),
     ("__bootstrap_stack_top", STACK_TOP), ("__kernel_end", STACK_TOP),
     ("polytope_kernel_entry", entry)]
  }

  function ValidateConstantsAndSymbols(m: MapLayout, entry: u64): Result<(), Fault> {
    var _ :- CheckValues(m.constants, EXPECTED_CONSTANTS);
    var text :- Section(m, ".text");
    var rodata :- Section(m, ".rodata");
    var data :- Section(m, ".data");
    var bss :- Section(m, ".bss");
    var _ :- End(text, ".text");
    var _ :- End(rodata, ".rodata");
    var _ :- End(data, ".data");
    var _ :- End(bss, ".bss");
    var _ :- CheckValues(m.symbols, ExpectedSymbols(text, rodata, data, bss, entry));
    Ensure(m.sawLoadEndExpression, MissingLoadEnd)
  }

  const SECTION_NAMES: seq<string> := [".text", ".rodata", ".data", ".bss", ".stack_guard", ".stack"]

  /** The first `n` sections are present and on strictly increasing map lines. */
  predicate OrderedSections(m: MapLayout, n: nat)
    requires n <= |SECTION_NAMES|
  {
    && (forall i | 0 <= i < n :: SECTION_NAMES[i] in m.sections)
    && (forall i, j | 0 <= i < j < n :: m.sections[SECTION_NAMES[i]].line < m.sections[SECTION_NAMES[j]].line)
  }

  /** The last line seen after the first `n` sections, or the first fault. */
  function OrderPrefix(m: MapLayout, n: nat): Result<Option<nat>, Fault>
    requires n <= |SECTION_NAMES|
  {
    if n == 0 then Ok(None)
    else
      var previous :- OrderPrefix(m, n - 1);
      var section :- Section(m, SECTION_NAMES[n - 1]);
      if previous.Some? && section.line <= previous.value then Err(OutOfOrder(SECTION_NAMES[n - 1]))
      else Ok(Some(section.line))
  }

  lemma {:induction false} FirstFaultStands(m: MapLayout, n: nat, k: nat)
    requires n <= k <= |SECTION_NAMES| && OrderPrefix(m, n).Err?
    ensures OrderPrefix(m, k) == OrderPrefix(m, n)
  {
    if n < k {
      FirstFaultStands(m, n, k - 1);
    }
  }

  /** Comparing each line with the previous one orders all of them. */
  lemma {:induction false} OrderPrefixExact(m: MapLayout, n: nat)
    requires n <= |SECTION_NAMES|
    ensures OrderPrefix(m, n).Ok? <==> OrderedSections(m, n)
    ensures OrderPrefix(m, n).Ok? && n > 0 ==>
              OrderPrefix(m, n).value == Some(m.sections[SECTION_NAMES[n - 1]].line)
  {
    if n > 0 {
      OrderPrefixExact(m, n - 1);
    }
  }

  /** `validate_section_order` as its loop. */
  method ValidateSectionOrder(m: MapLayout) returns (r: Result<(), Fault>)
    ensures r == SectionOrder(m)
  {
    var previousLine: Option<nat> := None;
    var i := 0;
    while i < |SECTION_NAMES|
      invariant 0 <= i <= |SECTION_NAMES|
      invariant OrderPrefix(m, i) == Ok(previousLine)
    {
      if OrderPrefix(m, i + 1).Err? {
        FirstFaultStands(m, i + 1, |SECTION_NAMES|);
      }
      var name := SECTION_NAMES[i];
      var section := Section(m, name);
      if section.Err? {
        return Err(section.error);
      }
      if previousLine.Some? && section.value.line <= previousLine.value {
        return Err(OutOfOrder(name));
      }
      previousLine := Some(section.value.line);
      i := i + 1;
    }
    return Ok(());
  }

  function SectionOrder(m: MapLayout): Result<(), Fault> {
    var _ :- OrderPrefix(m, |SECTION_NAMES|);
    Ok(())
  }

  function ZeroFill(s: LoadSegment): int {
    s.memorySize - s.fileSize
  }

  predicate MatchesSection(s: LoadSegment, section: MapSection, flags: u32, exactMemorySize: bool) {
    && s.flags == flags
    && s.physicalAddress == section.address
    && s.virtualAddress == s.physicalAddress
    && s.fileSize == section.size
    && (exactMemorySize ==> s.memorySize == section.size)
    && s.alignment == PAGE_SIZE
  }

  function ValidateDataSegment(s: LoadSegment, data: MapSection, bss: MapSection): Result<(), Fault> {
    var _ :- Ensure(MatchesSection(s, data, PF_R + PF_W, false), SegmentMismatch(".data"));
    var _ :- Ensure(ZeroFill(s) >= bss.size, SegmentMismatch(".bss"));
    var bssEnd :- End(bss, ".bss");
    var _ :- Ensure(CheckedAdd(s.physicalAddress, s.memorySize) == Some(bssEnd), SegmentMismatch(".bss"));
    var dataEnd :- End(data, ".data");
    Ensure(CheckedAdd(s.physicalAddress, s.fileSize) == Some(dataEnd), SegmentMismatch(".data"))
  }

  function ValidateStackSegment(s: LoadSegment, stack: MapSection): Result<(), Fault> {
    var _ :- Ensure(s.flags == PF_R + PF_W
                    && s.physicalAddress == STACK_BASE_ADDRESS && s.virtualAddress == STACK_BASE_ADDRESS
                    && s.fileSize == 0
                    && s.memorySize == STACK_SIZE_BYTES && ZeroFill(s) == STACK_SIZE_BYTES
                    && s.alignment == PAGE_SIZE, SegmentMismatch(".stack"));
    var stackEnd :- End(stack, ".stack");
    Ensure(stackEnd == STACK_TOP, BadStack)
  }

  predicate AvoidsGuard(s: LoadSegment) {
    match CheckedAdd(s.physicalAddress, s.memorySize)
    case Some(end) => end <= STACK_GUARD_ADDRESS || s.physicalAddress >= STACK_BASE_ADDRESS
    case None => false
  }

  function ValidateCombined(entry: u64, segments: seq<LoadSegment>, m: MapLayout): Result<(), Fault> {
    var _ :- Ensure(|segments| == EXPECTED_SEGMENTS, SegmentCount);
    var _ :- Ensure(entry == KERNEL_BASE_ADDRESS, EntryPoint);
    var _ :- ValidateConstantsAndSymbols(m, entry);
    var _ :- SectionOrder(m);
    var text :- Section(m, ".text");
    var rodata :- Section(m, ".rodata");
    var data :- Section(m, ".data");
    var bss :- Section(m, ".bss");
    var guard :- Section(m, ".stack_guard");
    var stack :- Section(m, ".stack");
    var _ :- Ensure(text.address == KERNEL_BASE_ADDRESS && text.size > 0, BadSection(".text"));
    var _ :- Ensure(rodata.address % PAGE_SIZE == 0 && rodata.size > 0, BadSection(".rodata"));
    var _ :- Ensure(data.address % PAGE_SIZE == 0 && data.size > 0, BadSection(".data"));
    var _ :- Ensure(bss.address % PAGE_SIZE == 0 && bss.size > 0, BadSection(".bss"));
    var textEnd :- End(text, ".text");
    var _ :- Ensure(textEnd <= rodata.address, Overlap(".text"));
    var rodataEnd :- End(rodata, ".rodata");
    var _ :- Ensure(rodataEnd <= data.address, Overlap(".rodata"));
    var dataEnd :- End(data, ".data");
    var _ :- Ensure(dataEnd <= bss.address, Overlap(".data"));
    var _ :- Ensure(guard.address == STACK_GUARD_ADDRESS && guard.size == PAGE_SIZE, BadGuard);
    var _ :- Ensure(stack.address == STACK_BASE_ADDRESS && stack.size == STACK_SIZE_BYTES, BadStack);
    var bssEnd :- End(bss, ".bss");
    var loadEnd :- AlignAddress(bssEnd, PAGE_SIZE);
    var _ :- Ensure(loadEnd <= STACK_GUARD_ADDRESS, LoadReachesGuard);
    var _ :- Ensure(MatchesSection(segments[0], text, PF_R + PF_X, true), SegmentMismatch(".text"));
    var _ :- Ensure(MatchesSection(segments[1], rodata, PF_R, true), SegmentMismatch(".rodata"));
    var _ :- ValidateDataSegment(segments[2], data, bss);
    var _ :- ValidateStackSegment(segments[3], stack);
    Ensure(forall k | 0 <= k < |segments| :: AvoidsGuard(segments[k]), GuardMapped)
  }

  // ---------------------------------------------------------------------------------
  // What a combined pass means.
  // ---------------------------------------------------------------------------------

  predicate HasSections(m: MapLayout) {
    && ".text" in m.sections && ".rodata" in m.sections && ".data" in m.sections && ".bss" in m.sections
    && ".stack_guard" in m.sections && ".stack" in m.sections
  }

  predicate ListedInOrder(m: MapLayout)
    requires HasSections(m)
  {
    && m.sections[".text"].line < m.sections[".rodata"].line < m.sections[".data"].line
    && m.sections[".data"].line < m.sections[".bss"].line
    && m.sections[".bss"].line < m.sections[".stack_guard"].line < m.sections[".stack"].line
  }

  /** The sections lie in this order without overlap, each from a page boundary, all below the guard page. */
  predicate LaidOut(m: MapLayout)
    requires HasSections(m)
  {
    var text, rodata, data, bss := m.sections[".text"], m.sections[".rodata"], m.sections[".data"], m.sections[".bss"];
    && text.size > 0 && rodata.size > 0 && data.size > 0 && bss.size > 0
    && text.address == 0x0400_0000 && text.address + text.size <= rodata.address
    && rodata.address + rodata.size <= data.address && data.address + data.size <= bss.address
    && bss.address + bss.size <= 0x047f_f000
    && rodata.address % 4096 == data.address % 4096 == bss.address % 4096 == 0
    && m.sections[".stack_guard"].address == 0x047f_f000 && m.sections[".stack_guard"].size == 4096
    && m.sections[".stack"].address == 0x0480_0000 && m.sections[".stack"].size == 0x1_0000
  }

  predicate Backs(s: LoadSegment, address: int, fileSize: int, memorySize: int, flags: u32) {
    && s.physicalAddress == s.virtualAddress == address
    && s.fileSize == fileSize && s.memorySize == memorySize && s.flags == flags && s.alignment == 4096
  }

  /** Four segments: text, rodata, data with `.bss` as its zero fill, and the stack; none writable and executable. */
  predicate SegmentsBack(segments: seq<LoadSegment>, m: MapLayout)
    requires HasSections(m)
  {
    var text, rodata, data, bss := m.sections[".text"], m.sections[".rodata"], m.sections[".data"], m.sections[".bss"];
    && |segments| == 4
    && Backs(segments[0], text.address, text.size, text.size, 5)
    && Backs(segments[1], rodata.address, rodata.size, rodata.size, 4)
    && Backs(segments[2], data.address, data.size, bss.address + bss.size - data.address, 6)
    && Backs(segments[3], 0x0480_0000, 0, 0x1_0000, 6)
  }

  /** The map binds the name to the value. */
  predicate Binds(values: map<string, u64>, name: string, value: int) {
    name in values && values[name] == value
  }

  predicate ConstantsAgree(m: MapLayout) {
    && Binds(m.constants, "KERNEL_BASE", 0x0400_0000) && Binds(m.constants, "KERNEL_LOAD_LIMIT", 0x0480_0000)
    && Binds(m.constants, "KERNEL_STACK_GUARD_BASE", 0x047f_f000)
    && Binds(m.constants, "KERNEL_STACK_BASE", 0x0480_0000)
    && Binds(m.constants, "KERNEL_STACK_SIZE", 0x1_0000) && Binds(m.constants, "PAGE_SIZE", 4096)
  }

  /** Every section is bracketed by its symbols, and so are guard, stack and kernel. */
  predicate SymbolsAgree(entry: u64, m: MapLayout)
    requires HasSections(m)
  {
    var text, rodata, data, bss := m.sections[".text"], m.sections[".rodata"], m.sections[".data"], m.sections[".bss"];
    && Binds(m.symbols, "__kernel_start", 0x0400_0000) && Binds(m.symbols, "__kernel_end", 0x0481_0000)
    && Binds(m.symbols, "__text_start", text.address) && Binds(m.symbols, "__text_end", text.address + text.size)
    && Binds(m.symbols, "__rodata_start", rodata.address)
    && Binds(m.symbols, "__rodata_end", rodata.address + rodata.size)
    && Binds(m.symbols, "__data_start", data.address) && Binds(m.symbols, "__data_end", data.address + data.size)
    && Binds(m.symbols, "__bss_start", bss.address) && Binds(m.symbols, "__bss_end", bss.address + bss.size)
    && Binds(m.symbols, "__bootstrap_stack_guard_start", 0x047f_f000)
    && Binds(m.symbols, "__bootstrap_stack_guard_end", 0x0480_0000)
    && Binds(m.symbols, "__bootstrap_stack_bottom", 0x0480_0000)
    && Binds(m.symbols, "__bootstrap_stack_top", 0x0481_0000)
    && Binds(m.symbols, "polytope_kernel_entry", entry)
  }

  predicate NamesAgree(entry: u64, m: MapLayout)
    requires HasSections(m)
  {
    m.sawLoadEndExpression && ConstantsAgree(m) && SymbolsAgree(entry, m)
  }

  lemma ConstantsExactly(m: MapLayout)
    ensures HasValues(m.constants, EXPECTED_CONSTANTS) <==> ConstantsAgree(m)
  {
    var e := EXPECTED_CONSTANTS;
    assert forall i | 0 <= i < |e| :: HasValue(m.constants, e[i]) <==> Binds(m.constants, e[i].0, e[i].1);
    assert HasValue(m.constants, e[0]) && HasValue(m.constants, e[1]) && HasValue(m.constants, e[2])
        && HasValue(m.constants, e[3]) && HasValue(m.constants, e[4]) && HasValue(m.constants, e[5])
        <==> HasValues(m.constants, e);
  }

  lemma SymbolsExactly(entry: u64, m: MapLayout)
    requires HasSections(m)
    ensures HasValues(m.symbols, ExpectedSymbols(m.sections[".text"], m.sections[".rodata"], m.sections[".data"],
                                                 m.sections[".bss"], entry))
       <==> SymbolsAgree(entry, m)
  {
    var text, rodata, data, bss := m.sections[".text"], m.sections[".rodata"], m.sections[".data"], m.sections[".bss"];
    var e := ExpectedSymbols(text, rodata, data, bss, entry);
    hide HasValues;
    Fifteen(m.symbols, e);
  }

  lemma Fifteen(values: map<string, u64>, e: seq<(string, int)>)
    requires |e| == 15
    ensures HasValues(values, e)
       <==> && HasValue(values, e[0]) && HasValue(values, e[1]) && HasValue(values, e[2]) && HasValue(values, e[3])
            && HasValue(values, e[4]) && HasValue(values, e[5]) && HasValue(values, e[6]) && HasValue(values, e[7])
            && HasValue(values, e[8]) && HasValue(values, e[9]) && HasValue(values, e[10]) && HasValue(values, e[11])
            && HasValue(values, e[12]) && HasValue(values, e[13]) && HasValue(values, e[14])
  {
    hide HasValue;
  }

  predicate AgreedLayout(entry: u64, segments: seq<LoadSegment>, m: MapLayout) {
    && entry == 0x0400_0000
    && HasSections(m) && ListedInOrder(m) && LaidOut(m) && NamesAgree(entry, m) && SegmentsBack(segments, m)
  }

  lemma SectionOrderExact(m: MapLayout)
    ensures SectionOrder(m).Ok? <==> HasSections(m) && ListedInOrder(m)
  {
    OrderPrefixExact(m, 6);
    var names := SECTION_NAMES;
    assert names[0] == ".text" && names[1] == ".rodata" && names[2] == ".data";
    assert names[3] == ".bss" && names[4] == ".stack_guard" && names[5] == ".stack";
  }

  lemma NamesExact(entry: u64, m: MapLayout)
    requires HasSections(m) && LaidOut(m)
    ensures ValidateConstantsAndSymbols(m, entry).Ok? <==> NamesAgree(entry, m)
  {
    hide CheckValues, HasValues, ExpectedSymbols, ConstantsAgree, SymbolsAgree;
    ConstantsExactly(m);
    SymbolsExactly(entry, m);
    CheckValuesExact(m.constants, EXPECTED_CONSTANTS);
    CheckValuesExact(m.symbols, ExpectedSymbols(m.sections[".text"], m.sections[".rodata"], m.sections[".data"],
                                                m.sections[".bss"], entry));
  }

  lemma BelowGuard(bss: MapSection)
    requires bss.address + bss.size < U64_LIMIT
    ensures (var end := AlignAddress(bss.address + bss.size, PAGE_SIZE); end.Ok? && end.value <= STACK_GUARD_ADDRESS)
       <==> bss.address + bss.size <= STACK_GUARD_ADDRESS
  {
    hide AlignUp, IsPowerOfTwo;
    AlignUpPage(bss.address + bss.size);
  }

  /**
    The inspector accepts exactly the kernels whose map and ELF file agree in this way. In
    particular its last check, that no segment maps the guard page, never decides anything.
  */
  lemma CombinedExact(entry: u64, segments: seq<LoadSegment>, m: MapLayout)
    ensures ValidateCombined(entry, segments, m).Ok? <==> AgreedLayout(entry, segments, m)
    ensures AgreedLayout(entry, segments, m) ==>
              && (forall k | 0 <= k < 4 :: AvoidsGuard(segments[k]))
              && var data, bss := m.sections[".data"], m.sections[".bss"];
                 ZeroFill(segments[2]) == bss.address + bss.size - (data.address + data.size)
  {
    hide ValidateConstantsAndSymbols, NamesAgree, SectionOrder, ListedInOrder, AlignAddress, OrderPrefix;
    SectionOrderExact(m);
    if HasSections(m) {
      if m.sections[".bss"].address + m.sections[".bss"].size < U64_LIMIT {
        BelowGuard(m.sections[".bss"]);
      }
      if LaidOut(m) {
        NamesExact(entry, m);
      }
    }
  }

  /** Page rounding cannot reach the guard page: its address is itself page aligned. */
  lemma GuardNotCovered(s: LoadSegment)
    requires ElfSegments.LoadableSegment(s) && AvoidsGuard(s)
    ensures GUARD_PAGE !in SegmentPages(s)
  {
  }

  lemma {:induction false} GuardOutsidePlan(segments: seq<LoadSegment>)
    requires forall k | 0 <= k < |segments| :: GUARD_PAGE !in SegmentPages(segments[k])
    ensures GUARD_PAGE !in PlanPages(segments)
  {
    hide SegmentPages;
    if segments != [] {
      GuardOutsidePlan(segments[..|segments| - 1]);
    }
  }

  /**
    For an inspected kernel the guard reservation can only fail for want of the guard page
    itself: loading never takes it.
  */
  lemma InspectedKernelPlaceable(elf: ElfPlan.ValidatedElf, m: MapLayout, free: set<int>)
    requires ElfPlan.Parse(elf.bytes) == Ok(elf)
    requires ValidateCombined(elf.entryPoint, ElfSegments.SegmentsIn(elf), m).Ok?
    ensures var segments := ElfSegments.SegmentsIn(elf);
            BootMachine.Placeable(segments, free) <==> AllFree(segments, free) && GUARD_PAGE in free
  {
    hide ElfPlan.Parse, ValidateCombined, SegmentPages, ElfSegments.Yields;
    var segments := ElfSegments.SegmentsIn(elf);
    ElfSegments.ParsedSegmentsLoadable(elf);
    CombinedExact(elf.entryPoint, segments, m);
    forall k | 0 <= k < |segments|
      ensures GUARD_PAGE !in SegmentPages(segments[k])
    {
      GuardNotCovered(segments[k]);
    }
    GuardOutsidePlan(segments);
  }

  /** When the load window is free an inspected kernel can always be placed. */
  lemma InspectedKernelFits(elf: ElfPlan.ValidatedElf, m: MapLayout, free: set<int>)
    requires ElfPlan.Parse(elf.bytes) == Ok(elf)
    requires ValidateCombined(elf.entryPoint, ElfSegments.SegmentsIn(elf), m).Ok?
    requires forall p | MIN_LOAD_ADDRESS / PAGE_SIZE <= p < MAX_LOAD_ADDRESS_EXCLUSIVE / PAGE_SIZE :: p in free
    ensures BootMachine.Placeable(ElfSegments.SegmentsIn(elf), free)
  {
    hide ElfPlan.Parse, ValidateCombined, ElfSegments.Yields, BootMachine.Placeable;
    FreeWindowLoads(elf, free);
    InspectedKernelPlaceable(elf, m, free);
  }

  /** After loading an inspected kernel every byte of `.bss` is zero. */
  lemma BssLoadedAsZero(elf: ElfPlan.ValidatedElf, m: MapLayout, ram: seq<u8>, a: int)
    requires ElfPlan.Parse(elf.bytes) == Ok(elf)
    requires ValidateCombined(elf.entryPoint, ElfSegments.SegmentsIn(elf), m).Ok?
    requires BootMachine.KernelInMemory(ram, ElfSegments.SegmentsIn(elf))
    requires ".bss" in m.sections
    requires m.sections[".bss"].address <= a < m.sections[".bss"].address + m.sections[".bss"].size
    ensures 0 <= a < |ram| && ram[a] == 0
  {
    hide ElfPlan.Parse, ValidateCombined, SegmentPages, ElfSegments.Yields;
    var segments := ElfSegments.SegmentsIn(elf);
    ElfSegments.ParsedSegmentsLoadable(elf);
    CombinedExact(elf.entryPoint, segments, m);
    var data := segments[2];
    assert HoldsImage(ram, data);
    assert ElfSegments.LoadableSegment(data);
    assert a < ElfSegments.SegmentPageEnd(data);
  }
}
