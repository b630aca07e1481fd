/**
  The validation pass over the program headers, and what its adjacent checks imply
  about the whole load plan.
*/
module ElfPlan {
  import opened Machine
  import opened BitMask
  import opened ElfImage

  datatype ValidatedElf = ValidatedElf(
    bytes: Slice, entryPoint: u64, programHeaderOffset: usize,
    programHeaderCount: u16, loadSegmentCount: u16)

  /** The variables the loop carries. */
  datatype Scan = Scan(
    loadCount: u16, totalLoadSize: u64, previous: Option<(u16, u64, u64)>, entryIsExecutable: bool)

  const SCAN_START := Scan(0, 0, None, false)

  /** One pass through the loop body. */
  function ScanHeader(bytes: Slice, elf: ElfHeader, index: u16, s: Scan): (r: Result<Scan, ParseError>)
    requires s.loadCount <= MAX_LOAD_SEGMENTS
    ensures r.Ok? ==> r.value.loadCount <= MAX_LOAD_SEGMENTS
  {
    var header :- DecodeProgramHeader(bytes, elf.programHeaderOffset, index)
                  .OkOr(ProgramHeaderTableOutOfBounds(elf.programHeaderTableEnd, elf.fileSize));
    if header.kind == PT_NULL then Ok(s)
    else if header.kind != PT_LOAD then Err(UnsupportedProgramHeaderType(index, header.kind))
    else ScanLoad(elf, index, header, s)
  }

  function ScanLoad(elf: ElfHeader, index: u16, header: ProgramHeader, s: Scan): (r: Result<Scan, ParseError>)
    requires s.loadCount <= MAX_LOAD_SEGMENTS
    ensures r.Ok? ==> r.value.loadCount <= MAX_LOAD_SEGMENTS
  {
    var loadCount: u16 := s.loadCount + 1;
    if loadCount > MAX_LOAD_SEGMENTS then Err(TooManyLoadSegments(loadCount, MAX_LOAD_SEGMENTS))
    else
      var end :- ValidateLoadSegment(index, header, elf.fileSize);
      var pageEnd :- AlignUp(end, PAGE_SIZE).OkOr(SegmentMemoryRangeOverflow(index));
      if s.previous.Some? && header.physicalAddress < s.previous.value.1 then
        Err(UnsortedSegments(s.previous.value.0, index))
      else if s.previous.Some? && header.physicalAddress < s.previous.value.2 then
        Err(OverlappingSegments(s.previous.value.0, index))
      else
        var total :- CheckedAdd(s.totalLoadSize, header.memorySize).OkOr(TotalLoadSizeOverflow);
        if total > MAX_TOTAL_LOAD_SIZE then Err(TotalLoadSizeTooLarge(total, MAX_TOTAL_LOAD_SIZE))
        else
          ValidatesExactlyWellFormed(index, header, elf.fileSize);
          var virtualEnd: u64 := header.virtualAddress + header.memorySize;
          var holdsEntry := HasFlag(header.flags, PF_X) && header.virtualAddress <= elf.entry < virtualEnd;
          Ok(Scan(loadCount, total, Some((index, header.physicalAddress, pageEnd)),
                  s.entryIsExecutable || holdsEntry))
  }

  /** The loop state after the first `n` headers, or the first error among them. */
  function ScanPrefix(bytes: Slice, elf: ElfHeader, n: u16): (r: Result<Scan, ParseError>)
    ensures r.Ok? ==> r.value.loadCount <= MAX_LOAD_SEGMENTS
  {
    if n == 0 then Ok(SCAN_START)
    else
      var s :- ScanPrefix(bytes, elf, n - 1);
      ScanHeader(bytes, elf, n - 1, s)
  }

  function ScanResult(bytes: Slice, elf: ElfHeader): Result<u16, ParseError> {
    var s :- ScanPrefix(bytes, elf, elf.programHeaderCount);
    if s.loadCount == 0 then Err(NoLoadSegments)
    else if !s.entryIsExecutable then Err(EntryNotExecutable(elf.entry))
    else Ok(s.loadCount)
  }

  function Parse(bytes: Slice): Result<ValidatedElf, ParseError> {
    if |bytes| < ELF_HEADER_SIZE then Err(Truncated(|bytes|, ELF_HEADER_SIZE))
    else if |bytes| > MAX_ELF_FILE_SIZE then Err(FileTooLarge(|bytes|, MAX_ELF_FILE_SIZE))
    else
      var _ :- ValidateIdentification(bytes);
      var elf :- ParseHeader(bytes);
      var count :- ScanResult(bytes, elf);
      Ok(ValidatedElf(bytes, elf.entry, elf.programHeaderOffset, elf.programHeaderCount, count))
  }

  lemma {:induction false} FirstErrorStands(bytes: Slice, elf: ElfHeader, n: u16, m: u16)
    requires n <= m && ScanPrefix(bytes, elf, n).Err?
    ensures ScanPrefix(bytes, elf, m) == ScanPrefix(bytes, elf, n)
  {
    if n < m {
      FirstErrorStands(bytes, elf, n, m - 1);
    }
  }

  /** The `PT_LOAD` part of the loop body. */
  method CheckLoadHeader(elf: ElfHeader, index: u16, header: ProgramHeader, s: Scan)
    returns (r: Result<Scan, ParseError>)
    requires s.loadCount <= MAX_LOAD_SEGMENTS
    ensures r == ScanLoad(elf, index, header, s)
  {
    var loadCount: u16 := s.loadCount + 1;
    if loadCount > MAX_LOAD_SEGMENTS {
      return Err(TooManyLoadSegments(loadCount, MAX_LOAD_SEGMENTS));
    }
    var end := ValidateLoadSegment(index, header, elf.fileSize);
    if end.Err? {
      return Err(end.error);
    }
    var pageEnd := AlignUp(end.value, PAGE_SIZE);
    if pageEnd.None? {
      return Err(SegmentMemoryRangeOverflow(index));
    }
    if s.previous.Some? {
      if header.physicalAddress < s.previous.value.1 {
        return Err(UnsortedSegments(s.previous.value.0, index));
      }
      if header.physicalAddress < s.previous.value.2 {
        return Err(OverlappingSegments(s.previous.value.0, index));
      }
    }
    var previous := Some((index, header.physicalAddress, pageEnd.value));
    var total := CheckedAdd(s.totalLoadSize, header.memorySize);
    if total.None? {
      return Err(TotalLoadSizeOverflow);
    }
    if total.value > MAX_TOTAL_LOAD_SIZE {
      return Err(TotalLoadSizeTooLarge(total.value, MAX_TOTAL_LOAD_SIZE));
    }
    var entryIsExecutable := s.entryIsExecutable;
    ValidatesExactlyWellFormed(index, header, elf.fileSize);
    var virtualEnd: u64 := header.virtualAddress + header.memorySize;
    if HasFlag(header.flags, PF_X) && elf.entry >= header.virtualAddress && elf.entry < virtualEnd {
      entryIsExecutable := true;
    }
    return Ok(Scan(loadCount, total.value, previous, entryIsExecutable));
  }

  /** `validate_program_headers`: the loop computes `ScanResult`, with no overflow on any input. */
  method ValidateProgramHeaders(bytes: Slice, elf: ElfHeader) returns (r: Result<u16, ParseError>)
    ensures r == ScanResult(bytes, elf)
  {
    hide ScanLoad, DecodeProgramHeader;
    var s := SCAN_START;
    var index: u16 := 0;
    while index < elf.programHeaderCount
      invariant index <= elf.programHeaderCount
      invariant ScanPrefix(bytes, elf, index) == Ok(s)
    {
      if ScanPrefix(bytes, elf, index + 1).Err? {
        FirstErrorStands(bytes, elf, index + 1, elf.programHeaderCount);
      }
      var decoded := DecodeProgramHeader(bytes, elf.programHeaderOffset, index);
      if decoded.None? {
        return Err(ProgramHeaderTableOutOfBounds(elf.programHeaderTableEnd, elf.fileSize));
      }
      var header := decoded.value;
      if header.kind != PT_NULL {
        if header.kind != PT_LOAD {
          return Err(UnsupportedProgramHeaderType(index, header.kind));
        }
        var next := CheckLoadHeader(elf, index, header, s);
        if next.Err? {
          return Err(next.error);
        }
        s := next.value;
      }
      index := index + 1;
    }
    if s.loadCount == 0 {
      return Err(NoLoadSegments);
    }
    if !s.entryIsExecutable {
      return Err(EntryNotExecutable(elf.entry));
    }
    return Ok(s.loadCount);
  }

  // ---------------------------------------------------------------------------------
  // The load plan, stated over all pairs of segments.
  // ---------------------------------------------------------------------------------

  datatype PlanEntry = PlanEntry(index: u16, header: ProgramHeader)

  /** The `PT_LOAD` headers among the first `n`, in table order. */
  function PlanPrefix(bytes: Slice, tableOffset: usize, n: u16): seq<PlanEntry> {
    if n == 0 then []
    else
      var rest := PlanPrefix(bytes, tableOffset, n - 1);
      match DecodeProgramHeader(bytes, tableOffset, n - 1)
      case Some(h) => if h.kind == 1 then rest + [PlanEntry(n - 1, h)] else rest
      case None => rest
  }

  predicate KnownKind(decoded: Option<ProgramHeader>) {
    decoded.Some? && decoded.value.kind in {0, 1}
  }

  predicate OnlyKnownKinds(bytes: Slice, tableOffset: usize, n: u16) {
    forall i: u16 | i < n :: KnownKind(DecodeProgramHeader(bytes, tableOffset, i))
  }

  function HeaderPageEnd(h: ProgramHeader): int {
    PageEnd(h.physicalAddress, h.memorySize)
  }

  /** Every earlier segment's last page ends at or below every later segment's first page. */
  predicate PairwiseDisjoint(plan: seq<PlanEntry>) {
    forall i, j | 0 <= i < j < |plan| ::
      HeaderPageEnd(plan[i].header) <= plan[j].header.physicalAddress
  }

  function TotalMemory(plan: seq<PlanEntry>): int {
    if plan == [] then 0 else TotalMemory(plan[..|plan| - 1]) + plan[|plan| - 1].header.memorySize
  }

  predicate HoldsAddress(h: ProgramHeader, address: int) {
    h.virtualAddress <= address < h.virtualAddress + h.memorySize
  }

  predicate ExecutableAt(plan: seq<PlanEntry>, address: int) {
    exists k | 0 <= k < |plan| :: HasFlag(plan[k].header.flags, 1) && HoldsAddress(plan[k].header, address)
  }

  predicate SoundPlan(plan: seq<PlanEntry>, fileSize: int) {
    && |plan| <= 4
    && (forall k | 0 <= k < |plan| :: WellFormedSegment(plan[k].header, fileSize))
    && PairwiseDisjoint(plan)
    && TotalMemory(plan) <= 0x400_0000
  }

  predicate Summarizes(s: Scan, plan: seq<PlanEntry>, entry: int) {
    && s.loadCount == |plan|
    && s.totalLoadSize == TotalMemory(plan)
    && s.previous == (if plan == [] then None else
         var e := plan[|plan| - 1];
         Some((e.index, e.header.physicalAddress, HeaderPageEnd(e.header))))
    && (s.entryIsExecutable <==> ExecutableAt(plan, entry))
  }

  lemma PageEndOf(h: ProgramHeader, fileSize: u64)
    requires WellFormedSegment(h, fileSize)
    ensures AlignUp(h.physicalAddress + h.memorySize, PAGE_SIZE) == Some(HeaderPageEnd(h))
    ensures h.physicalAddress + h.memorySize <= HeaderPageEnd(h) <= MAX_LOAD_ADDRESS_EXCLUSIVE
  {
    hide AlignUp, IsPowerOfTwo;
    AlignUpPage(h.physicalAddress + h.memorySize);
  }

  lemma PairwiseSnoc(plan: seq<PlanEntry>, e: PlanEntry, fileSize: u64)
    requires PairwiseDisjoint(plan)
    requires forall k | 0 <= k < |plan| :: WellFormedSegment(plan[k].header, fileSize)
    ensures PairwiseDisjoint(plan + [e])
       <==> plan == [] || HeaderPageEnd(plan[|plan| - 1].header) <= e.header.physicalAddress
  {
    var all := plan + [e];
    if plan != [] {
      var last := plan[|plan| - 1];
      assert all[|plan| - 1] == last && all[|plan|] == e;
      PageEndOf(last.header, fileSize);
      if HeaderPageEnd(last.header) <= e.header.physicalAddress {
        forall i, j | 0 <= i < j < |all|
          ensures HeaderPageEnd(all[i].header) <= all[j].header.physicalAddress
        {
          if j == |plan| && i < |plan| - 1 {
            assert HeaderPageEnd(plan[i].header) <= last.header.physicalAddress;
          }
        }
      }
    }
  }

  lemma ExecutableSnoc(plan: seq<PlanEntry>, e: PlanEntry, address: int)
    ensures ExecutableAt(plan + [e], address)
       <==> ExecutableAt(plan, address) || (HasFlag(e.header.flags, PF_X) && HoldsAddress(e.header, address))
  {
    var all := plan + [e];
    assert all[|plan|] == e;
    if ExecutableAt(plan, address) {
      var k :| 0 <= k < |plan| && HasFlag(plan[k].header.flags, PF_X) && HoldsAddress(plan[k].header, address);
      assert all[k] == plan[k];
    }
  }

  lemma SoundSnoc(plan: seq<PlanEntry>, e: PlanEntry, fileSize: u64)
    requires SoundPlan(plan, fileSize)
    ensures SoundPlan(plan + [e], fileSize)
       <==> && |plan| < MAX_LOAD_SEGMENTS
            && WellFormedSegment(e.header, fileSize)
            && (plan == [] || HeaderPageEnd(plan[|plan| - 1].header) <= e.header.physicalAddress)
            && TotalMemory(plan) + e.header.memorySize <= MAX_TOTAL_LOAD_SIZE
  {
    var all := plan + [e];
    assert all[..|plan|] == plan && all[|plan|] == e;
    PairwiseSnoc(plan, e, fileSize);
  }

  lemma UnsoundStays(plan: seq<PlanEntry>, e: PlanEntry, fileSize: int)
    requires !SoundPlan(plan, fileSize)
    ensures !SoundPlan(plan + [e], fileSize)
  {
    var all := plan + [e];
    assert all[..|plan|] == plan;
    assert forall k | 0 <= k < |plan| :: all[k] == plan[k];
  }

  /** Checking one segment against the previous one keeps the plan sound, and only then. */
  lemma ScanLoadExtends(elf: ElfHeader, index: u16, header: ProgramHeader, s: Scan, plan: seq<PlanEntry>)
    requires SoundPlan(plan, elf.fileSize)
    requires Summarizes(s, plan, elf.entry)
    ensures var r := ScanLoad(elf, index, header, s);
            var extended := plan + [PlanEntry(index, header)];
            && (r.Ok? <==> SoundPlan(extended, elf.fileSize))
            && (r.Ok? ==> Summarizes(r.value, extended, elf.entry))
  {
    hide AlignUp, IsPowerOfTwo, Remainder;
    var e := PlanEntry(index, header);
    var all := plan + [e];
    assert all[..|plan|] == plan && all[|plan|] == e;
    SoundSnoc(plan, e, elf.fileSize);
    ExecutableSnoc(plan, e, elf.entry);
    ValidatesExactlyWellFormed(index, header, elf.fileSize);
    if WellFormedSegment(header, elf.fileSize) {
      PageEndOf(header, elf.fileSize);
    }
    if plan != [] {
      PageEndOf(plan[|plan| - 1].header, elf.fileSize);
    }
  }

  lemma EmptyPlan(elf: ElfHeader)
    ensures SoundPlan([], elf.fileSize) && Summarizes(SCAN_START, [], elf.entry)
  {
  }

  lemma KnownKindsSnoc(bytes: Slice, tableOffset: usize, n: u16)
    requires n > 0
    ensures OnlyKnownKinds(bytes, tableOffset, n)
       <==> OnlyKnownKinds(bytes, tableOffset, n - 1)
            && KnownKind(DecodeProgramHeader(bytes, tableOffset, n - 1))
  {
  }

  lemma {:induction false} ScanPrefixExact(bytes: Slice, elf: ElfHeader, n: u16)
    ensures var plan := PlanPrefix(bytes, elf.programHeaderOffset, n);
            var r := ScanPrefix(bytes, elf, n);
            && (r.Ok? <==> OnlyKnownKinds(bytes, elf.programHeaderOffset, n) && SoundPlan(plan, elf.fileSize))
            && (r.Ok? ==> Summarizes(r.value, plan, elf.entry))
  {
    hide ScanLoad, DecodeProgramHeader, SoundPlan, Summarizes;
    if n == 0 {
      EmptyPlan(elf);
    } else {
      ScanPrefixExact(bytes, elf, n - 1);
      var plan := PlanPrefix(bytes, elf.programHeaderOffset, n - 1);
      var before := ScanPrefix(bytes, elf, n - 1);
      var decoded := DecodeProgramHeader(bytes, elf.programHeaderOffset, n - 1);
      KnownKindsSnoc(bytes, elf.programHeaderOffset, n);
      if decoded.Some? && decoded.value.kind == PT_LOAD {
        if before.Ok? {
          ScanLoadExtends(elf, n - 1, decoded.value, before.value, plan);
        } else if !SoundPlan(plan, elf.fileSize) {
          UnsoundStays(plan, PlanEntry(n - 1, decoded.value), elf.fileSize);
        }
      }
    }
  }

  function Plan(bytes: Slice, elf: ElfHeader): seq<PlanEntry> {
    PlanPrefix(bytes, elf.programHeaderOffset, elf.programHeaderCount)
  }

  /** Every load header of the table is in the plan. */
  lemma {:induction false} PlanHolds(bytes: Slice, tableOffset: usize, n: u16, index: u16) returns (k: nat)
    requires index < n && DecodeProgramHeader(bytes, tableOffset, index).Some?
    requires DecodeProgramHeader(bytes, tableOffset, index).value.kind == 1
    ensures k < |PlanPrefix(bytes, tableOffset, n)|
    ensures PlanPrefix(bytes, tableOffset, n)[k]
         == PlanEntry(index, DecodeProgramHeader(bytes, tableOffset, index).value)
  {
    hide DecodeProgramHeader;
    if index == n - 1 {
      k := |PlanPrefix(bytes, tableOffset, n - 1)|;
    } else {
      k := PlanHolds(bytes, tableOffset, n - 1, index);
    }
  }

  /** Every member of the plan is a load header of the table, and they stand in table order. */
  lemma {:induction false} PlanStands(bytes: Slice, tableOffset: usize, n: u16, k: nat)
    requires k < |PlanPrefix(bytes, tableOffset, n)|
    ensures var plan := PlanPrefix(bytes, tableOffset, n);
            && plan[k].index < n && plan[k].header.kind == 1
            && DecodeProgramHeader(bytes, tableOffset, plan[k].index) == Some(plan[k].header)
            && (k > 0 ==> plan[k - 1].index < plan[k].index)
  {
    hide DecodeProgramHeader;
    var before := PlanPrefix(bytes, tableOffset, n - 1);
    if k < |before| {
      PlanStands(bytes, tableOffset, n - 1, k);
    } else if k > 0 {
      PlanStands(bytes, tableOffset, n - 1, k - 1);
    }
  }

  predicate AcceptablePlan(bytes: Slice, elf: ElfHeader) {
    && OnlyKnownKinds(bytes, elf.programHeaderOffset, elf.programHeaderCount)
    && Plan(bytes, elf) != []
    && SoundPlan(Plan(bytes, elf), elf.fileSize)
    && ExecutableAt(Plan(bytes, elf), elf.entry)
  }

  /**
    The single pass accepts exactly the tables whose plan is sound over every pair of
    segments, and reports the number of segments.
  */
  lemma ScanAcceptsExactlySoundPlans(bytes: Slice, elf: ElfHeader)
    ensures ScanResult(bytes, elf).Ok? <==> AcceptablePlan(bytes, elf)
    ensures ScanResult(bytes, elf).Ok? ==> ScanResult(bytes, elf).value == |Plan(bytes, elf)|
  {
    hide ScanHeader, OnlyKnownKinds, SoundPlan, PlanPrefix;
    ScanPrefixExact(bytes, elf, elf.programHeaderCount);
  }

  predicate AcceptedByParts(bytes: Slice) {
    && ELF_HEADER_SIZE <= |bytes| <= MAX_ELF_FILE_SIZE
    && ValidateIdentification(bytes).Ok?
    && ParseHeader(bytes).Ok?
    && AcceptablePlan(bytes, ParseHeader(bytes).value)
  }

  lemma ParseByParts(bytes: Slice)
    ensures Parse(bytes).Ok? <==> AcceptedByParts(bytes)
    ensures Parse(bytes).Ok? ==>
              var elf := ParseHeader(bytes).value;
              Parse(bytes).value == ValidatedElf(bytes, elf.entry, elf.programHeaderOffset,
                                                 elf.programHeaderCount, |Plan(bytes, elf)|)
  {
    hide ValidateIdentification, ScanResult, AcceptablePlan, PlanPrefix;
    if ParseHeader(bytes).Ok? {
      ScanAcceptsExactlySoundPlans(bytes, ParseHeader(bytes).value);
    }
  }

  /** The file starts with the layout of an admissible header whose table holds an acceptable plan. */
  ghost predicate Acceptable(bytes: Slice, h: FileHeader) {
    && 64 <= |bytes| <= 0x100_0000
    && bytes[..64] == FileHeaderBytes(h)
    && AdmissibleHeader(h, |bytes|)
    && AcceptablePlan(bytes, HeaderOf(h, |bytes|))
  }

  predicate Describes(elf: ValidatedElf, bytes: Slice, h: FileHeader)
    requires AdmissibleHeader(h, |bytes|)
  {
    && elf.bytes == bytes && elf.entryPoint == h.entry
    && elf.programHeaderOffset == h.programHeaderOffset && elf.programHeaderCount == h.programHeaderCount
    && elf.loadSegmentCount == |Plan(bytes, HeaderOf(h, |bytes|))|
  }

  /** `parse` accepts exactly those files, and returns what the header and the plan say. */
  lemma ParseAcceptsExactly(bytes: Slice)
    ensures Parse(bytes).Ok? <==> exists h :: Acceptable(bytes, h)
    ensures forall h | Acceptable(bytes, h) :: Parse(bytes).Ok? && Describes(Parse(bytes).value, bytes, h)
  {
    hide Parse, ParseHeader, ValidateIdentification, AcceptablePlan, PlanPrefix, FileHeaderBytes, AdmissibleHeader;
    ParseByParts(bytes);
    if Parse(bytes).Ok? {
      var h := SomeFileHeader(bytes[..64]);
      HeaderAcceptedExactly(bytes, h);
      assert Acceptable(bytes, h);
    }
    forall h | Acceptable(bytes, h)
      ensures Parse(bytes).Ok? && Describes(Parse(bytes).value, bytes, h)
    {
      HeaderAcceptedExactly(bytes, h);
    }
  }

  /** The entry point lies in exactly one segment, and that one is executable and not writable. */
  lemma EntryInOneExecutableSegment(plan: seq<PlanEntry>, fileSize: u64, entry: u64) returns (k: nat)
    requires SoundPlan(plan, fileSize) && ExecutableAt(plan, entry)
    ensures k < |plan|
    ensures HasFlag(plan[k].header.flags, 1) && !HasFlag(plan[k].header.flags, 2)
    ensures forall j | 0 <= j < |plan| :: HoldsAddress(plan[j].header, entry) <==> j == k
  {
    hide IsPowerOfTwo, Remainder;
    k :| 0 <= k < |plan| && HasFlag(plan[k].header.flags, PF_X) && HoldsAddress(plan[k].header, entry);
    forall j | 0 <= j < |plan|
      ensures HoldsAddress(plan[j].header, entry) <==> j == k
    {
      PageEndOf(plan[j].header, fileSize);
      PageEndOf(plan[k].header, fileSize);
    }
  }
}
