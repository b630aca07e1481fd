/** The load-segment iterator, which decodes the program headers a second time. */
module ElfSegments {
  import opened Machine
  import opened BitMask
  import opened ElfImage
  import opened ElfPlan

  function LoadSegmentFromHeader(bytes: Slice, index: u16, h: ProgramHeader): Option<LoadSegment> {
    var end :- CheckedAdd(h.fileOffset, h.fileSize);
    if end <= |bytes| then Some(SegmentOf(bytes, PlanEntry(index, h))) else None
  }

  /** The segment that a validated header describes. */
  function SegmentOf(bytes: Slice, e: PlanEntry): LoadSegment
    requires e.header.fileOffset + e.header.fileSize <= |bytes|
  {
    var h := e.header;
    LoadSegment(e.index, h.flags, h.fileOffset, h.virtualAddress, h.physicalAddress, h.fileSize,
                h.memorySize, h.alignment, bytes[h.fileOffset..h.fileOffset + h.fileSize])
  }

  /** What `next` returns from index `i`, and the index it leaves behind. */
  function NextFrom(bytes: Slice, tableOffset: usize, count: u16, i: u16): (r: (Option<LoadSegment>, u16))
    ensures i <= r.1 && (r.0.Some? ==> i < r.1 <= count)
    decreases count - i
  {
    if i >= count then (None, i)
    else
      match DecodeProgramHeader(bytes, tableOffset, i)
      case None => (None, i + 1)
      case Some(h) =>
        if h.kind == PT_LOAD then (LoadSegmentFromHeader(bytes, i, h), i + 1)
        else NextFrom(bytes, tableOffset, count, i + 1)
  }

  /** Everything a `for` loop over the iterator sees: it stops at the first `None`. */
  function Yields(bytes: Slice, tableOffset: usize, count: u16, i: u16): seq<LoadSegment>
    decreases count - i
  {
    var (item, next) := NextFrom(bytes, tableOffset, count, i);
    if item.None? then [] else [item.value] + Yields(bytes, tableOffset, count, next)
  }

  lemma YieldsStep(bytes: Slice, tableOffset: usize, count: u16, i: u16)
    ensures var (item, next) := NextFrom(bytes, tableOffset, count, i);
            Yields(bytes, tableOffset, count, i)
            == if item.None? then [] else [item.value] + Yields(bytes, tableOffset, count, next)
  {
  }

  class LoadSegments {
    const bytes: Slice
    const programHeaderOffset: usize
    const programHeaderCount: u16
    var nextIndex: u16

    constructor (elf: ValidatedElf)
      ensures bytes == elf.bytes
      ensures programHeaderOffset == elf.programHeaderOffset
      ensures programHeaderCount == elf.programHeaderCount
      ensures nextIndex == 0
    {
      bytes := elf.bytes;
      programHeaderOffset := elf.programHeaderOffset;
      programHeaderCount := elf.programHeaderCount;
      nextIndex := 0;
    }

    method Next() returns (item: Option<LoadSegment>)
      modifies this
      ensures (item, nextIndex) == NextFrom(bytes, programHeaderOffset, programHeaderCount, old(nextIndex))
    {
      while nextIndex < programHeaderCount
        invariant NextFrom(bytes, programHeaderOffset, programHeaderCount, nextIndex)
               == NextFrom(bytes, programHeaderOffset, programHeaderCount, old(nextIndex))
        decreases programHeaderCount - nextIndex
      {
        hide DecodeProgramHeader, LoadSegmentFromHeader;
        var index := nextIndex;
        nextIndex := nextIndex + 1;
        var header := DecodeProgramHeader(bytes, programHeaderOffset, index);
        if header.None? {
          return None;
        }
        if header.value.kind == PT_LOAD {
          return LoadSegmentFromHeader(bytes, index, header.value);
        }
      }
      return None;
    }
  }

  /** The `PT_LOAD` headers from index `i` on. */
  function PlanSuffix(bytes: Slice, tableOffset: usize, count: u16, i: u16): seq<PlanEntry>
    decreases count - i
  {
    if i >= count then []
    else
      var rest := PlanSuffix(bytes, tableOffset, count, i + 1);
      match DecodeProgramHeader(bytes, tableOffset, i)
      case Some(h) => if h.kind == PT_LOAD then [PlanEntry(i, h)] + rest else rest
      case None => rest
  }

  lemma {:induction false} PlanSplits(bytes: Slice, tableOffset: usize, count: u16, i: u16)
    requires i <= count
    ensures PlanPrefix(bytes, tableOffset, count)
         == PlanPrefix(bytes, tableOffset, i) + PlanSuffix(bytes, tableOffset, count, i)
    decreases count - i
  {
    hide DecodeProgramHeader;
    if i < count {
      PlanSplits(bytes, tableOffset, count, i + 1);
      var prefix := PlanPrefix(bytes, tableOffset, i);
      var rest := PlanSuffix(bytes, tableOffset, count, i + 1);
      match DecodeProgramHeader(bytes, tableOffset, i)
      case Some(h) =>
        assert prefix + [PlanEntry(i, h)] + rest == prefix + ([PlanEntry(i, h)] + rest);
      case None =>
    }
  }

  predicate FilesInside(bytes: Slice, plan: seq<PlanEntry>) {
    forall k | 0 <= k < |plan| :: plan[k].header.fileOffset + plan[k].header.fileSize <= |bytes|
  }

  function SegmentsOf(bytes: Slice, plan: seq<PlanEntry>): (r: seq<LoadSegment>)
    requires FilesInside(bytes, plan)
  {
    seq(|plan|, k requires 0 <= k < |plan| => SegmentOf(bytes, plan[k]))
  }

  lemma {:induction false} NextFindsFirst(bytes: Slice, tableOffset: usize, count: u16, i: u16)
    requires OnlyKnownKinds(bytes, tableOffset, count)
    requires FilesInside(bytes, PlanSuffix(bytes, tableOffset, count, i))
    ensures var plan := PlanSuffix(bytes, tableOffset, count, i);
            var (item, next) := NextFrom(bytes, tableOffset, count, i);
            if plan == [] then item.None?
            else item == Some(SegmentOf(bytes, plan[0]))
                 && PlanSuffix(bytes, tableOffset, count, next) == plan[1..]
    decreases count - i
  {
    hide DecodeProgramHeader;
    if i < count {
      assert KnownKind(DecodeProgramHeader(bytes, tableOffset, i));
      var h := DecodeProgramHeader(bytes, tableOffset, i).value;
      if h.kind == PT_LOAD {
        assert PlanSuffix(bytes, tableOffset, count, i)[0] == PlanEntry(i, h);
      } else {
        NextFindsFirst(bytes, tableOffset, count, i + 1);
      }
    }
  }

  lemma {:induction false} YieldsSuffix(bytes: Slice, tableOffset: usize, count: u16, i: u16)
    requires OnlyKnownKinds(bytes, tableOffset, count)
    requires FilesInside(bytes, PlanSuffix(bytes, tableOffset, count, i))
    ensures Yields(bytes, tableOffset, count, i)
         == SegmentsOf(bytes, PlanSuffix(bytes, tableOffset, count, i))
    decreases count - i
  {
    hide OnlyKnownKinds, NextFrom, PlanSuffix, DecodeProgramHeader;
    NextFindsFirst(bytes, tableOffset, count, i);
    var plan := PlanSuffix(bytes, tableOffset, count, i);
    if plan != [] {
      var next := NextFrom(bytes, tableOffset, count, i).1;
      YieldsSuffix(bytes, tableOffset, count, next);
      assert plan == [plan[0]] + plan[1..];
    }
  }

  /**
    On an accepted image the iterator yields one segment per validated header, in order,
    each with that header's fields and file slice, and never ends early.
  */
  lemma IteratorYieldsWholePlan(bytes: Slice, elf: ElfHeader)
    requires elf.fileSize == |bytes|
    requires AcceptablePlan(bytes, elf)
    ensures FilesInside(bytes, Plan(bytes, elf))
    ensures Yields(bytes, elf.programHeaderOffset, elf.programHeaderCount, 0)
         == SegmentsOf(bytes, Plan(bytes, elf))
  {
    hide OnlyKnownKinds, DecodeProgramHeader, IsPowerOfTwo, Remainder, PlanSuffix;
    PlanSplits(bytes, elf.programHeaderOffset, elf.programHeaderCount, 0);
    var plan := Plan(bytes, elf);
    assert PlanPrefix(bytes, elf.programHeaderOffset, 0)
           + PlanSuffix(bytes, elf.programHeaderOffset, elf.programHeaderCount, 0)
        == PlanSuffix(bytes, elf.programHeaderOffset, elf.programHeaderCount, 0);
    YieldsSuffix(bytes, elf.programHeaderOffset, elf.programHeaderCount, 0);
  }

  // ---------------------------------------------------------------------------------
  // What the loader may rely on.
  // ---------------------------------------------------------------------------------

  predicate LoadableSegment(s: LoadSegment) {
    && s.physicalAddress % PAGE_SIZE == 0
    && 0 < s.memorySize
    && |s.fileData| == s.fileSize <= s.memorySize
    && MIN_LOAD_ADDRESS <= s.physicalAddress
    && s.physicalAddress + s.memorySize <= MAX_LOAD_ADDRESS_EXCLUSIVE
  }

  function SegmentPageEnd(s: LoadSegment): int {
    PageEnd(s.physicalAddress, s.memorySize)
  }

  predicate LoadableSegments(segments: seq<LoadSegment>) {
    && (forall k | 0 <= k < |segments| :: LoadableSegment(segments[k]))
    && (forall i, j | 0 <= i < j < |segments| ::
          SegmentPageEnd(segments[i]) <= segments[j].physicalAddress)
  }

  function SegmentsIn(elf: ValidatedElf): seq<LoadSegment> {
    Yields(elf.bytes, elf.programHeaderOffset, elf.programHeaderCount, 0)
  }

  lemma PlannedSegmentsLoadable(bytes: Slice, plan: seq<PlanEntry>)
    requires SoundPlan(plan, |bytes|)
    ensures FilesInside(bytes, plan)
    ensures LoadableSegments(SegmentsOf(bytes, plan))
  {
    hide IsPowerOfTwo, Remainder;
    var segments := SegmentsOf(bytes, plan);
    forall i, j | 0 <= i < j < |segments|
      ensures SegmentPageEnd(segments[i]) <= segments[j].physicalAddress
    {
      assert HeaderPageEnd(plan[i].header) <= plan[j].header.physicalAddress;
    }
  }

  /** A parsed image yields `loadSegmentCount` loadable segments on pairwise disjoint pages. */
  lemma ParsedSegmentsLoadable(elf: ValidatedElf)
    requires Parse(elf.bytes) == Ok(elf)
    ensures |SegmentsIn(elf)| == elf.loadSegmentCount
    ensures LoadableSegments(SegmentsIn(elf))
  {
    hide Parse, AcceptablePlan, SoundPlan, LoadableSegments, Yields;
    ParseByParts(elf.bytes);
    ParsedHeader(elf.bytes);
    var h := ParseHeader(elf.bytes).value;
    IteratorYieldsWholePlan(elf.bytes, h);
    assert SoundPlan(Plan(elf.bytes, h), |elf.bytes|) by { SoundWhenAcceptable(elf.bytes, h); }
    PlannedSegmentsLoadable(elf.bytes, Plan(elf.bytes, h));
  }

  lemma SoundWhenAcceptable(bytes: Slice, elf: ElfHeader)
    requires AcceptablePlan(bytes, elf)
    ensures SoundPlan(Plan(bytes, elf), elf.fileSize)
  {
    hide OnlyKnownKinds, SoundPlan;
  }

  // ---------------------------------------------------------------------------------
  // Segments against the records of the file.
  // ---------------------------------------------------------------------------------

  /** The 56 bytes of `h` stand in the program-header table at `index`. */
  predicate RecordAt(elf: ValidatedElf, index: u16, h: ProgramHeader) {
    && index < elf.programHeaderCount
    && var at := elf.programHeaderOffset + index * 56;
       at + 56 <= |elf.bytes| && elf.bytes[at..at + 56] == ProgramHeaderBytes(h)
  }

  /** The segment has every field of the record and the file bytes that it names. */
  predicate SaysWhat(s: LoadSegment, bytes: Slice, h: ProgramHeader) {
    && s.flags == h.flags && s.fileOffset == h.fileOffset && s.virtualAddress == h.virtualAddress
    && s.physicalAddress == h.physicalAddress && s.fileSize == h.fileSize && s.memorySize == h.memorySize
    && s.alignment == h.alignment
    && h.fileOffset + h.fileSize <= |bytes| && s.fileData == bytes[h.fileOffset..h.fileOffset + h.fileSize]
  }

  /** What acceptance says about the table and the yielded segments. */
  lemma YieldedPlan(elf: ValidatedElf) returns (header: ElfHeader)
    requires Parse(elf.bytes) == Ok(elf)
    ensures header.programHeaderOffset == elf.programHeaderOffset
    ensures header.programHeaderCount == elf.programHeaderCount && header.fileSize == |elf.bytes|
    ensures elf.programHeaderOffset + elf.programHeaderCount * 56 <= |elf.bytes|
    ensures SoundPlan(Plan(elf.bytes, header), |elf.bytes|) && FilesInside(elf.bytes, Plan(elf.bytes, header))
    ensures SegmentsIn(elf) == SegmentsOf(elf.bytes, Plan(elf.bytes, header))
  {
    hide Parse, AcceptablePlan, SoundPlan, Yields, FilesInside, PlanPrefix;
    ParseByParts(elf.bytes);
    ParsedHeader(elf.bytes);
    header := ParseHeader(elf.bytes).value;
    IteratorYieldsWholePlan(elf.bytes, header);
    SoundWhenAcceptable(elf.bytes, header);
  }

  /** Every load record of the file is yielded, with its index and all of its fields. */
  lemma RecordYielded(elf: ValidatedElf, index: u16, h: ProgramHeader) returns (k: nat)
    requires Parse(elf.bytes) == Ok(elf) && RecordAt(elf, index, h) && h.kind == 1
    ensures k < |SegmentsIn(elf)|
    ensures SegmentsIn(elf)[k].index == index && SaysWhat(SegmentsIn(elf)[k], elf.bytes, h)
  {
    hide Parse, Yields, ProgramHeaderBytes, DecodeProgramHeader, PlanPrefix, SoundPlan;
    var header := YieldedPlan(elf);
    DecodeInvertsLayout(elf.bytes, elf.programHeaderOffset, index, h);
    k := PlanHolds(elf.bytes, elf.programHeaderOffset, elf.programHeaderCount, index);
  }

  /**
    Every yielded segment comes from a load record of the file and says what it says; it is
    readable and never both writable and executable; and segments come in table order.
  */
  lemma YieldedRecord(elf: ValidatedElf, k: nat) returns (h: ProgramHeader)
    requires Parse(elf.bytes) == Ok(elf) && k < |SegmentsIn(elf)|
    ensures var s := SegmentsIn(elf)[k];
            && RecordAt(elf, s.index, h) && h.kind == 1 && SaysWhat(s, elf.bytes, h)
            && HasFlag(s.flags, 4) && !(HasFlag(s.flags, 2) && HasFlag(s.flags, 1))
            && (k > 0 ==> SegmentsIn(elf)[k - 1].index < s.index)
  {
    hide Parse, Yields, ProgramHeaderBytes, DecodeProgramHeader, PlanPrefix, HasFlag, IsPowerOfTwo, Remainder;
    var header := YieldedPlan(elf);
    var plan := Plan(elf.bytes, header);
    PlanStands(elf.bytes, elf.programHeaderOffset, elf.programHeaderCount, k);
    h := plan[k].header;
    DecodeInvertsLayout(elf.bytes, elf.programHeaderOffset, plan[k].index, h);
  }
}
