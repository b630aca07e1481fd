/** Which error `parse` reports: the first fault in a fixed order, with the values at fault. */
module ElfErrors {
  import opened Machine
  import opened BitMask
  import opened ElfImage
  import opened ElfPlan
  import LE = LittleEndian

  /** A file of the wrong size is rejected for that alone. */
  lemma SizeError(bytes: Slice)
    ensures |bytes| < 64 ==> Parse(bytes) == Err(Truncated(|bytes|, 64))
    ensures |bytes| > 0x100_0000 ==> Parse(bytes) == Err(FileTooLarge(|bytes|, 0x100_0000))
  {
  }

  // ---------------------------------------------------------------------------------
  // The file header.
  // ---------------------------------------------------------------------------------

  /** Fault number `r` of a file header in a file of `size` bytes. */
  predicate HeaderFault(r: nat, h: FileHeader, size: nat) {
    match r
    case 0 => h.ident[..4] != [0x7f, 0x45, 0x4c, 0x46]
    case 1 => h.ident[4] != 2
    case 2 => h.ident[5] != 1
    case 3 => h.ident[6] != 1
    case 4 => h.ident[7] != 0
    case 5 => h.ident[8] != 0
    case 6 => h.ident[9..] != [0, 0, 0, 0, 0, 0, 0]
    case 7 => h.objectType != 2
    case 8 => h.machine != 62
    case 9 => h.version != 1
    case 10 => h.flags != 0
    case 11 => h.headerSize != 64
    case 12 => h.programHeaderSize != 56
    case 13 => h.programHeaderCount == 0 || h.programHeaderCount > 8
    case 14 => h.programHeaderOffset < 64
    case 15 => h.programHeaderOffset + 56 * h.programHeaderCount >= 0x1_0000_0000_0000_0000
    case 16 => h.programHeaderOffset + 56 * h.programHeaderCount > size
    case 17 => h.entry < 0x20_0000 || h.entry >= 0x4000_0000
    case _ => false
  }

  /** How fault `r` is reported. */
  predicate ReportsHeader(e: ParseError, r: nat, h: FileHeader, size: nat) {
    match r
    case 0 => e == BadMagic
    case 1 => e == UnsupportedClass(h.ident[4])
    case 2 => e == UnsupportedByteOrder(h.ident[5])
    case 3 => e == UnsupportedIdentificationVersion(h.ident[6])
    case 4 => e == UnsupportedOsAbi(h.ident[7])
    case 5 => e == UnsupportedAbiVersion(h.ident[8])
    case 6 => e == NonZeroIdentificationPadding
    case 7 => e == UnsupportedObjectType(h.objectType)
    case 8 => e == UnsupportedMachine(h.machine)
    case 9 => e == UnsupportedVersion(h.version)
    case 10 => e == UnsupportedElfFlags(h.flags)
    case 11 => e == InvalidHeaderSize(h.headerSize, 64)
    case 12 => e == InvalidProgramHeaderSize(h.programHeaderSize, 56)
    case 13 => e == InvalidProgramHeaderCount(h.programHeaderCount, 8)
    case 14 => e == ProgramHeaderTableOverlapsHeader(h.programHeaderOffset)
    case 15 => e == ProgramHeaderTableOverflow
    case 16 =>
      && e.ProgramHeaderTableOutOfBounds? && e.tableFileSize == size
      && e.tableEnd == h.programHeaderOffset + 56 * h.programHeaderCount
    case 17 => e == EntryOutsideLoadWindow(h.entry)
    case _ => false
  }

  lemma IdentificationError(bytes: Slice, h: FileHeader, r: nat)
    requires |bytes| >= 64 && bytes[..64] == FileHeaderBytes(h)
    requires HeaderFault(r, h, |bytes|) && forall q: nat | q < r :: !HeaderFault(q, h, |bytes|)
    ensures r < 7 ==>
              ValidateIdentification(bytes).Err? && ReportsHeader(ValidateIdentification(bytes).error, r, h, |bytes|)
    ensures r >= 7 ==> ValidateIdentification(bytes).Ok?
  {
    var ident := h.ident;
    assert bytes[..16] == bytes[..64][..16] == FileHeaderBytes(h)[..16] == ident;
    assert forall i | 0 <= i < 16 :: bytes[i] == ident[i];
    assert bytes[0..4] == ident[..4];
    var faults := [HeaderFault(0, h, |bytes|), HeaderFault(1, h, |bytes|), HeaderFault(2, h, |bytes|),
                   HeaderFault(3, h, |bytes|), HeaderFault(4, h, |bytes|), HeaderFault(5, h, |bytes|),
                   HeaderFault(6, h, |bytes|)];
    PaddingFault(bytes, h);
  }

  lemma PaddingFault(bytes: Slice, h: FileHeader)
    requires |bytes| >= 64 && forall i | 0 <= i < 16 :: bytes[i] == h.ident[i]
    ensures (exists i | 9 <= i < 16 :: bytes[i] != 0) <==> h.ident[9..] != [0, 0, 0, 0, 0, 0, 0]
  {
    var padding := h.ident[9..];
    assert forall i | 0 <= i < 7 :: padding[i] == bytes[9 + i];
    if padding == [0, 0, 0, 0, 0, 0, 0] {
      assert forall i | 0 <= i < 7 :: padding[i] == 0;
    }
  }

  lemma FieldsError(bytes: Slice, h: FileHeader, r: nat)
    requires |bytes| >= 64 && bytes[..64] == FileHeaderBytes(h)
    requires 7 <= r && HeaderFault(r, h, |bytes|) && forall q: nat | q < r :: !HeaderFault(q, h, |bytes|)
    ensures ParseHeader(bytes).Err? && ReportsHeader(ParseHeader(bytes).error, r, h, |bytes|)
  {
    hide FileHeaderBytes, LE.ReadU16, LE.ReadU32, LE.ReadU64;
    HeaderReadsFields(bytes, h);
    var faults := [HeaderFault(7, h, |bytes|), HeaderFault(8, h, |bytes|), HeaderFault(9, h, |bytes|),
                   HeaderFault(10, h, |bytes|), HeaderFault(11, h, |bytes|), HeaderFault(12, h, |bytes|),
                   HeaderFault(13, h, |bytes|), HeaderFault(14, h, |bytes|), HeaderFault(15, h, |bytes|),
                   HeaderFault(16, h, |bytes|), HeaderFault(17, h, |bytes|)];
  }

  /** The first fault of the file header, in this order, is what is reported. */
  lemma HeaderErrorFirst(bytes: Slice, h: FileHeader, r: nat)
    requires 64 <= |bytes| <= 0x100_0000 && bytes[..64] == FileHeaderBytes(h)
    requires HeaderFault(r, h, |bytes|) && forall q: nat | q < r :: !HeaderFault(q, h, |bytes|)
    ensures Parse(bytes).Err? && ReportsHeader(Parse(bytes).error, r, h, |bytes|)
  {
    hide FileHeaderBytes, HeaderFault, ReportsHeader, ParseHeader, ValidateIdentification, ScanResult;
    IdentificationError(bytes, h, r);
    if r >= 7 {
      FieldsError(bytes, h, r);
    }
  }

  // ---------------------------------------------------------------------------------
  // One segment.
  // ---------------------------------------------------------------------------------

  /** Fault number `r` of a load record in a file of `size` bytes, over unbounded integers. */
  predicate SegmentFault(r: nat, h: ProgramHeader, size: nat) {
    match r
    case 0 => h.flags > 7
    case 1 => !HasFlag(h.flags, 4)
    case 2 => HasFlag(h.flags, 2) && HasFlag(h.flags, 1)
    case 3 => h.memorySize == 0
    case 4 => h.fileSize > h.memorySize
    case 5 => h.fileOffset + h.fileSize >= 0x1_0000_0000_0000_0000
    case 6 => h.fileOffset + h.fileSize > size
    case 7 => h.virtualAddress != h.physicalAddress
    case 8 => !IsPowerOfTwo(h.alignment) || h.alignment < 4096 || h.alignment > 0x20_0000
    case 9 =>
      || h.physicalAddress % 4096 != 0
      || (h.alignment > 0 && Remainder(h.physicalAddress, h.alignment) != Remainder(h.fileOffset, h.alignment))
    case 10 => h.physicalAddress + h.memorySize >= 0x1_0000_0000_0000_0000
    case 11 => h.physicalAddress < 0x20_0000 || h.physicalAddress + h.memorySize > 0x4000_0000
    case _ => false
  }

  predicate ReportsSegment(e: ParseError, r: nat, index: u16, h: ProgramHeader, size: nat) {
    match r
    case 0 => e == UnknownSegmentFlags(index, h.flags)
    case 1 => e == NonReadableSegment(index)
    case 2 => e == WriteExecuteSegment(index)
    case 3 => e == EmptyMemorySegment(index)
    case 4 => e == FileLargerThanMemory(index, h.fileSize, h.memorySize)
    case 5 => e == SegmentFileRangeOverflow(index)
    case 6 =>
      && e.SegmentFileRangeOutOfBounds? && e.index == index && e.end == h.fileOffset + h.fileSize
      && e.imageSize == size
    case 7 => e == VirtualPhysicalAddressMismatch(index, h.virtualAddress, h.physicalAddress)
    case 8 => e == InvalidSegmentAlignment(index, h.alignment)
    case 9 => e == MisalignedSegment(index, h.physicalAddress, h.fileOffset, h.alignment)
    case 10 => e == SegmentMemoryRangeOverflow(index)
    case 11 =>
      && e.SegmentOutsideLoadWindow? && e.index == index && e.start == h.physicalAddress
      && e.end == h.physicalAddress + h.memorySize
    case _ => false
  }

  /** The first fault of a load record, in this order, is what is reported. */
  lemma SegmentErrorFirst(index: u16, h: ProgramHeader, size: u64, r: nat)
    requires SegmentFault(r, h, size) && forall q: nat | q < r :: !SegmentFault(q, h, size)
    ensures var verdict := ValidateLoadSegment(index, h, size);
            verdict.Err? && ReportsSegment(verdict.error, r, index, h, size)
  {
    hide IsPowerOfTwo, Remainder, HasFlag;
    var faults := [SegmentFault(0, h, size), SegmentFault(1, h, size), SegmentFault(2, h, size),
                   SegmentFault(3, h, size), SegmentFault(4, h, size), SegmentFault(5, h, size),
                   SegmentFault(6, h, size), SegmentFault(7, h, size), SegmentFault(8, h, size),
                   SegmentFault(9, h, size), SegmentFault(10, h, size), SegmentFault(11, h, size)];
  }

  // ---------------------------------------------------------------------------------
  // The table.
  // ---------------------------------------------------------------------------------

  /** Fault number `r` of record `h` after the load records of `plan`. */
  predicate RecordFault(r: nat, plan: seq<PlanEntry>, h: ProgramHeader, size: nat) {
    match r
    case 0 => h.kind > 1
    case 1 => h.kind == 1 && |plan| >= 4
    case 2 => h.kind == 1 && !WellFormedSegment(h, size)
    case 3 => h.kind == 1 && plan != [] && h.physicalAddress < plan[|plan| - 1].header.physicalAddress
    case 4 => h.kind == 1 && plan != [] && h.physicalAddress < HeaderPageEnd(plan[|plan| - 1].header)
    case 5 => h.kind == 1 && TotalMemory(plan) + h.memorySize > 0x400_0000
    case _ => false
  }

  predicate ReportsRecord(e: ParseError, r: nat, plan: seq<PlanEntry>, index: u16, h: ProgramHeader, size: u64) {
    match r
    case 0 => e == UnsupportedProgramHeaderType(index, h.kind)
    case 1 => e == TooManyLoadSegments(5, 4)
    case 2 => ValidateLoadSegment(index, h, size) == Err(e)
    case 3 => plan != [] && e == UnsortedSegments(plan[|plan| - 1].index, index)
    case 4 => plan != [] && e == OverlappingSegments(plan[|plan| - 1].index, index)
    case 5 =>
      && e.TotalLoadSizeTooLarge? && e.total == TotalMemory(plan) + h.memorySize && e.totalMaximum == 0x400_0000
    case _ => false
  }

  /** After a sound prefix of the table, the first fault of the next record is what the scan reports. */
  lemma RecordErrorFirst(bytes: Slice, elf: ElfHeader, n: u16, h: ProgramHeader, r: nat)
    requires n < elf.programHeaderCount && ScanPrefix(bytes, elf, n).Ok?
    requires DecodeProgramHeader(bytes, elf.programHeaderOffset, n) == Some(h)
    requires var plan := PlanPrefix(bytes, elf.programHeaderOffset, n);
             && RecordFault(r, plan, h, elf.fileSize)
             && forall q: nat | q < r :: !RecordFault(q, plan, h, elf.fileSize)
    ensures var plan := PlanPrefix(bytes, elf.programHeaderOffset, n);
            ScanResult(bytes, elf).Err? && ReportsRecord(ScanResult(bytes, elf).error, r, plan, n, h, elf.fileSize)
  {
    hide DecodeProgramHeader, ScanPrefix, PlanPrefix, ValidateLoadSegment, WellFormedSegment, AlignUp, SoundPlan,
         RecordFault, ReportsRecord, OnlyKnownKinds;
    var plan := PlanPrefix(bytes, elf.programHeaderOffset, n);
    var s := ScanPrefix(bytes, elf, n).value;
    ScanPrefixExact(bytes, elf, n);
    NextScan(bytes, elf, n);
    StepReports(elf, n, h, s, plan, r, bytes);
    FirstErrorStands(bytes, elf, n + 1, elf.programHeaderCount);
  }

  lemma NextScan(bytes: Slice, elf: ElfHeader, n: u16)
    requires n < 0xffff && ScanPrefix(bytes, elf, n).Ok?
    ensures ScanPrefix(bytes, elf, n + 1) == ScanHeader(bytes, elf, n, ScanPrefix(bytes, elf, n).value)
  {
  }

  lemma StepReports(elf: ElfHeader, n: u16, h: ProgramHeader, s: Scan, plan: seq<PlanEntry>, r: nat, bytes: Slice)
    requires SoundPlan(plan, elf.fileSize) && Summarizes(s, plan, elf.entry)
    requires DecodeProgramHeader(bytes, elf.programHeaderOffset, n) == Some(h)
    requires RecordFault(r, plan, h, elf.fileSize) && forall q: nat | q < r :: !RecordFault(q, plan, h, elf.fileSize)
    ensures var verdict := ScanHeader(bytes, elf, n, s);
            verdict.Err? && ReportsRecord(verdict.error, r, plan, n, h, elf.fileSize)
  {
    hide DecodeProgramHeader, ValidateLoadSegment, WellFormedSegment, AlignUp, TotalMemory, ExecutableAt, HasFlag;
    var faults := [RecordFault(0, plan, h, elf.fileSize), RecordFault(1, plan, h, elf.fileSize),
                   RecordFault(2, plan, h, elf.fileSize), RecordFault(3, plan, h, elf.fileSize),
                   RecordFault(4, plan, h, elf.fileSize), RecordFault(5, plan, h, elf.fileSize)];
    ValidatesExactlyWellFormed(n, h, elf.fileSize);
    if WellFormedSegment(h, elf.fileSize) {
      PageEndOf(h, elf.fileSize);
      SizeOf(h, elf.fileSize);
    }
  }

  lemma SizeOf(h: ProgramHeader, size: int)
    requires WellFormedSegment(h, size)
    ensures 0 < h.memorySize <= 0x4000_0000
  {
  }

  /** A sound table without load records, or whose load records miss the entry, is rejected for that. */
  lemma PlanEndError(bytes: Slice, elf: ElfHeader)
    requires ScanPrefix(bytes, elf, elf.programHeaderCount).Ok?
    ensures Plan(bytes, elf) == [] ==> ScanResult(bytes, elf) == Err(NoLoadSegments)
    ensures Plan(bytes, elf) != [] && !ExecutableAt(Plan(bytes, elf), elf.entry) ==>
              ScanResult(bytes, elf) == Err(EntryNotExecutable(elf.entry))
  {
    hide ScanPrefix, PlanPrefix, ExecutableAt, SoundPlan, OnlyKnownKinds, TotalMemory;
    ScanPrefixExact(bytes, elf, elf.programHeaderCount);
  }

  /** What the scan reports for an admissible header is what `parse` reports. */
  lemma ScanErrorReported(bytes: Slice, h: FileHeader)
    requires 64 <= |bytes| <= 0x100_0000 && bytes[..64] == FileHeaderBytes(h) && AdmissibleHeader(h, |bytes|)
    ensures var verdict := ScanResult(bytes, HeaderOf(h, |bytes|));
            verdict.Err? ==> Parse(bytes) == Err(verdict.error)
  {
    hide FileHeaderBytes, ParseHeader, ValidateIdentification, ScanResult;
    HeaderAcceptedExactly(bytes, h);
  }
}
