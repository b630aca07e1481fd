/** The ELF64 subset: constants, raw records, the file header and one program header. */
module ElfImage {
  import opened Machine
  import opened BitMask
  import LE = LittleEndian

  const MIN_LOAD_ADDRESS: u64 := 0x20_0000
  const MAX_LOAD_ADDRESS_EXCLUSIVE: u64 := 0x4000_0000
  const MAX_ELF_FILE_SIZE: nat := 0x100_0000
  const MAX_PROGRAM_HEADERS: u16 := 8
  const MAX_LOAD_SEGMENTS: u16 := 4
  const MAX_TOTAL_LOAD_SIZE: u64 := 0x400_0000
  const PAGE_SIZE: u64 := 4096
  const MAX_SEGMENT_ALIGNMENT: u64 := 0x20_0000
  const ELF_HEADER_SIZE: nat := 64
  const PROGRAM_HEADER_SIZE: nat := 56
  const ELF_MAGIC: seq<u8> := [0x7f, 0x45, 0x4c, 0x46]
  const ET_EXEC: u16 := 2
  const EM_X86_64: u16 := 62
  const PT_NULL: u32 := 0
  const PT_LOAD: u32 := 1
  const PF_X: u32 := 1
  const PF_W: u32 := 2
  const PF_R: u32 := 4
  const KNOWN_SEGMENT_FLAGS: u32 := 7

  datatype ParseError =
    | Truncated(provided: nat, required: nat)
    | FileTooLarge(size: nat, maximum: nat)
    | BadMagic
    | UnsupportedClass(class_: u8)
    | UnsupportedByteOrder(encoding: u8)
    | UnsupportedIdentificationVersion(identVersion: u8)
    | UnsupportedOsAbi(osAbi: u8)
    | UnsupportedAbiVersion(abiVersion: u8)
    | NonZeroIdentificationPadding
    | UnsupportedObjectType(objectType: u16)
    | UnsupportedMachine(machine: u16)
    | UnsupportedVersion(version: u32)
    | UnsupportedElfFlags(elfFlags: u32)
    | InvalidHeaderSize(headerFound: u16, headerExpected: u16)
    | InvalidProgramHeaderSize(strideFound: u16, strideExpected: u16)
    | InvalidProgramHeaderCount(count: u16, countMaximum: u16)
    | ProgramHeaderTableOverlapsHeader(offset: u64)
    | ProgramHeaderTableOverflow
    | ProgramHeaderTableOutOfBounds(tableEnd: u64, tableFileSize: u64)
    | UnsupportedProgramHeaderType(kindIndex: u16, kind: u32)
    | TooManyLoadSegments(loadCount: u16, loadMaximum: u16)
    | NoLoadSegments
    | UnknownSegmentFlags(flagsIndex: u16, flags: u32)
    | NonReadableSegment(index: u16)
    | WriteExecuteSegment(index: u16)
    | EmptyMemorySegment(index: u16)
    | FileLargerThanMemory(index: u16, fileSize: u64, memorySize: u64)
    | SegmentFileRangeOverflow(index: u16)
    | SegmentFileRangeOutOfBounds(index: u16, end: u64, imageSize: u64)
    | SegmentMemoryRangeOverflow(index: u16)
    | SegmentOutsideLoadWindow(index: u16, start: u64, end: u64)
    | VirtualPhysicalAddressMismatch(index: u16, virtualAddress: u64, physicalAddress: u64)
    | InvalidSegmentAlignment(index: u16, alignment: u64)
    | MisalignedSegment(index: u16, address: u64, fileOffset: u64, alignment: u64)
    | UnsortedSegments(previous: u16, current: u16)
    | OverlappingSegments(previous: u16, current: u16)
    | TotalLoadSizeOverflow
    | TotalLoadSizeTooLarge(total: u64, totalMaximum: u64)
    | EntryOutsideLoadWindow(entry: u64)
    | EntryNotExecutable(entry: u64)

  datatype ElfHeader = ElfHeader(
    entry: u64, programHeaderOffset: usize, programHeaderCount: u16,
    programHeaderTableEnd: u64, fileSize: u64)

  datatype ProgramHeader = ProgramHeader(
    kind: u32, flags: u32, fileOffset: u64, virtualAddress: u64, physicalAddress: u64,
    fileSize: u64, memorySize: u64, alignment: u64)

  datatype LoadSegment = LoadSegment(
    index: u16, flags: u32, fileOffset: u64, virtualAddress: u64, physicalAddress: u64,
    fileSize: u64, memorySize: u64, alignment: u64, fileData: seq<u8>)

  function ValidateIdentification(bytes: Slice): Result<(), ParseError>
    requires |bytes| >= ELF_HEADER_SIZE
  {
    if bytes[0..4] != ELF_MAGIC then Err(BadMagic)
    else if bytes[4] != 2 then Err(UnsupportedClass(bytes[4]))
    else if bytes[5] != 1 then Err(UnsupportedByteOrder(bytes[5]))
    else if bytes[6] != 1 then Err(UnsupportedIdentificationVersion(bytes[6]))
    else if bytes[7] != 0 then Err(UnsupportedOsAbi(bytes[7]))
    else if bytes[8] != 0 then Err(UnsupportedAbiVersion(bytes[8]))
    else if exists i | 9 <= i < 16 :: bytes[i] != 0 then Err(NonZeroIdentificationPadding)
    else Ok(())
  }

  function ParseHeader(bytes: Slice): Result<ElfHeader, ParseError> {
    var truncated := Truncated(|bytes|, ELF_HEADER_SIZE);
    var objectType :- LE.ReadU16(bytes, 16).OkOr(truncated);
    var machine :- LE.ReadU16(bytes, 18).OkOr(truncated);
    var version :- LE.ReadU32(bytes, 20).OkOr(truncated);
    var entry :- LE.ReadU64(bytes, 24).OkOr(truncated);
    var programHeaderOffset :- LE.ReadU64(bytes, 32).OkOr(truncated);
    var flags :- LE.ReadU32(bytes, 48).OkOr(truncated);
    var headerSize :- LE.ReadU16(bytes, 52).OkOr(truncated);
    var programHeaderSize :- LE.ReadU16(bytes, 54).OkOr(truncated);
    var programHeaderCount :- LE.ReadU16(bytes, 56).OkOr(truncated);
    if objectType != ET_EXEC then Err(UnsupportedObjectType(objectType))
    else if machine != EM_X86_64 then Err(UnsupportedMachine(machine))
    else if version != 1 then Err(UnsupportedVersion(version))
    else if flags != 0 then Err(UnsupportedElfFlags(flags))
    else if headerSize != 64 then Err(InvalidHeaderSize(headerSize, 64))
    else if programHeaderSize != 56 then Err(InvalidProgramHeaderSize(programHeaderSize, 56))
    else if programHeaderCount == 0 || programHeaderCount > MAX_PROGRAM_HEADERS then
      Err(InvalidProgramHeaderCount(programHeaderCount, MAX_PROGRAM_HEADERS))
    else if programHeaderOffset < 64 then Err(ProgramHeaderTableOverlapsHeader(programHeaderOffset))
    else
      var tableSize :- CheckedMul(programHeaderCount, 56).OkOr(ProgramHeaderTableOverflow);
      var tableEnd :- CheckedAdd(programHeaderOffset, tableSize).OkOr(ProgramHeaderTableOverflow);
      if tableEnd > |bytes| then Err(ProgramHeaderTableOutOfBounds(tableEnd, |bytes|))
      else if !(MIN_LOAD_ADDRESS <= entry < MAX_LOAD_ADDRESS_EXCLUSIVE) then
        Err(EntryOutsideLoadWindow(entry))
      else
        Ok(ElfHeader(entry, programHeaderOffset, programHeaderCount, tableEnd, |bytes|))
  }

  /** An accepted header describes a program-header table inside the file and an entry in the window. */
  lemma ParsedHeader(bytes: Slice)
    requires ParseHeader(bytes).Ok?
    ensures var elf := ParseHeader(bytes).value;
            && 1 <= elf.programHeaderCount <= MAX_PROGRAM_HEADERS
            && ELF_HEADER_SIZE <= elf.programHeaderOffset
            && elf.programHeaderTableEnd
               == elf.programHeaderOffset + elf.programHeaderCount * PROGRAM_HEADER_SIZE
            && elf.programHeaderTableEnd <= elf.fileSize == |bytes|
            && MIN_LOAD_ADDRESS <= elf.entry < MAX_LOAD_ADDRESS_EXCLUSIVE
  {
  }

  /**
    Every `offset + k` is a plain addition: it is in range because the read before it
    stayed inside the slice.
  */
  function DecodeProgramHeader(bytes: Slice, tableOffset: usize, index: u16): Option<ProgramHeader> {
    var stride :- CheckedMul(index, PROGRAM_HEADER_SIZE);
    var offset :- CheckedAdd(tableOffset, stride);
    var kind :- LE.ReadU32(bytes, offset);
    var flags :- LE.ReadU32(bytes, offset + 4);
    var fileOffset :- LE.ReadU64(bytes, offset + 8);
    var virtualAddress :- LE.ReadU64(bytes, offset + 16);
    var physicalAddress :- LE.ReadU64(bytes, offset + 24);
    var fileSize :- LE.ReadU64(bytes, offset + 32);
    var memorySize :- LE.ReadU64(bytes, offset + 40);
    var alignment :- LE.ReadU64(bytes, offset + 48);
    Some(ProgramHeader(kind, flags, fileOffset, virtualAddress, physicalAddress,
                       fileSize, memorySize, alignment))
  }

  /** A header decodes exactly when its 56 bytes lie inside the file. */
  lemma DecodesInsideTable(bytes: Slice, tableOffset: usize, index: u16)
    ensures DecodeProgramHeader(bytes, tableOffset, index).Some?
       <==> tableOffset + (index + 1) * PROGRAM_HEADER_SIZE <= |bytes|
  {
  }

  /** An ELF64 program header, field after field, as in chapter 5 of the System V gABI. */
  function ProgramHeaderBytes(h: ProgramHeader): (r: seq<u8>)
    ensures |r| == PROGRAM_HEADER_SIZE
  {
    LE.Bytes(h.kind, 4) + LE.Bytes(h.flags, 4) + LE.Bytes(h.fileOffset, 8) + LE.Bytes(h.virtualAddress, 8)
    + LE.Bytes(h.physicalAddress, 8) + LE.Bytes(h.fileSize, 8) + LE.Bytes(h.memorySize, 8) + LE.Bytes(h.alignment, 8)
  }

  predicate ProgramHeaderAt(b: seq<u8>, at: nat, h: ProgramHeader)
    requires at + 56 <= |b|
  {
    && b[at..at + 4] == LE.Bytes(h.kind, 4) && b[at + 4..at + 8] == LE.Bytes(h.flags, 4)
    && b[at + 8..at + 16] == LE.Bytes(h.fileOffset, 8) && b[at + 16..at + 24] == LE.Bytes(h.virtualAddress, 8)
    && b[at + 24..at + 32] == LE.Bytes(h.physicalAddress, 8) && b[at + 32..at + 40] == LE.Bytes(h.fileSize, 8)
    && b[at + 40..at + 48] == LE.Bytes(h.memorySize, 8) && b[at + 48..at + 56] == LE.Bytes(h.alignment, 8)
  }

  lemma SubSlice(b: seq<u8>, at: nat, i: nat, j: nat)
    requires i <= j <= 56 && at + 56 <= |b|
    ensures b[at..at + 56][i..j] == b[at + i..at + j]
  {
    var s, t := b[at..at + 56][i..j], b[at + i..at + j];
    assert forall k | 0 <= k < j - i :: s[k] == b[at..at + 56][i + k] == b[at + i + k] == t[k];
  }

  lemma ProgramHeaderFields(b: seq<u8>, at: nat, h: ProgramHeader)
    requires at + 56 <= |b|
    ensures ProgramHeaderAt(b, at, h) <==> b[at..at + 56] == ProgramHeaderBytes(h)
  {
    hide LE.Bytes;
    var s, t := b[at..at + 56], ProgramHeaderBytes(h);
    SubSlice(b, at, 0, 4);
    SubSlice(b, at, 4, 8);
    SubSlice(b, at, 8, 16);
    SubSlice(b, at, 16, 24);
    SubSlice(b, at, 24, 32);
    SubSlice(b, at, 32, 40);
    SubSlice(b, at, 40, 48);
    SubSlice(b, at, 48, 56);
    var p1 := LE.Bytes(h.kind, 4);
    var p2 := p1 + LE.Bytes(h.flags, 4);
    var p3 := p2 + LE.Bytes(h.fileOffset, 8);
    var p4 := p3 + LE.Bytes(h.virtualAddress, 8);
    var p5 := p4 + LE.Bytes(h.physicalAddress, 8);
    var p6 := p5 + LE.Bytes(h.fileSize, 8);
    var p7 := p6 + LE.Bytes(h.memorySize, 8);
    assert t[..56] == p7 + LE.Bytes(h.alignment, 8);
    LE.Chop(t, 56, p7, LE.Bytes(h.alignment, 8));
    LE.Chop(t, 48, p6, LE.Bytes(h.memorySize, 8));
    LE.Chop(t, 40, p5, LE.Bytes(h.fileSize, 8));
    LE.Chop(t, 32, p4, LE.Bytes(h.physicalAddress, 8));
    LE.Chop(t, 24, p3, LE.Bytes(h.virtualAddress, 8));
    LE.Chop(t, 16, p2, LE.Bytes(h.fileOffset, 8));
    LE.Chop(t, 8, p1, LE.Bytes(h.flags, 4));
    assert s == s[0..4] + s[4..8] + s[8..16] + s[16..24] + s[24..32] + s[32..40] + s[40..48] + s[48..56];
  }

  /** Decoding inverts the ELF64 layout: it yields `h` exactly when the bytes at that index are those of `h`. */
  lemma DecodeInvertsLayout(bytes: Slice, tableOffset: usize, index: u16, h: ProgramHeader)
    requires tableOffset + (index + 1) * PROGRAM_HEADER_SIZE <= |bytes|
    ensures var at := tableOffset + index * PROGRAM_HEADER_SIZE;
            DecodeProgramHeader(bytes, tableOffset, index) == Some(h)
            <==> bytes[at..at + PROGRAM_HEADER_SIZE] == ProgramHeaderBytes(h)
  {
    hide LE.Bytes, LE.Read, LE.Pow256, LE.ReadU32, LE.ReadU64, ProgramHeaderBytes;
    LE.Widths();
    var at := tableOffset + index * PROGRAM_HEADER_SIZE;
    ProgramHeaderFields(bytes, at, h);
    InsideReads(bytes, at);
    LE.FieldIs(bytes, at, 4, h.kind);
    LE.FieldIs(bytes, at + 4, 4, h.flags);
    LE.FieldIs(bytes, at + 8, 8, h.fileOffset);
    LE.FieldIs(bytes, at + 16, 8, h.virtualAddress);
    LE.FieldIs(bytes, at + 24, 8, h.physicalAddress);
    LE.FieldIs(bytes, at + 32, 8, h.fileSize);
    LE.FieldIs(bytes, at + 40, 8, h.memorySize);
    LE.FieldIs(bytes, at + 48, 8, h.alignment);
  }

  lemma InsideReads(bytes: Slice, at: nat)
    requires at + 56 <= |bytes|
    ensures LE.ReadU32(bytes, at).Some? && LE.ReadU32(bytes, at + 4).Some?
    ensures LE.ReadU64(bytes, at + 8).Some? && LE.ReadU64(bytes, at + 16).Some? && LE.ReadU64(bytes, at + 24).Some?
    ensures LE.ReadU64(bytes, at + 32).Some? && LE.ReadU64(bytes, at + 40).Some? && LE.ReadU64(bytes, at + 48).Some?
  {
  }

  // ---------------------------------------------------------------------------------
  // The file header against its own layout.
  // ---------------------------------------------------------------------------------

  type Identification = s: seq<u8> | |s| == 16 witness seq(16, _ => 0)

  /** The ELF64 file header, as in chapter 4 of the System V gABI. */
  datatype FileHeader = FileHeader(
    ident: Identification, objectType: u16, machine: u16, version: u32, entry: u64,
    programHeaderOffset: u64, sectionHeaderOffset: u64, flags: u32, headerSize: u16,
    programHeaderSize: u16, programHeaderCount: u16, sectionHeaderSize: u16,
    sectionHeaderCount: u16, sectionNameIndex: u16)

  function FileHeaderBytes(h: FileHeader): (r: seq<u8>)
    ensures |r| == ELF_HEADER_SIZE
  {
    h.ident + LE.Bytes(h.objectType, 2) + LE.Bytes(h.machine, 2) + LE.Bytes(h.version, 4) + LE.Bytes(h.entry, 8)
    + LE.Bytes(h.programHeaderOffset, 8) + LE.Bytes(h.sectionHeaderOffset, 8) + LE.Bytes(h.flags, 4)
    + LE.Bytes(h.headerSize, 2) + LE.Bytes(h.programHeaderSize, 2) + LE.Bytes(h.programHeaderCount, 2)
    + LE.Bytes(h.sectionHeaderSize, 2) + LE.Bytes(h.sectionHeaderCount, 2) + LE.Bytes(h.sectionNameIndex, 2)
  }

  predicate HeaderReads(bytes: Slice, h: FileHeader) {
    && LE.ReadU16(bytes, 16) == Some(h.objectType) && LE.ReadU16(bytes, 18) == Some(h.machine)
    && LE.ReadU32(bytes, 20) == Some(h.version) && LE.ReadU64(bytes, 24) == Some(h.entry)
    && LE.ReadU64(bytes, 32) == Some(h.programHeaderOffset) && LE.ReadU32(bytes, 48) == Some(h.flags)
    && LE.ReadU16(bytes, 52) == Some(h.headerSize) && LE.ReadU16(bytes, 54) == Some(h.programHeaderSize)
    && LE.ReadU16(bytes, 56) == Some(h.programHeaderCount)
  }

  lemma HeaderReadsFields(bytes: Slice, h: FileHeader)
    requires |bytes| >= 64 && bytes[..64] == FileHeaderBytes(h)
    ensures HeaderReads(bytes, h)
  {
    hide LE.Bytes, LE.Read, LE.Pow256, LE.ReadU16, LE.ReadU32, LE.ReadU64;
    LE.Widths();
    var p1 := h.ident;
    var p2 := p1 + LE.Bytes(h.objectType, 2);
    var p3 := p2 + LE.Bytes(h.machine, 2);
    var p4 := p3 + LE.Bytes(h.version, 4);
    var p5 := p4 + LE.Bytes(h.entry, 8);
    var p6 := p5 + LE.Bytes(h.programHeaderOffset, 8);
    var p7 := p6 + LE.Bytes(h.sectionHeaderOffset, 8);
    var p8 := p7 + LE.Bytes(h.flags, 4);
    var p9 := p8 + LE.Bytes(h.headerSize, 2);
    var p10 := p9 + LE.Bytes(h.programHeaderSize, 2);
    var p11 := p10 + LE.Bytes(h.programHeaderCount, 2);
    var p12 := p11 + LE.Bytes(h.sectionHeaderSize, 2);
    var p13 := p12 + LE.Bytes(h.sectionHeaderCount, 2);
    assert bytes[..64] == p13 + LE.Bytes(h.sectionNameIndex, 2);
    LE.Chop(bytes, 64, p13, LE.Bytes(h.sectionNameIndex, 2));
    LE.Chop(bytes, 62, p12, LE.Bytes(h.sectionHeaderCount, 2));
    LE.Chop(bytes, 60, p11, LE.Bytes(h.sectionHeaderSize, 2));
    LE.Chop(bytes, 58, p10, LE.Bytes(h.programHeaderCount, 2));
    LE.Chop(bytes, 56, p9, LE.Bytes(h.programHeaderSize, 2));
    LE.Chop(bytes, 54, p8, LE.Bytes(h.headerSize, 2));
    LE.Chop(bytes, 52, p7, LE.Bytes(h.flags, 4));
    LE.Chop(bytes, 48, p6, LE.Bytes(h.sectionHeaderOffset, 8));
    LE.Chop(bytes, 40, p5, LE.Bytes(h.programHeaderOffset, 8));
    LE.Chop(bytes, 32, p4, LE.Bytes(h.entry, 8));
    LE.Chop(bytes, 24, p3, LE.Bytes(h.version, 4));
    LE.Chop(bytes, 20, p2, LE.Bytes(h.machine, 2));
    LE.Chop(bytes, 18, p1, LE.Bytes(h.objectType, 2));
    LE.FieldIs(bytes, 16, 2, h.objectType);
    LE.FieldIs(bytes, 18, 2, h.machine);
    LE.FieldIs(bytes, 20, 4, h.version);
    LE.FieldIs(bytes, 24, 8, h.entry);
    LE.FieldIs(bytes, 32, 8, h.programHeaderOffset);
    LE.FieldIs(bytes, 48, 4, h.flags);
    LE.FieldIs(bytes, 52, 2, h.headerSize);
    LE.FieldIs(bytes, 54, 2, h.programHeaderSize);
    LE.FieldIs(bytes, 56, 2, h.programHeaderCount);
  }

  /** 0x7f, `ELF`, 64-bit, little-endian, version 1, System V, and zeros. */
  const IDENTIFICATION: Identification := [0x7f, 0x45, 0x4c, 0x46, 2, 1, 1, 0, 0, 0, 0, 0, 0, 0, 0, 0]

  /** The file headers that the profile admits in a file of `size` bytes. */
  predicate AdmissibleHeader(h: FileHeader, size: nat) {
    && h.ident == IDENTIFICATION
    && h.objectType == 2 && h.machine == 62 && h.version == 1 && h.flags == 0
    && h.headerSize == 64 && h.programHeaderSize == 56
    && 1 <= h.programHeaderCount <= 8
    && 64 <= h.programHeaderOffset && h.programHeaderOffset + 56 * h.programHeaderCount <= size
    && 0x20_0000 <= h.entry < 0x4000_0000
  }

  lemma IdentificationExact(bytes: Slice)
    requires |bytes| >= 64
    ensures ValidateIdentification(bytes).Ok? <==> bytes[..16] == IDENTIFICATION
  {
    var s := bytes[..16];
    assert s[..4] == bytes[0..4];
    if ValidateIdentification(bytes).Ok? {
      forall i | 0 <= i < 16
        ensures s[i] == IDENTIFICATION[i]
      {
        if i < 4 {
          assert bytes[0..4][i] == bytes[i];
        }
      }
    }
    if s == IDENTIFICATION {
      assert forall i | 0 <= i < 16 :: bytes[i] == IDENTIFICATION[i];
      assert bytes[0..4] == ELF_MAGIC;
    }
  }

  lemma FieldValue(b: seq<u8>, at: nat, n: nat) returns (v: nat)
    requires at + n <= |b|
    ensures v < LE.Pow256(n) && LE.Bytes(v, n) == b[at..at + n]
  {
    v := LE.Value(b[at..at + n]);
    LE.ValueBound(b[at..at + n]);
    LE.BytesOfValue(b[at..at + n]);
  }

  /** Every 64 bytes are the layout of some file header. */
  lemma SomeFileHeader(b: seq<u8>) returns (h: FileHeader)
    requires |b| == 64
    ensures b == FileHeaderBytes(h)
  {
    hide LE.Bytes, LE.Pow256;
    LE.Widths();
    var objectType := FieldValue(b, 16, 2);
    var machine := FieldValue(b, 18, 2);
    var version := FieldValue(b, 20, 4);
    var entry := FieldValue(b, 24, 8);
    var tableOffset := FieldValue(b, 32, 8);
    var sectionOffset := FieldValue(b, 40, 8);
    var flags := FieldValue(b, 48, 4);
    var headerSize := FieldValue(b, 52, 2);
    var recordSize := FieldValue(b, 54, 2);
    var recordCount := FieldValue(b, 56, 2);
    var sectionSize := FieldValue(b, 58, 2);
    var sectionCount := FieldValue(b, 60, 2);
    var nameIndex := FieldValue(b, 62, 2);
    h := FileHeader(b[..16], objectType, machine, version, entry, tableOffset, sectionOffset, flags, headerSize,
                    recordSize, recordCount, sectionSize, sectionCount, nameIndex);
    assert b == b[..16] + b[16..18] + b[18..20] + b[20..24] + b[24..32] + b[32..40] + b[40..48] + b[48..52]
                + b[52..54] + b[54..56] + b[56..58] + b[58..60] + b[60..62] + b[62..64];
  }

  /** The parsed form of an admissible file header. */
  function HeaderOf(h: FileHeader, size: u64): ElfHeader
    requires AdmissibleHeader(h, size)
  {
    ElfHeader(h.entry, h.programHeaderOffset, h.programHeaderCount,
              h.programHeaderOffset + 56 * h.programHeaderCount, size)
  }

  /** Identification and header checks accept exactly the admissible file headers, read at their own offsets. */
  lemma HeaderAcceptedExactly(bytes: Slice, h: FileHeader)
    requires |bytes| >= 64 && bytes[..64] == FileHeaderBytes(h)
    ensures ValidateIdentification(bytes).Ok? && ParseHeader(bytes).Ok? <==> AdmissibleHeader(h, |bytes|)
    ensures AdmissibleHeader(h, |bytes|) ==> ParseHeader(bytes) == Ok(HeaderOf(h, |bytes|))
  {
    hide LE.Bytes, LE.ReadU16, LE.ReadU32, LE.ReadU64, ValidateIdentification;
    HeaderReadsFields(bytes, h);
    IdentificationExact(bytes);
    assert bytes[..16] == bytes[..64][..16];
    assert FileHeaderBytes(h)[..16] == h.ident;
  }

  function ValidateLoadSegment(index: u16, header: ProgramHeader, fileSize: u64): Result<u64, ParseError> {
    if header.flags > KNOWN_SEGMENT_FLAGS then
      Err(UnknownSegmentFlags(index, header.flags))
    else if !HasFlag(header.flags, PF_R) then
      Err(NonReadableSegment(index))
    else if HasFlag(header.flags, PF_W) && HasFlag(header.flags, PF_X) then
      Err(WriteExecuteSegment(index))
    else if header.memorySize == 0 then
      Err(EmptyMemorySegment(index))
    else if header.fileSize > header.memorySize then
      Err(FileLargerThanMemory(index, header.fileSize, header.memorySize))
    else
      var fileEnd :- CheckedAdd(header.fileOffset, header.fileSize).OkOr(SegmentFileRangeOverflow(index));
      if fileEnd > fileSize then
        Err(SegmentFileRangeOutOfBounds(index, fileEnd, fileSize))
      else if header.virtualAddress != header.physicalAddress then
        Err(VirtualPhysicalAddressMismatch(index, header.virtualAddress, header.physicalAddress))
      else if !IsPowerOfTwo(header.alignment)
           || !(PAGE_SIZE <= header.alignment <= MAX_SEGMENT_ALIGNMENT) then
        Err(InvalidSegmentAlignment(index, header.alignment))
      else if header.physicalAddress % PAGE_SIZE != 0
           || Remainder(header.physicalAddress, header.alignment) != Remainder(header.fileOffset, header.alignment) then
        Err(MisalignedSegment(index, header.physicalAddress, header.fileOffset, header.alignment))
      else
        var end :- CheckedAdd(header.physicalAddress, header.memorySize)
                   .OkOr(SegmentMemoryRangeOverflow(index));
        if header.physicalAddress < MIN_LOAD_ADDRESS || end > MAX_LOAD_ADDRESS_EXCLUSIVE then
          Err(SegmentOutsideLoadWindow(index, header.physicalAddress, end))
        else
          Ok(end)
  }

  /** The segment policy as arithmetic on the decoded fields, over unbounded integers. */
  predicate WellFormedSegment(header: ProgramHeader, fileSize: int) {
    && header.flags <= 7 && HasFlag(header.flags, 4) && !(HasFlag(header.flags, 2) && HasFlag(header.flags, 1))
    && 0 < header.memorySize
    && header.fileSize <= header.memorySize
    && header.fileOffset + header.fileSize <= fileSize
    && header.virtualAddress == header.physicalAddress
    && IsPowerOfTwo(header.alignment)
    && 4096 <= header.alignment <= 0x20_0000
    && header.physicalAddress % 4096 == 0
    && Remainder(header.physicalAddress, header.alignment) == Remainder(header.fileOffset, header.alignment)
    && 0x20_0000 <= header.physicalAddress && header.physicalAddress + header.memorySize <= 0x4000_0000
  }

  /** The ordered checks and checked additions accept exactly the well-formed segments. */
  lemma ValidatesExactlyWellFormed(index: u16, header: ProgramHeader, fileSize: u64)
    ensures ValidateLoadSegment(index, header, fileSize).Ok? <==> WellFormedSegment(header, fileSize)
    ensures ValidateLoadSegment(index, header, fileSize).Ok?
        ==> ValidateLoadSegment(index, header, fileSize).value
            == header.physicalAddress + header.memorySize
  {
  }

  /** Rounded-up page end of a well-formed segment. */
  function PageEnd(start: int, size: int): int {
    4096 * ((start + size + 4095) / 4096)
  }
}
