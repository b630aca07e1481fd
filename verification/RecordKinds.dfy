/** The eighteen records of schema 1 and how the harness tells them apart. */
module RecordKinds {
  import opened Machine
  import opened Records

  datatype RecordKind =
    | LoaderStart | ElfValid | HandoffReady | Ready | AbiVersion | ContractLength
    | ContractInvalid | Panic | LoaderFailure2 | LoaderFailure3 | LoaderFailure4

  function LoaderFailureKind(line: string): Option<RecordKind> {
    if line in [Line(FileReadMarker), Line(ConfigInvalidMarker), Line(ElfInvalidMarker), Line(AllocationMarker),
                Line(KernelAddressMarker), Line(ContractStorageMarker), Line(LoaderPanic2Marker)]
    then Some(LoaderFailure2)
    else if line in [Line(ContractBuildMarker), Line(LoaderPanic3Marker)] then Some(LoaderFailure3)
    else if line in [Line(LoaderPanic4Marker)] then Some(LoaderFailure4)
    else None
  }

  function KindOf(line: string): Option<RecordKind> {
    if line == Line(StartMarker) then Some(LoaderStart)
    else if line == Line(ElfValidMarker) then Some(ElfValid)
    else if line == Line(HandoffMarker) then Some(HandoffReady)
    else if line == Line(ReadyMarker) then Some(Ready)
    else if line == Line(AbiVersionMarker) then Some(AbiVersion)
    else if line == Line(ContractLengthMarker) then Some(ContractLength)
    else if line == Line(ContractInvalidMarker) then Some(ContractInvalid)
    else if line == Line(KernelPanicMarker) then Some(Panic)
    else LoaderFailureKind(line)
  }

  function MarkerKind(m: Marker): RecordKind {
    match m
    case StartMarker => LoaderStart
    case ElfValidMarker => ElfValid
    case HandoffMarker => HandoffReady
    case FileReadMarker => LoaderFailure2
    case ConfigInvalidMarker => LoaderFailure2
    case ElfInvalidMarker => LoaderFailure2
    case AllocationMarker => LoaderFailure2
    case KernelAddressMarker => LoaderFailure2
    case ContractStorageMarker => LoaderFailure2
    case LoaderPanic2Marker => LoaderFailure2
    case ContractBuildMarker => LoaderFailure3
    case LoaderPanic3Marker => LoaderFailure3
    case LoaderPanic4Marker => LoaderFailure4
    case ReadyMarker => Ready
    case AbiVersionMarker => AbiVersion
    case ContractLengthMarker => ContractLength
    case ContractInvalidMarker => ContractInvalid
    case KernelPanicMarker => Panic
  }

  function SequenceOf(kind: RecordKind): u16 {
    match kind
    case LoaderStart => 1
    case ElfValid => 2
    case LoaderFailure2 => 2
    case HandoffReady => 3
    case LoaderFailure3 => 3
    case Ready => 4
    case AbiVersion => 4
    case ContractLength => 4
    case ContractInvalid => 4
    case LoaderFailure4 => 4
    case Panic => 5
  }

  /** The last digit of the sequence and the lengths of the other fields. */
  function Shape(r: Record): (char, nat, nat, nat)
    requires |r.sequence| == 4
  {
    (r.sequence[3], |r.phase|, |r.level|, |r.code|)
  }

  function MarkerShape(m: Marker): (char, nat, nat, nat) {
    match m
    case StartMarker => ('1', 6, 4, 12)
    case ElfValidMarker => ('2', 6, 4, 9)
    case HandoffMarker => ('3', 7, 4, 13)
    case FileReadMarker => ('2', 6, 5, 9)
    case ConfigInvalidMarker => ('2', 6, 5, 14)
    case ElfInvalidMarker => ('2', 6, 5, 11)
    case AllocationMarker => ('2', 6, 5, 10)
    case KernelAddressMarker => ('2', 6, 5, 14)
    case ContractStorageMarker => ('2', 6, 5, 16)
    case ContractBuildMarker => ('3', 7, 5, 14)
    case LoaderPanic2Marker => ('2', 6, 5, 12)
    case LoaderPanic3Marker => ('3', 7, 5, 12)
    case LoaderPanic4Marker => ('4', 7, 5, 12)
    case ReadyMarker => ('4', 12, 4, 12)
    case AbiVersionMarker => ('4', 12, 5, 11)
    case ContractLengthMarker => ('4', 12, 5, 15)
    case ContractInvalidMarker => ('4', 12, 5, 16)
    case KernelPanicMarker => ('5', 5, 5, 12)
  }

  lemma ShapeOfFields(m: Marker)
    ensures |Fields(m).sequence| == 4 && Shape(Fields(m)) == MarkerShape(m)
  {
  }

  lemma ShapeDecidesKind(a: Marker, b: Marker)
    requires MarkerShape(a) == MarkerShape(b)
    ensures MarkerKind(a) == MarkerKind(b)
  {
  }

  lemma SequencesWellFormed(m: Marker)
    ensures AllOf(Fields(m).sequence, IsDigit)
    ensures Decimal(Fields(m).sequence) == SequenceOf(MarkerKind(m))
  {
    hide Decimal, AllOf;
    SmallSequence(Fields(m).sequence);
  }

  lemma SmallSequence(s: string)
    requires |s| == 4 && s[0] == s[1] == s[2] == '0' && IsDigit(s[3])
    ensures AllOf(s, IsDigit) && Decimal(s) == (s[3] - '0') as int
  {
    assert s[..3][..2] == s[..2] && s[..2][..1] == s[..1] && s[..1][..0] == "";
    assert Decimal(s[..1]) == 0;
    assert Decimal(s[..2]) == 0;
    assert Decimal(s[..3]) == 0;
  }

  lemma PhasesAndLevelsWellFormed(m: Marker)
    ensures Fields(m).phase != "" && AllOf(Fields(m).phase, PhaseChar)
    ensures Fields(m).level in {"info", "error", "fatal"}
  {
    assert AllOf("loader", PhaseChar);
    assert AllOf("handoff", PhaseChar);
    assert AllOf("kernel_entry", PhaseChar);
    assert AllOf("panic", PhaseChar);
  }

  lemma CodesWellFormed(m: Marker)
    ensures Fields(m).code != "" && AllOf(Fields(m).code, CodeChar)
  {
    hide AllOf;
    ProgressCodes();
    LoaderErrorCodes();
    KernelErrorCodes();
  }

  lemma ProgressCodes()
    ensures AllOf("LOADER_START", CodeChar) && AllOf("ELF_VALID", CodeChar) && AllOf("HANDOFF_READY", CodeChar)
    ensures AllOf("KERNEL_READY", CodeChar) && AllOf("LOADER_PANIC", CodeChar) && AllOf("KERNEL_PANIC", CodeChar)
  {
  }

  lemma LoaderErrorCodes()
    ensures AllOf("FILE_READ", CodeChar) && AllOf("CONFIG_INVALID", CodeChar) && AllOf("ELF_INVALID", CodeChar)
    ensures AllOf("ALLOCATION", CodeChar) && AllOf("KERNEL_ADDRESS", CodeChar)
  {
  }

  lemma KernelErrorCodes()
    ensures AllOf("CONTRACT_STORAGE", CodeChar) && AllOf("CONTRACT_BUILD", CodeChar)
    ensures AllOf("ABI_VERSION", CodeChar) && AllOf("CONTRACT_LENGTH", CodeChar)
    ensures AllOf("CONTRACT_INVALID", CodeChar)
  {
  }

  lemma FieldsWellFormed(m: Marker)
    ensures WellFormed(Fields(m))
  {
    hide Fields, AllOf;
    ShapeOfFields(m);
    SequencesWellFormed(m);
    PhasesAndLevelsWellFormed(m);
    CodesWellFormed(m);
  }

  lemma FailureBehind(line: string) returns (m: Marker)
    requires LoaderFailureKind(line).Some?
    ensures Line(m) == line && LoaderFailureKind(line) == Some(MarkerKind(m))
  {
    hide Line;
    if line == Line(FileReadMarker) { m := FileReadMarker; }
    else if line == Line(ConfigInvalidMarker) { m := ConfigInvalidMarker; }
    else if line == Line(ElfInvalidMarker) { m := ElfInvalidMarker; }
    else if line == Line(AllocationMarker) { m := AllocationMarker; }
    else if line == Line(KernelAddressMarker) { m := KernelAddressMarker; }
    else if line == Line(ContractStorageMarker) { m := ContractStorageMarker; }
    else if line == Line(LoaderPanic2Marker) { m := LoaderPanic2Marker; }
    else if line == Line(ContractBuildMarker) { m := ContractBuildMarker; }
    else if line == Line(LoaderPanic3Marker) { m := LoaderPanic3Marker; }
    else { m := LoaderPanic4Marker; }
  }

  /** A line has a kind exactly when it is one of the records, and then it is that record's kind. */
  lemma MarkerBehind(line: string) returns (m: Marker)
    requires KindOf(line).Some?
    ensures Line(m) == line && KindOf(line) == Some(MarkerKind(m))
  {
    hide Line, LoaderFailureKind;
    if line == Line(StartMarker) { m := StartMarker; }
    else if line == Line(ElfValidMarker) { m := ElfValidMarker; }
    else if line == Line(HandoffMarker) { m := HandoffMarker; }
    else if line == Line(ReadyMarker) { m := ReadyMarker; }
    else if line == Line(AbiVersionMarker) { m := AbiVersionMarker; }
    else if line == Line(ContractLengthMarker) { m := ContractLengthMarker; }
    else if line == Line(ContractInvalidMarker) { m := ContractInvalidMarker; }
    else if line == Line(KernelPanicMarker) { m := KernelPanicMarker; }
    else { m := FailureBehind(line); }
  }

  lemma EveryMarkerIsKnown(m: Marker)
    ensures KindOf(Line(m)).Some?
  {
    hide Line;
  }

  /** No two records of different kinds share a line. */
  lemma KindOfLine(m: Marker)
    ensures KindOf(Line(m)) == Some(MarkerKind(m))
  {
    hide KindOf, MarkerKind, MarkerShape, Fields, WellFormed, Render;
    EveryMarkerIsKnown(m);
    var j := MarkerBehind(Line(m));
    FieldsWellFormed(j);
    FieldsWellFormed(m);
    RenderInjective(Fields(j), Fields(m));
    ShapeOfFields(j);
    ShapeOfFields(m);
    ShapeDecidesKind(j, m);
  }

  /** Every known line passes the tag, length and grammar checks and carries its kind's sequence. */
  lemma KnownLine(line: string)
    requires KindOf(line).Some?
    ensures StartsWith(line, TAG) && |line| <= MAX_DIAGNOSTIC_RECORD_BYTES
    ensures ValidRecordGrammar(line)
    ensures RecordSequence(line) == Some(SequenceOf(KindOf(line).value))
    ensures Printable(line)
  {
    hide KindOf, ValidRecordGrammar, RecordSequence, Printable, Decimal, Fields, MarkerKind, WellFormed, AllOf;
    var m := MarkerBehind(line);
    FieldsWellFormed(m);
    SequencesWellFormed(m);
    RenderedGrammar(Fields(m));
    PrintableRender(Fields(m));
    ShapeOfFields(m);
  }

  lemma LastIsCodeChar(m: Marker)
    ensures Line(m) != "" && Line(m)[|Line(m)| - 1] != '\r'
  {
    hide Fields, WellFormed;
    FieldsWellFormed(m);
    LastOfRender(Fields(m));
  }

  lemma LastOfRender(r: Record)
    requires WellFormed(r)
    ensures Render(r) != "" && Render(r)[|Render(r)| - 1] != '\r'
  {
    var code := r.code;
    assert CodeChar(code[|code| - 1]);
    assert Render(r)[|Render(r)| - 1] == code[|code| - 1];
  }
}
