/** The eighteen records as they read on the console, and the proof that they are rendered so. */
module RecordTexts {
  import opened Records

  function RecordText(m: Marker): string {
    match m
    case StartMarker =>
      "POLYTOPE_BOOT schema=1 seq=0001 " + ("phase=loader level=info code=" + "LOADER_START")
    case ElfValidMarker =>
      "POLYTOPE_BOOT schema=1 seq=0002 " + ("phase=loader level=info code=" + "ELF_VALID")
    case HandoffMarker =>
      "POLYTOPE_BOOT schema=1 seq=0003 " + ("phase=handoff level=info code=" + "HANDOFF_READY")
    case FileReadMarker =>
      "POLYTOPE_BOOT schema=1 seq=0002 " + ("phase=loader level=error code=" + "FILE_READ")
    case ConfigInvalidMarker =>
      "POLYTOPE_BOOT schema=1 seq=0002 " + ("phase=loader level=error code=" + "CONFIG_INVALID")
    case ElfInvalidMarker =>
      "POLYTOPE_BOOT schema=1 seq=0002 " + ("phase=loader level=error code=" + "ELF_INVALID")
    case AllocationMarker =>
      "POLYTOPE_BOOT schema=1 seq=0002 " + ("phase=loader level=error code=" + "ALLOCATION")
    case KernelAddressMarker =>
      "POLYTOPE_BOOT schema=1 seq=0002 " + ("phase=loader level=error code=" + "KERNEL_ADDRESS")
    case ContractStorageMarker =>
      "POLYTOPE_BOOT schema=1 seq=0002 " + ("phase=loader level=error code=" + "CONTRACT_STORAGE")
    case ContractBuildMarker =>
      "POLYTOPE_BOOT schema=1 seq=0003 " + ("phase=handoff level=error code=" + "CONTRACT_BUILD")
    case LoaderPanic2Marker =>
      "POLYTOPE_BOOT schema=1 seq=0002 " + ("phase=loader level=fatal code=" + "LOADER_PANIC")
    case LoaderPanic3Marker =>
      "POLYTOPE_BOOT schema=1 seq=0003 " + ("phase=handoff level=fatal code=" + "LOADER_PANIC")
    case LoaderPanic4Marker =>
      "POLYTOPE_BOOT schema=1 seq=0004 " + ("phase=handoff level=fatal code=" + "LOADER_PANIC")
    case ReadyMarker =>
      "POLYTOPE_BOOT schema=1 seq=0004 " + ("phase=kernel_entry level=info code=" + "KERNEL_READY")
    case AbiVersionMarker =>
      "POLYTOPE_BOOT schema=1 seq=0004 " + ("phase=kernel_entry level=error code=" + "ABI_VERSION")
    case ContractLengthMarker =>
      "POLYTOPE_BOOT schema=1 seq=0004 " + ("phase=kernel_entry level=error code=" + "CONTRACT_LENGTH")
    case ContractInvalidMarker =>
      "POLYTOPE_BOOT schema=1 seq=0004 " + ("phase=kernel_entry level=error code=" + "CONTRACT_INVALID")
    case KernelPanicMarker =>
      "POLYTOPE_BOOT schema=1 seq=0005 " + ("phase=panic level=fatal code=" + "KERNEL_PANIC")
  }

  /** A rendered record up to its phase, and from it on. */
  function Front(sequence: string): string {
    TAG + " " + "schema=1" + " " + "seq=" + sequence + " "
  }

  function Back(phase: string, level: string, code: string): string {
    "phase=" + phase + " " + "level=" + level + " " + "code=" + code
  }

  lemma RenderHalves(r: Record)
    ensures Render(r) == Front(r.sequence) + Back(r.phase, r.level, r.code)
  {
  }

  lemma Fronts()
    ensures Front("0001") == "POLYTOPE_BOOT schema=1 seq=0001 "
    ensures Front("0002") == "POLYTOPE_BOOT schema=1 seq=0002 "
    ensures Front("0003") == "POLYTOPE_BOOT schema=1 seq=0003 "
    ensures Front("0004") == "POLYTOPE_BOOT schema=1 seq=0004 "
    ensures Front("0005") == "POLYTOPE_BOOT schema=1 seq=0005 "
  {
    FrontOf("0001");
    FrontOf("0002");
    FrontOf("0003");
    FrontOf("0004");
    FrontOf("0005");
  }

  lemma FrontOf(sequence: string)
    ensures Front(sequence) == "POLYTOPE_BOOT schema=1 seq=" + sequence + " "
  {
  }

  lemma LoaderInfo(code: string)
    ensures Back("loader", "info", code) == "phase=loader level=info code=" + code
  {
  }

  lemma LoaderError(code: string)
    ensures Back("loader", "error", code) == "phase=loader level=error code=" + code
  {
  }

  lemma LoaderFatal(code: string)
    ensures Back("loader", "fatal", code) == "phase=loader level=fatal code=" + code
  {
  }

  lemma HandoffInfo(code: string)
    ensures Back("handoff", "info", code) == "phase=handoff level=info code=" + code
  {
  }

  lemma HandoffError(code: string)
    ensures Back("handoff", "error", code) == "phase=handoff level=error code=" + code
  {
  }

  lemma HandoffFatal(code: string)
    ensures Back("handoff", "fatal", code) == "phase=handoff level=fatal code=" + code
  {
  }

  lemma KernelEntryInfo(code: string)
    ensures Back("kernel_entry", "info", code) == "phase=kernel_entry level=info code=" + code
  {
  }

  lemma KernelEntryError(code: string)
    ensures Back("kernel_entry", "error", code) == "phase=kernel_entry level=error code=" + code
  {
  }

  lemma PanicFatal(code: string)
    ensures Back("panic", "fatal", code) == "phase=panic level=fatal code=" + code
  {
  }

  /** Every record reads as written above: sequence, phase, level and code, field by field. */
  lemma TextOfRecord(m: Marker)
    ensures Line(m) == RecordText(m)
  {
    hide Front, Back, Render;
    Fronts();
    RenderHalves(Fields(m));
    match m
    case StartMarker => LoaderInfo("LOADER_START");
    case ElfValidMarker => LoaderInfo("ELF_VALID");
    case HandoffMarker => HandoffInfo("HANDOFF_READY");
    case FileReadMarker => LoaderError("FILE_READ");
    case ConfigInvalidMarker => LoaderError("CONFIG_INVALID");
    case ElfInvalidMarker => LoaderError("ELF_INVALID");
    case AllocationMarker => LoaderError("ALLOCATION");
    case KernelAddressMarker => LoaderError("KERNEL_ADDRESS");
    case ContractStorageMarker => LoaderError("CONTRACT_STORAGE");
    case ContractBuildMarker => HandoffError("CONTRACT_BUILD");
    case LoaderPanic2Marker => LoaderFatal("LOADER_PANIC");
    case LoaderPanic3Marker => HandoffFatal("LOADER_PANIC");
    case LoaderPanic4Marker => HandoffFatal("LOADER_PANIC");
    case ReadyMarker => KernelEntryInfo("KERNEL_READY");
    case AbiVersionMarker => KernelEntryError("ABI_VERSION");
    case ContractLengthMarker => KernelEntryError("CONTRACT_LENGTH");
    case ContractInvalidMarker => KernelEntryError("CONTRACT_INVALID");
    case KernelPanicMarker => PanicFatal("KERNEL_PANIC");
  }
}
