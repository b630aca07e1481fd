# Verified model of the Polytope OS boot chain

This project models how Polytope OS boots and how the host decides that a boot went well, and proves
what each stage promises to the next. It follows one boot from end to end:

1. `boot-elf` validates the kernel image (`ElfImage`, `ElfPlan`, `ElfErrors`, `ElfSegments`).
2. The UEFI loader places it in physical memory (`Firmware`, `KernelLoader`), turns the firmware memory
   map into the boot contract (`BootContract`, `ContractCodec`, `ContractErrors`, `MemoryMap`) and hands over
   (`BootMachine`, `LoaderControl`).
3. The kernel decides on the contract (`KernelEntry`).
4. The host harness reads the console (`Records`, `RecordKinds`, `RecordTexts`, `LogLines`,
   `ProtocolParser`, `LogEdits`, `LogCursor`), classifies the boot and checks the scenario (`Harness`,
   `BootReport`, `BootVerdicts`, `SerialCopy`, `EndToEnd`).

Beside it stand the host tools that guard the artifacts: the kernel inspector (`KernelLayout`), the disk
image validator (`Sectors`, `GptLayout`, `FatTable`), the boot statistics (`Percentile`) and the
compiler's token stream (`Lexer`). `Machine`, `LittleEndian` and `BitMask` hold the machine integers.

The composed result is `EndToEnd.BootAndObserve`: for every kernel file, memory, firmware map and offer,
scenario, read chunking and polling schedule, the kernel is entered when it is accepted and can be placed,
the firmware grants the storage and the map fits the contract. The report then satisfies the requested
scenario if and only if no other channel shows the record of the other rejection, which matters only to
the two rejection scenarios. In every other case the log carries the record of the first cause and the
report is a loader failure. Its converse on the host side is `BootReport.PassesExactly`: a passing report
can come only from the exact record path and exit status of that scenario.

## Modelling choices

- Machine integers are subset types of `int` (`u8` to `u64`, 64-bit `usize`); checked and saturating
  operations are written out, and a `Slice` is a byte sequence shorter than 2^63.
- Log text is a sequence of characters that stand for bytes. The records are built from their fields, and
  `Records.RenderInjective` makes texts and records interchangeable.
- The firmware allocator follows section 7.2.1 of the UEFI Specification 2.10. What the
  firmware offers for a request for any pages is an arbitrary input, refusal included. The firmware memory
  map is an input as the loader's sort leaves it; nothing is assumed about its order.
- Files arrive as the result of reading them. Clock readings, polls and read sizes are arbitrary.
- In `LoaderControl` a panic may strike at the steps that run fallible code; the machine itself lets it
  strike anywhere, which over-approximates the code. `RunBoot` follows the runs without panics.
- Entering the kernel means running `polytope_kernel_main` on the handed-over range: the entry point of
  every accepted image is taken to be that function.
- The serial port carries earlier text, then a CRLF copy of the records from which any bytes may be lost.

## Differences and limits found

- `docs/boot/DIAGNOSTICS.md:62` lists wrong header, total and record sizes under `CONTRACT_LENGTH`. The
  kernel reports them as `CONTRACT_INVALID` (`KernelEntry.SizeFaultIsInvalid`); it reports
  `CONTRACT_LENGTH` if and only if the supplied length is not the contract size
  (`KernelEntry.KernelDecides`), and its match arm for length errors cannot be reached
  (`KernelEntry.LengthBranchUnreachable`).
- Every loader panic the code can have is classified as a loader failure
  (`LoaderControl.LoaderAlwaysClassified`). That rests on nothing fallible standing between printing a
  record and storing the next sequence: `LoaderControl.LoaderEndsClassified` and the run of
  `BootReport.PanicInWindow` show which classification a panic there would get in the over-approximated
  machine.
- LF and CRLF are not always interchangeable. In a stream that is clean with some choice of line ends, all
  choices give the same trace if and only if no tagged line itself ends in CR (`LogEdits.LineEndsExactly`);
  the start record with a CR of its own is a failing input (`LogEdits.CrBeforeEndRejected`).
- A correct rejection boot fails its check exactly when foreign text shows the other rejection's record
  (`BootReport.ScenarioPasses`); `EndToEnd.ForeignRejectionFails` is such an input.
- The scanner's pending cap is exact for every text within the 256-byte record bound and for no CRLF line
  one byte longer (`LogCursor.CapIsExact`, `LogCursor.CapIsTight`).
- Two checks never decide anything: the malformed-sequence rejection (`Records.GrammarHasSequence`) and
  the inspector's final guard-page check (`KernelLayout.CombinedExact`).

## Model

| member | source | states |
|---|---|---|
| `LittleEndian.ValueOfBytes` | crates/boot-contract/src/lib.rs:945-955 | writing a number as little-endian bytes and reading it back is the identity for every value that fits the width |
| `LittleEndian.BytesOfValue` | crates/boot-contract/src/lib.rs:907-926 | reading little-endian bytes and writing the value again restores the same bytes |
| `LittleEndian.FieldIs` | crates/boot-elf/src/lib.rs:817-835 | a bounded field read yields a value exactly when the bytes at that offset are the bytes of that value |
| `BitMask.AlignUpIsLeastMultiple` | crates/boot-elf/src/lib.rs:811-815 | the mask form of `align_up` gives the least multiple of the alignment that is not below the value, and fails exactly when that multiple does not fit 64 bits |
| `BitMask.HasFlagIsMask` | crates/boot-elf/src/lib.rs:71-88 | testing a permission by remainder arithmetic is the same as testing the bit with `&`, for every mask with one bit |
| `BitMask.NoHighBits` | crates/boot-elf/src/lib.rs:692-697 | a flag word has no unknown bits exactly when it is below the first unknown bit |
| `ElfImage.HeaderAcceptedExactly` | crates/boot-elf/src/lib.rs:502-580 | for every file, against an independently written ELF64 header layout: identification and header checks together pass exactly on the admissible headers, and the parsed header carries the fields found at their own offsets |
| `ElfImage.SomeFileHeader` | crates/boot-elf/src/lib.rs:502-580 | every 64 bytes are the layout of some file header, so the exact acceptance applies to every file that is long enough |
| `ElfImage.IdentificationExact` | crates/boot-elf/src/lib.rs:662-685 | the ordered identification checks pass exactly for one sixteen-byte identification |
| `ElfImage.DecodeInvertsLayout` | crates/boot-elf/src/lib.rs:797-809 | decoding a program header is the inverse of the ELF64 layout: it yields `h` if and only if the 56 bytes at that index are the bytes of `h` |
| `ElfImage.DecodesInsideTable` | crates/boot-elf/src/lib.rs:797-809 | a program header can be read exactly when all of its 56 bytes lie inside the file |
| `ElfImage.ValidatesExactlyWellFormed` | crates/boot-elf/src/lib.rs:687-762 | the ordered checks with their 64-bit checked additions accept exactly the segments that are well formed over unbounded integers: readable, never writable and executable at once, file bytes inside the file, identity mapped, aligned and inside the load window |
| `ElfPlan.CheckLoadHeader` | crates/boot-elf/src/lib.rs:603-642 | one step of the scan: the mutable counters and the remembered previous segment evolve as the functional scan does, on success and on every error |
| `ElfPlan.ValidateProgramHeaders` | crates/boot-elf/src/lib.rs:582-651 | the loop over the table returns the functional scan's verdict, first error included |
| `ElfPlan.ScanLoadExtends` | crates/boot-elf/src/lib.rs:603-642 | comparing a segment only with its predecessor keeps all accepted segments pairwise disjoint in page-rounded memory; the step fails if and only if the extended plan is not sound |
| `ElfPlan.ScanPrefixExact` | crates/boot-elf/src/lib.rs:582-651 | after any prefix of the table the scan has succeeded if and only if the load headers seen so far form a sound plan and only known kinds occurred |
| `ElfPlan.ScanAcceptsExactlySoundPlans` | crates/boot-elf/src/lib.rs:582-651 | whole-table acceptance is equivalent to a declarative plan: nonempty, every segment well formed, all pairs ordered and disjoint after page rounding, count and total size bounded, the entry inside an executable segment |
| `ElfPlan.ParseAcceptsExactly` | crates/boot-elf/src/lib.rs:477-500 | `parse` accepts a byte string if and only if it starts with the layout of an admissible file header whose table holds a sound plan, and then returns that header's entry and table and the number of planned segments |
| `ElfPlan.EntryInOneExecutableSegment` | crates/boot-elf/src/lib.rs:637-649 | in a sound plan exactly one segment contains the entry point, and it is executable and not writable |
| `ElfErrors.SizeError` | crates/boot-elf/src/lib.rs:477-500 | a file below 64 bytes or above 16 MiB is rejected for its size alone, with the size and the bound |
| `ElfErrors.HeaderErrorFirst` | crates/boot-elf/src/lib.rs:502-580 | `parse` reports the first fault of the file header in a fixed order of eighteen, with the value at fault, for every file |
| `ElfErrors.SegmentErrorFirst` | crates/boot-elf/src/lib.rs:687-762 | a bad load record is reported by the first of its twelve faults, with its index and the values at fault |
| `ElfErrors.RecordErrorFirst` | crates/boot-elf/src/lib.rs:582-651 | after a sound prefix of the table the first fault of the next record, alone or against the segments before it, is what the scan reports |
| `ElfErrors.PlanEndError` | crates/boot-elf/src/lib.rs:644-651 | a sound table without load records, or whose executable records miss the entry, is rejected for exactly that |
| `ElfErrors.ScanErrorReported` | crates/boot-elf/src/lib.rs:477-500 | behind an admissible header, `parse` reports what the scan reports |
| `ElfSegments.LoadSegments.constructor` | crates/boot-elf/src/lib.rs:191-198 | a fresh iterator stands before the first program header of its image |
| `ElfSegments.LoadSegments.Next` | crates/boot-elf/src/lib.rs:213-223 | each call yields the next item of the functional iterator and leaves the index after it |
| `ElfSegments.NextFindsFirst` | crates/boot-elf/src/lib.rs:213-223 | skipping non-load records never skips a load record, and the iterator ends exactly when no load record is left |
| `ElfSegments.IteratorYieldsWholePlan` | crates/boot-elf/src/lib.rs:210-231 | on an accepted image the iterator yields one segment per validated load header, in order, and never ends early |
| `ElfSegments.RecordYielded` | crates/boot-elf/src/lib.rs:764-783 | every load record whose 56 bytes stand in the table of an accepted kernel is yielded, with its index, its flags, its offsets, addresses, sizes and alignment, and the file bytes it names |
| `ElfSegments.YieldedRecord` | crates/boot-elf/src/lib.rs:764-783 | conversely every yielded segment comes from such a record and says what it says; it is readable and never both writable and executable, and segments come in table order |
| `ElfSegments.ParsedSegmentsLoadable` | crates/boot-elf/src/lib.rs:764-783 | every segment of an accepted image meets what the loader relies on, and page-rounded ranges of different segments do not meet |
| `Firmware.Memory.AllocateAt` | crates/uefi-loader/src/main.rs:237-242 | a fixed-address request takes exactly the requested pages when all are free, and changes nothing otherwise |
| `Firmware.Memory.AllocateAny` | crates/uefi-loader/src/main.rs:328-336 | hands out the pages that the firmware offers exactly when they are a free run that does not start at zero, and otherwise refuses without effect; the offer is an arbitrary input |
| `KernelLoader.PageCountsAgree` | crates/uefi-loader/src/main.rs:231-236 | the loader's rounded-up page count names the same pages as the parser's rounded address range |
| `KernelLoader.LoadSegment` | crates/uefi-loader/src/main.rs:231-265 | succeeds exactly when the pages of the segment are free; then memory holds the file bytes followed by zeros to the page end and every other byte is unchanged; on failure nothing changes |
| `KernelLoader.ImageSnoc` | crates/uefi-loader/src/main.rs:223-228 | loading one more segment of an accepted plan preserves the images of all earlier ones |
| `KernelLoader.LoadSegments` | crates/uefi-loader/src/main.rs:223-228 | for every accepted image and every memory: success if and only if all pages of the plan are free, so an accepted image never collides with itself; a failure stops at the first segment that needs a taken page; memory is exactly the image of the loaded prefix over the old memory in both cases |
| `KernelLoader.FreeWindowLoads` | crates/uefi-loader/src/main.rs:223-228 | when every page of the load window is free, loading an accepted image cannot fail |
| `KernelLoader.ReserveStackGuard` | crates/uefi-loader/src/main.rs:210-221 | takes exactly the guard page when it is free and fails without effect otherwise |
| `BootMachine.PrepareKernel` | crates/uefi-loader/src/main.rs:142-173 | the result is decided by the files, the free pages and the firmware's offer: the first cause of failure in order, or the parsed entry with storage that meets neither a kernel page nor the guard; memory changes only under the plan, and on success is exactly the kernel's image over the old memory |
| `BootMachine.LoadedByteForByte` | crates/uefi-loader/src/main.rs:231-265 | from file to memory: for every load record standing in the table of an accepted kernel, memory holds the file bytes that record names at the address it names, then zeros up to its memory size |
| `BootMachine.ContractLeavesKernel` | crates/uefi-loader/src/main.rs:267-315 | writing the contract into storage apart from the plan leaves every byte of the kernel image as loaded |
| `BootContract.ValidateRegionsLoop` | crates/boot-contract/src/lib.rs:836-888 | the loop with its running end returns the functional verdict, first error included |
| `BootContract.CheckPrefixExact` | crates/boot-contract/src/lib.rs:836-888 | checking each region against the running end is equivalent to all regions being valid and every earlier one ending at or below every later one |
| `BootContract.FirstBadRegion` | crates/boot-contract/src/lib.rs:836-888 | a region error names the least index at which the prefix of the table stops being valid |
| `BootContract.CheckUnusedExact` | crates/boot-contract/src/lib.rs:879-887 | the tail check passes exactly when every slot after the count is all zero |
| `BootContract.ValidateRegionsExact` | crates/boot-contract/src/lib.rs:836-888 | the region table is accepted if and only if it is canonical: valid ordered disjoint regions, then empty slots only |
| `BootContract.ValidateExactly` | crates/boot-contract/src/lib.rs:725-834 | the whole validator accepts if and only if the header is the current one up to its count and platform, scenario and regions satisfy their declarative predicates |
| `BootContract.SetRegionExactly` | crates/boot-contract/src/lib.rs:308-323 | setting a slot changes that slot alone, raises the count to cover it and never lowers it, for every slot below 128; every other slot is refused |
| `ContractErrors.InfoErrorFirst` | crates/boot-contract/src/lib.rs:725-834 | the validator reports the first of sixteen faults of header, platform and scenario, in a fixed order, with the values at fault |
| `ContractErrors.RegionErrorFirst` | crates/boot-contract/src/lib.rs:836-888 | in an otherwise valid contract the first fault of the first bad region is reported, with its index and, for order faults, its predecessor's |
| `ContractErrors.PrevalidatedExactly` | crates/boot-contract/src/lib.rs:598-672 | prevalidation of every byte string: too short, the header's first fault, a wrong length, or the version, size and count of the header |
| `ContractCodec.DecodeOfEncode` | crates/boot-contract/src/lib.rs:341-377 | decoding the layout of any contract returns that contract |
| `ContractCodec.EncodeOfDecode` | crates/boot-contract/src/lib.rs:679-723 | every byte string of contract size is the layout of what it decodes to, so no byte is ignored |
| `ContractCodec.ParseInverse` | crates/boot-contract/src/lib.rs:679-723 | `parse` yields `info` if and only if `info` is valid and the bytes are its encoding |
| `ContractCodec.Reader.Array8` | crates/boot-contract/src/lib.rs:900-905 | returns the next eight bytes and advances past exactly those; in bounds at every call the parsers make |
| `ContractCodec.Reader.U16` | crates/boot-contract/src/lib.rs:907-912 | returns the little-endian value of the next two bytes and advances past exactly those; in bounds at every call the parsers make |
| `ContractCodec.Reader.U32` | crates/boot-contract/src/lib.rs:914-919 | returns the little-endian value of the next four bytes and advances past exactly those; in bounds at every call the parsers make |
| `ContractCodec.Reader.U64` | crates/boot-contract/src/lib.rs:921-926 | returns the little-endian value of the next eight bytes and advances past exactly those; in bounds at every call the parsers make |
| `ContractCodec.PrevalidateBytes` | crates/boot-contract/src/lib.rs:598-672 | the cursor-based header pass agrees with the offset-based definition on every byte string, truncated ones included |
| `ContractCodec.ParseBytes` | crates/boot-contract/src/lib.rs:679-723 | the sequential cursor parser agrees with the offset-based `Parse` on every byte string |
| `ContractCodec.Writer.Bytes` | crates/boot-contract/src/lib.rs:939-943 | writes the given bytes at the position and nothing else, and advances past them |
| `ContractCodec.Writer.U16` | crates/boot-contract/src/lib.rs:945-947 | appends the two little-endian bytes of the value and changes no other byte |
| `ContractCodec.Writer.U32` | crates/boot-contract/src/lib.rs:949-951 | appends the four little-endian bytes of the value and changes no other byte |
| `ContractCodec.Writer.U64` | crates/boot-contract/src/lib.rs:953-955 | appends the eight little-endian bytes of the value and changes no other byte |
| `ContractCodec.Encode` | crates/boot-contract/src/lib.rs:341-377 | refuses exactly the invalid contracts and the short buffers; otherwise the buffer starts with the layout of the contract and no other byte changes; a refusal changes nothing |
| `MemoryMap.NormalizeMemoryKind` | crates/uefi-loader/src/main.rs:352-372 | each contract kind is produced by exactly the listed firmware types; only conventional memory becomes usable, and every unlisted type and the stack guard become reserved |
| `MemoryMap.AddRegion` | crates/boot-contract/src/lib.rs:308-323 | setting the next region extends the carried table by that region and the count by one, and fails exactly on the 129th |
| `MemoryMap.ContractValidExactly` | crates/uefi-loader/src/main.rs:281-300 | the contract built from a firmware map is valid if and only if the map is encodable |
| `MemoryMap.BuildContract` | crates/uefi-loader/src/main.rs:281-300 | the loop keeps exactly the nonempty descriptors in order; a length overflow or a 129th descriptor is an error and never a truncation |
| `MemoryMap.PatchedVersion` | crates/uefi-loader/src/main.rs:306-310 | overwriting the two version bytes gives the encoding of the same contract with only its version changed |
| `MemoryMap.EncodeContract` | crates/uefi-loader/src/main.rs:267-315 | succeeds exactly on encodable maps, returns the scenario's length, leaves the scenario's bytes in the storage, with header, platform and scenario as spelled out by `HandoffFront`, and changes nothing outside it |
| `MemoryMap.HandoffStarts` | crates/uefi-loader/src/main.rs:267-310 | for every encodable map and all four scenarios the first 80 bytes handed over, literally: magic, version, sizes and region count; UEFI, x86_64, no RSDP, processor 0; the scenario's kind 0 to 3, its test flag and a zero argument |
| `MemoryMap.MapConserved` | crates/uefi-loader/src/main.rs:267-315 | conservation from firmware to kernel: the parsed contract holds every nonempty descriptor with its range, type and attributes, in order, and nothing else |
| `MemoryMap.BadVersionRejected` | crates/uefi-loader/src/main.rs:306-310 | for every encodable map the bad-version handoff is rejected for version 2.0 and for nothing else |
| `KernelEntry.LengthBranchUnreachable` | crates/kernel/src/bin/x86_64.rs:78-81 | after the kernel's own length check, parsing never reports a length error |
| `KernelEntry.KernelDecides` | crates/kernel/src/bin/x86_64.rs:51-99 | on every pointer, length and byte string: each of the five outcomes is given by an if-and-only-if over the range, the length, the version bytes and the existence of a valid contract encoded by the bytes |
| `KernelEntry.SizeFaultIsInvalid` | crates/kernel/src/bin/x86_64.rs:82-85 | a wrong size field inside the contract is always reported as `CONTRACT_INVALID` |
| `BootVerdicts.OutcomesReadAs` | crates/kernel/src/bin/x86_64.rs:51-106 | the text each kernel outcome prints and the status QEMU exits with, literally |
| `BootVerdicts.ExitStatuses` | crates/arch-x86_64/src/lib.rs:19-35 | the host status of every exit code: 33, 65, 67, 69 and 71 |
| `BootMachine.HandoffOutcome` | crates/kernel/src/bin/x86_64.rs:51-99 | for every encodable map each scenario's handed-over bytes drive the kernel to exactly that scenario's outcome |
| `BootMachine.HandOff` | crates/uefi-loader/src/main.rs:112-128 | encoding and entering the kernel: the scenario's outcome exactly on encodable maps, with the kernel image intact and no byte outside the contract storage changed |
| `BootMachine.RunBoot` | crates/uefi-loader/src/main.rs:91-128 | the whole boot is a run of the loader's control flow: files, free pages and offer decide the preparation, and that and the map decide the last event, a named loader failure or the scenario's kernel outcome; a prepared kernel is in memory at the end |
| `Records.RenderInjective` | crates/xtask/src/qemu.rs:1001-1031 | two well-formed records with the same text are the same record |
| `Records.RenderedGrammar` | crates/xtask/src/qemu.rs:1001-1031 | the text of every well-formed record passes the grammar check and yields its own sequence number |
| `Records.GrammarExactly` | crates/xtask/src/qemu.rs:1001-1031 | a line passes the grammar if and only if it is the text of a well-formed record |
| `Records.CharacterClasses` | crates/xtask/src/qemu.rs:1001-1031 | the digits, phase characters and code characters, spelled out |
| `Records.ParseU16Exactly` | crates/xtask/src/qemu.rs:994-999 | a sequence number parses exactly when it is spelled by digits, with or without a plus sign, and fits 16 bits |
| `RecordTexts.TextOfRecord` | crates/uefi-loader/src/main.rs:36-61 | each of the eighteen records reads as spelled out: tag, schema, sequence, phase, level and code |
| `Records.GrammarHasSequence` | crates/xtask/src/qemu.rs:994-1031 | a line that passes the grammar check always has a sequence number, so the malformed-sequence rejection is never reported |
| `RecordKinds.MarkerBehind` | crates/xtask/src/qemu.rs:1033-1073 | a line has a kind only if it is the text of one of the eighteen records, and then it has that record's kind |
| `RecordKinds.KindOfLine` | crates/xtask/src/qemu.rs:1033-1073 | every record is recognized with its own kind: no two records of different kinds share a text |
| `RecordKinds.KnownLine` | crates/xtask/src/qemu.rs:1001-1073 | every recognized line passes the tag, length and grammar checks and carries the sequence number of its kind |
| `LogLines.LinesRejoin` | crates/xtask/src/qemu.rs:897-919 | cutting a stream into lines loses nothing: the lines and the unfinished rest join to the stream, and none of them holds a line feed |
| `LogLines.CutIsUnique` | crates/xtask/src/qemu.rs:897-919 | joining whole lines and cutting again restores them, so the cut is the only one |
| `ProtocolParser.LineProcessor.Process` | crates/xtask/src/qemu.rs:921-992 | one line updates state, last sequence and trace as the transition function says |
| `ProtocolParser.ParseProtocolStream` | crates/xtask/src/qemu.rs:897-919 | the index scan over the bytes gives the trace of the stream's lines, unfinished last line included |
| `ProtocolParser.TraceDependsOnRecordsOnly` | crates/xtask/src/qemu.rs:897-992 | two streams with the same record lines, and alike in whether they end inside a record, have the same trace |
| `LogEdits.ForeignLineIgnored` | crates/xtask/src/qemu.rs:897-992 | inserting or removing a whole untagged line at any line boundary never changes the trace |
| `LogEdits.LineEndsIgnored` | crates/xtask/src/qemu.rs:897-919 | choosing LF or CRLF line by line never changes the trace, whatever follows, when no tagged line itself ends in CR |
| `LogEdits.LineEndsExactly` | crates/xtask/src/qemu.rs:897-919 | in a stream that is clean with some choice of line ends, every choice gives the same trace if and only if no tagged line itself ends in CR |
| `LogEdits.AlwaysCleanExactly` | crates/xtask/src/qemu.rs:897-919 | for every text: it has no violation with every choice of line ends if and only if it has none with LF and no tagged line ends in CR |
| `LogEdits.MalformedEitherWay` | crates/xtask/src/qemu.rs:921-992 | why a clean choice is asked for: the bare tag followed by CR is malformed with either line end and gives one trace |
| `LogEdits.CrBeforeEndRejected` | crates/xtask/src/qemu.rs:897-919 | the failing input: the start record with a CR of its own is accepted before LF and rejected before CRLF |
| `ProtocolParser.CleanStep` | crates/xtask/src/qemu.rs:921-992 | in a clean trace a tagged line is accepted exactly when it is a known record that the state machine allows next; the sequence check then never rejects |
| `ProtocolParser.ReachedIsAllowed` | crates/xtask/src/qemu.rs:921-992 | the state machine reaches a state on exactly the prefixes of the declared complete paths |
| `ProtocolParser.CleanTraceExactly` | crates/xtask/src/qemu.rs:897-992 | on every byte stream: no violation if and only if the log is not truncated, its record lines are a prefix of a declared path and it does not end inside a record; the evidence is then that of the last record |
| `ProtocolParser.AtMostOneMarker` | crates/xtask/src/qemu.rs:921-992 | on every stream, clean or not, at most one of ready, rejected and panic is set |
| `BootVerdicts.ViolationExactly` | crates/xtask/src/qemu.rs:897-992 | which violation is reported, in all cases: truncation, else the first record that no path allows with the first of its faults, else an unfinished record at the end |
| `BootVerdicts.EvidencePrinted` | crates/xtask/src/qemu.rs:921-992 | on every stream, violating ones included, evidence is set only by a record that was printed, and a terminal code comes exactly with evidence |
| `BootVerdicts.EvidenceExactly` | crates/xtask/src/qemu.rs:921-992 | on a clean stream the three flags and the terminal code are read off the text of the last record |
| `LogCursor.Cursor.Step` | crates/xtask/src/qemu.rs:808-836 | one byte keeps the bounded pending buffer in step with the unfinished line, and reports a match exactly at a line feed that ends the sought line |
| `LogCursor.Cursor.ContainsNew` | crates/xtask/src/qemu.rs:778-841 | for every chunking of the reads: reports a match exactly when a line completed since the last call is the sought one, and rescans from the start after the log shrank; on a match the cursor stands at the end of the chunk that held the first match and the rest of that chunk is dropped |
| `LogCursor.CapIsExact` | crates/xtask/src/qemu.rs:808-836 | for every sought text within the record bound the capped buffer misses nothing, with LF or CRLF |
| `LogCursor.CapIsTight` | crates/xtask/src/qemu.rs:808-836 | for every sought text one byte longer, the LF line is found and the CRLF line is missed |
| `LogCursor.ReadyMarkerObserver.Observe` | crates/xtask/src/qemu.rs:739-750 | records the poll's time exactly when the log first shows the ready marker, and never changes it afterwards |
| `LogCursor.ObserveRun` | crates/xtask/src/qemu.rs:739-755 | over every append-only growth of the log and every polling schedule the recorded time is that of the first poll that shows the marker |
| `LogCursor.ObserverAgreesWithParser` | crates/xtask/src/qemu.rs:739-992 | whenever the batch parser finds no violation, the incremental scanner has seen the marker if and only if the parser reports ready |
| `LoaderControl.RunProgress` | crates/uefi-loader/src/main.rs:91-140 | in every run, with panics anywhere, each program point fixes what was printed and which panic sequence is stored |
| `LoaderControl.TraceOfMarkers` | crates/xtask/src/qemu.rs:897-992 | whatever foreign text surrounds them, the records a log carries decide its whole trace: it is that of the state machine run on the records, first violation included, and it is clean exactly when every step is allowed |
| `LoaderControl.LoaderEndsClassified` | crates/uefi-loader/src/main.rs:91-140 | over-approximating panics to every program point: a run that the loader ends is classified as a loader failure unless, and only unless, it panics before the first record or between printing a record and storing the next sequence |
| `LoaderControl.LoaderAlwaysClassified` | crates/uefi-loader/src/main.rs:91-140 | with panics at the steps that run fallible code, preparing, encoding and transferring, every run that the loader ends is classified as a loader failure, without exception |
| `LoaderControl.KernelEndsClassified` | crates/xtask/src/qemu.rs:1075-1101 | every run that enters the kernel is classified by the kernel's own outcome |
| `BootVerdicts.ClassifiedExactly` | crates/xtask/src/qemu.rs:1075-1101 | for every time-out, exit status and log, each of the seven classifications by an if-and-only-if over the time-out, the literal status, cleanness and the text of the last record |
| `BootVerdicts.PanicReadsAs` | crates/uefi-loader/src/main.rs:131-140 | a panic in fallible code prints the loader's panic record with the number that is next in the log, 2, 3 or 4 |
| `BootReport.ConsoleCarries` | crates/arch-x86_64/src/lib.rs:62-67 | what the guest writes record by record is exactly what the parser reads back |
| `BootVerdicts.RecordWritten` | crates/arch-x86_64/src/lib.rs:62-67 | a record is cut after 256 bytes and ended by one LF |
| `BootVerdicts.ReportExactly` | crates/xtask/src/qemu.rs:282-312 | every field of a report for every input: the first 4 MiB of the debug log decide classification, evidence and protocol error, and the error is absent exactly for a clean log |
| `BootReport.ObserveBoot` | crates/xtask/src/qemu.rs:282-312 | the report is a function of exit status, time limit and final logs, with the time of the first poll that shows the marker |
| `BootReport.SeenByTheEnd` | crates/xtask/src/qemu.rs:739-755 | the marker was seen at some poll if and only if the final log shows it |
| `Harness.CollectedContains` | crates/xtask/src/qemu.rs:1336-1349 | joining the channel logs neither creates nor loses an occurrence of a marker: the combined log contains it if and only if one channel does |
| `Harness.CollectedExactly` | crates/xtask/src/qemu.rs:1336-1349 | the combined log is the channels one after another, each closed by LF and followed by the notice when it was cut |
| `Harness.NoticeReads` | crates/xtask/src/qemu.rs:1336-1349 | the notice of a cut channel as it reads |
| `Harness.ContainsByLine` | crates/xtask/src/qemu.rs:1231-1300 | a text without line feed occurs in a log if and only if it occurs in one line or in the unfinished rest |
| `BootReport.VersionNotInLength` | crates/xtask/src/qemu.rs:1248-1285 | the version-rejection text never occurs inside the length-rejection line |
| `SerialCopy.WriteSerial` | crates/arch-x86_64/src/lib.rs:87-116 | whichever bytes the busy UART drops, the serial copy is the CRLF text of the records with some bytes missing |
| `SerialCopy.CopyLacksOpposite` | crates/arch-x86_64/src/lib.rs:87-116 | however many bytes are dropped, the serial copy of a rejection scenario never shows the other rejection's text |
| `BootReport.PassesExactly` | crates/xtask/src/qemu.rs:1231-1300 | for every report: the outcome check passes if and only if QEMU exited in time with the scenario's status, the debug log fits the limit and carries exactly the four records of that scenario's path, the ready time is present exactly for the normal boot, and the other rejection's text is absent |
| `BootReport.ScenarioPasses` | crates/xtask/src/qemu.rs:1231-1300 | a debug log that carries the scenario's four records, with the scenario's exit status, passes the check if and only if no foreign text, on the debug console or on a bounded read of another channel, shows the other rejection's record; for the normal and the panic boot that is always |
| `BootReport.OwnConsolePasses` | crates/arch-x86_64/src/lib.rs:62-67 | the console output of a run satisfies what `ScenarioPasses` asks of the debug log |
| `EndToEnd.FinishedRun` | crates/uefi-loader/src/main.rs:91-128 | every finished boot run halts with the exit of its last event and has printed exactly the records of that event's path; a failed one is classified as a loader failure from its own console output |
| `EndToEnd.BootAndObserve` | crates/xtask/src/qemu.rs:220-313 | boot and observation composed: files, free pages, firmware offer and map decide the preparation; the debug log then holds exactly the records of that cause, as `RecordTexts.RecordText` spells them, in order, and QEMU's status is the scenario's or 69; when the kernel is entered its image is in memory and the report satisfies the requested scenario if and only if no bounded read of serial, stderr or stdout shows the other rejection's record; in every other case the report is a loader failure |
| `EndToEnd.LogReads` | crates/uefi-loader/src/main.rs:91-128 | the record lines of a boot's debug log as spelled-out texts, for each of the seven loader errors and each of the four scenarios |
| `EndToEnd.FailureReads` | crates/uefi-loader/src/main.rs:76-86 | the spelled-out record that each loader error prints |
| `EndToEnd.SurroundingsSuffice` | crates/arch-x86_64/src/lib.rs:87-116 | quiet text before the serial copy and on stderr and stdout is enough for that condition: the copy itself never shows the record, whatever bytes it loses |
| `EndToEnd.ForeignRejectionFails` | crates/xtask/src/qemu.rs:1231-1300 | a failing input: an stderr that repeats the other rejection's record makes the check fail for an otherwise correct boot |
| `KernelLayout.CheckValuesExact` | crates/xtask/src/inspect.rs:522-580 | the constant and symbol loops pass exactly when every expected name is present with its expected value |
| `KernelLayout.CheckValuesReports` | crates/xtask/src/inspect.rs:522-580 | the first name that is absent or bound otherwise is the one reported, as missing or as wrong |
| `KernelLayout.ValidateSectionOrder` | crates/xtask/src/inspect.rs:345-366 | the loop over map lines returns the functional verdict, first fault included |
| `KernelLayout.OrderPrefixExact` | crates/xtask/src/inspect.rs:345-366 | comparing each section's line with the previous one orders all sections |
| `KernelLayout.CombinedExact` | crates/xtask/src/inspect.rs:180-251 | the inspector accepts if and only if map and ELF file describe one layout: sections in order without overlap below the guard page, every linker constant and symbol bound to its literal or section address, four segments backing them with `.bss` as the zero fill; its final guard-page check never decides anything |
| `KernelLayout.InspectedKernelPlaceable` | crates/uefi-loader/src/main.rs:210-221 | for an inspected kernel, preparation can lack pages only among the plan's own pages or the guard page itself: loading never takes the guard |
| `KernelLayout.InspectedKernelFits` | crates/uefi-loader/src/main.rs:210-228 | when every page of the load window is free an inspected kernel can always be placed, guard page included |
| `KernelLayout.BssLoadedAsZero` | crates/uefi-loader/src/main.rs:231-265 | after loading an inspected kernel every byte of `.bss` is zero |
| `Sectors.LbaRange` | crates/xtask/src/image.rs:572-579 | returns the bytes of the sectors exactly when the range ascends and lies inside the artifact |
| `GptLayout.HeaderExact` | crates/xtask/src/image.rs:368-417 | the header check passes if and only if every byte outside the CRCs and the disk GUID has its one value |
| `GptLayout.AcceptedExactly` | crates/xtask/src/image.rs:307-366 | the checks tile the disk: an image is accepted if and only if every byte outside the ESP, the first entry, the CRCs and the GUID has its one canonical value and the two GPT copies agree on the rest |
| `GptLayout.AcceptedImagesDifferOnlyInVariableRanges` | crates/xtask/src/image.rs:307-366 | two accepted images differ in no other byte |
| `FatTable.MaskedReads` | crates/xtask/src/image.rs:509-562 | the remainders in the model are the source's bit masks, for every 32-bit entry |
| `FatTable.ValidateCanonicalFatEntries` | crates/xtask/src/image.rs:509-562 | the scan accepts exactly the canonical tables, stated byte by byte: one allocated prefix whose 28-bit entries chain inside the volume, free clusters, sentinels after them, and a hint that names the boundary; it rejects only tables that have no such boundary |
| `FatTable.BoundaryUnique` | crates/xtask/src/image.rs:509-562 | a table has at most one boundary between allocated and free clusters |
| `FatTable.ValidateReservedSectors` | crates/xtask/src/image.rs:419-488 | the reserved area is accepted exactly when boot sector, backup and FSInfo hold the required bytes and all other reserved sectors are zero |
| `FatTable.BootSectorExactly` | crates/xtask/src/image.rs:419-463 | the field checks of the boot sector hold if and only if its bytes are the required ones |
| `FatTable.FsInfoExactly` | crates/xtask/src/image.rs:470-488 | the field checks of the FSInfo sector hold if and only if its bytes are the required ones |
| `FatTable.ValidateRawFat32Layout` | crates/xtask/src/image.rs:419-507 | every slice it cuts is in bounds, and it accepts exactly the canonical volumes |
| `FatTable.ClustersInBounds` | crates/xtask/src/image.rs:419-562 | in an accepted volume every cluster's entry lies inside the first FAT, every cluster's sector inside the volume after both FATs, and a cluster is allocated exactly below the boundary |
| `Lexer.Stream.NextItem` | crates/compiler/src/lib.rs:66-146 | the mutable stream yields the item of the functional lexer and stops at the same character |
| `Lexer.NextAdvances` | crates/compiler/src/lib.rs:66-146 | every item, token or error, strictly advances; the end means that only whitespace is left |
| `Lexer.NumberOverflowsExactly` | crates/compiler/src/lib.rs:66-146 | a digit run gives a number exactly while its value fits 64 bits; otherwise the error points at the first digit that makes it overflow |
| `Lexer.TokenIsMaximalMunch` | crates/compiler/src/lib.rs:66-146 | every token starts after whitespace only and is the longest text of its class; each of the four marks is its own character |
| `Lexer.ItemByFirst` | crates/compiler/src/lib.rs:66-146 | the item at a character that is not whitespace is of each class if and only if the character is that mark, a name start or a digit within 64 bits; otherwise the error names that character and its offset |
| `Lexer.CharacterClasses` | crates/compiler/src/lib.rs:92-110 | digits, letters, name starts and name continuations, spelled out |
| `Lexer.CharacterCodes` | crates/compiler/src/lib.rs:66-74 | the whitespace characters by code point |
| `Lexer.ByteLengths` | crates/compiler/src/lib.rs:66-74 | the byte length of every character by code point |
| `Lexer.TokenRelexes` | crates/compiler/src/lib.rs:66-146 | lexing the text of a token alone gives the same token kind and consumes all of it |
| `Lexer.TokensTile` | crates/compiler/src/lib.rs:66-146 | on error-free input tokens and whitespace tile the whole source |
| `Lexer.ItemsOrdered` | crates/compiler/src/lib.rs:66-146 | on every source, with or without errors: token spans are nonempty, ordered and disjoint over the whole stream, and every error lies between its neighbours |
| `Lexer.OverflowResumes` | crates/compiler/src/lib.rs:66-146 | after an overflow error there is always another item, lexed from the offending digit on: a number whose span starts at the error's offset, or a further overflow later in the digits |
| `Percentile.StatisticsMeaning` | crates/xtask/src/qemu.rs:1103-1138 | p95 is the smallest sample with at least 95 percent of the samples not above it, and minimum and maximum are the extremes, for every sample set |
| `Percentile.StatisticsExist` | crates/xtask/src/qemu.rs:1103-1138 | there are statistics exactly for sample sets that are not empty and that 32 bits can count |
| `Percentile.StatisticsOrderFree` | crates/xtask/src/qemu.rs:1103-1138 | the statistics do not depend on the order of the samples |

## Left out

- Port input and output, inline assembly, `transfer_to_kernel` and the stack switch: they are below the level of the model.
- `ExitBootServices`, the cold reset on its failure and the UEFI file protocol: foreign code; `read_bounded_file` contributes only its result.
- The GPT and FAT libraries, CRC values, partition GUIDs, directory and timestamp checks, and building the image: only the raw byte checks are modelled.
- QEMU process control, RSS sampling, time-outs, argument building, firmware and binary discovery, JSON reports and atomic file writes: effects on the host system.
- Median, mean and standard deviation of the statistics: they are floating-point summaries of the same samples.
- `BootScenario::parse`, `BootState::transition`, `MapLayout::parse` and the command line: they would add only easy members.
- Lossy UTF-8 decoding of logs: text is taken as already decoded.
- Error message texts of the host tools: failures are kept as fault values, and several messages about one sector share a fault in `FatTable` and `GptLayout`.
- EndToEnd.BootAndObserve: takes QEMU to exit in time.
- BootMachine.RunBoot: follows runs without panics; those with panics are in `LoaderControl`.
- GptLayout.AcceptedExactly: speaks of images of the fixed 64 MiB size, which the caller checks first.
- KernelLayout.CombinedExact: fixes which kernels are accepted and not which of several faults is reported first.
- FatTable.ValidateRawFat32Layout: fixes which volumes are accepted and not which of several faults is reported first.
- LogCursor.Cursor.ContainsNew: takes the log as one sequence per call; a file that is missing counts as empty.
- Lexer.Stream.NextItem: keeps a character index beside the byte offset instead of a peekable iterator.
