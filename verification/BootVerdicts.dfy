/** What the harness concludes from any log and any exit status, in terms of the texts in the log. */
module BootVerdicts {
  import opened Machine
  import opened Records
  import opened RecordKinds
  import opened RecordTexts
  import opened LogLines
  import opened ProtocolParser
  import opened LogCursor
  import opened Harness
  import opened KernelEntry
  import opened LoaderControl
  import opened MemoryMap
  import opened BootReport

  /** A complete log whose records are a prefix of a declared path and which does not end inside a record. */
  ghost predicate CleanLog(log: string, truncated: bool) {
    !truncated && AllowedPrefix(RecordLines(log)) && !EndsInRecord(log)
  }

  function LastRecord(log: string): string {
    var lines := RecordLines(log);
    if lines == [] then "" else lines[|lines| - 1]
  }

  predicate SaysReady(text: string) { text == RecordText(ReadyMarker) }
  predicate SaysPanic(text: string) { text == RecordText(KernelPanicMarker) }

  predicate SaysRejected(text: string) {
    || text == RecordText(AbiVersionMarker) || text == RecordText(ContractLengthMarker)
    || text == RecordText(ContractInvalidMarker)
  }

  predicate FromKernel(text: string) {
    SaysReady(text) || SaysRejected(text) || SaysPanic(text)
  }

  lemma KindOfText(text: string, m: Marker)
    requires MarkerKind(m) in {Ready, AbiVersion, ContractLength, ContractInvalid, Panic}
    ensures text == RecordText(m) <==> KindOf(text) == Some(MarkerKind(m))
  {
    hide Line, KindOf, RecordText;
    TextOfRecord(m);
    KindOfLine(m);
    if KindOf(text) == Some(MarkerKind(m)) {
      OneRecordPerKind(text, m);
    }
  }

  lemma OneRecordPerKind(text: string, m: Marker)
    requires MarkerKind(m) in {Ready, AbiVersion, ContractLength, ContractInvalid, Panic}
    requires KindOf(text) == Some(MarkerKind(m))
    ensures text == Line(m)
  {
    hide Line;
  }

  lemma KindsOfTexts(text: string)
    ensures text == RecordText(ReadyMarker) <==> KindOf(text) == Some(Ready)
    ensures text == RecordText(AbiVersionMarker) <==> KindOf(text) == Some(AbiVersion)
    ensures text == RecordText(ContractLengthMarker) <==> KindOf(text) == Some(ContractLength)
    ensures text == RecordText(ContractInvalidMarker) <==> KindOf(text) == Some(ContractInvalid)
    ensures text == RecordText(KernelPanicMarker) <==> KindOf(text) == Some(Panic)
  {
    hide KindOf, RecordText;
    KindOfText(text, ReadyMarker);
    KindOfText(text, AbiVersionMarker);
    KindOfText(text, ContractLengthMarker);
    KindOfText(text, ContractInvalidMarker);
    KindOfText(text, KernelPanicMarker);
  }

  lemma EmptyHasNoKind()
    ensures KindOf("").None?
  {
    hide KindOf, ValidRecordGrammar, RecordSequence, Printable;
    if KindOf("").Some? {
      KnownLine("");
      assert false;
    }
  }

  /** The evidence of a clean log is read off its last record. */
  lemma EvidenceExactly(log: string, truncated: bool)
    requires CleanLog(log, truncated)
    ensures var e := ParseStream(log, truncated).markers;
            var last := LastRecord(log);
            && (e.ready <==> SaysReady(last)) && (e.rejected <==> SaysRejected(last)) && (e.panic <==> SaysPanic(last))
            && e.terminalCode
               == if SaysReady(last) then Some("KERNEL_READY")
                  else if last == RecordText(AbiVersionMarker) then Some("ABI_VERSION")
                  else if last == RecordText(ContractLengthMarker) then Some("CONTRACT_LENGTH")
                  else if last == RecordText(ContractInvalidMarker) then Some("CONTRACT_INVALID")
                  else if SaysPanic(last) then Some("KERNEL_PANIC") else None
  {
    hide ParseStream, RecordLines, EndsInRecord, AllowedPrefix, KindOf, RecordText;
    CleanTraceExactly(log, truncated);
    KindsOfTexts(LastRecord(log));
    EmptyHasNoKind();
  }

  /**
    Each of the seven classifications, for every time-out, exit status and log. A clean log
    and the status decide together; the literal statuses are those QEMU exits with.
  */
  lemma ClassifiedExactly(timedOut: bool, status: Option<int>, log: string, truncated: bool)
    ensures var c := ClassifyBoot(timedOut, status, ParseStream(log, truncated));
            var clean, last := CleanLog(log, truncated), LastRecord(log);
            && (c == TimeoutBoot <==> timedOut)
            && (c == ReadyBoot <==> !timedOut && clean && status == Some(33) && SaysReady(last))
            && (c == RejectedBoot <==> !timedOut && clean && status == Some(65) && SaysRejected(last))
            && (c == PanicBoot <==> !timedOut && clean && status == Some(67) && SaysPanic(last))
            && (c == LoaderFailureBoot <==> !timedOut && clean && status == Some(69) && !FromKernel(last))
            && (c == MissingMarker
                <==> !timedOut && clean && status in {Some(33), Some(65), Some(67)} && !FromKernel(last))
            && (c == UnexpectedExit
                <==> && !timedOut
                     && (|| !clean || status !in {Some(33), Some(65), Some(67), Some(69)}
                         || (SaysReady(last) && status != Some(33)) || (SaysRejected(last) && status != Some(65))
                         || (SaysPanic(last) && status != Some(67))))
  {
    hide ParseStream, RecordLines, EndsInRecord, AllowedPrefix, KindOf, RecordText;
    CleanTraceExactly(log, truncated);
    KindsOfTexts(LastRecord(log));
    if CleanLog(log, truncated) {
      EvidenceExactly(log, truncated);
    }
  }

  // ---------------------------------------------------------------------------------
  // Violations.
  // ---------------------------------------------------------------------------------

  lemma {:induction false} ViolationPersists(lines: seq<string>, k: nat)
    requires k <= |lines| && ProcessTagged(lines[..k], false).trace.violation.Some?
    ensures ProcessTagged(lines, false).trace.violation == ProcessTagged(lines[..k], false).trace.violation
  {
    hide ProcessLine;
    if k < |lines| {
      var n := |lines| - 1;
      assert lines[..n][..k] == lines[..k];
      ViolationPersists(lines[..n], k);
      ViolationStays(lines[n], ProcessTagged(lines[..n], false));
    } else {
      assert lines[..k] == lines;
    }
  }

  /** Why the record at `k`, the first that no path allows, is refused. */
  predicate Refused(v: Violation, lines: seq<string>, k: nat)
    requires k < |lines|
  {
    var line := lines[k];
    if |line| > 256 then v == OverlongRecord
    else if !ValidRecordGrammar(line) then v == MalformedRecord
    else if k > 0 && RecordSequence(line).Some? && RecordSequence(lines[k - 1]).Some?
            && RecordSequence(line).value <= RecordSequence(lines[k - 1]).value then v == SequenceOutOfOrder
    else if KindOf(line).None? then v == UnknownRecord
    else v == RecordOutOfOrder
  }

  /**
    The violation of a stream, in all cases: truncation first, then the first record that no
    path allows with the first of its faults, then an unfinished record at the end.
  */
  lemma ViolationExactly(log: string, k: nat)
    ensures ParseStream(log, true).violation == Some(LogTruncated)
    ensures AllowedPrefix(RecordLines(log)) ==>
              ParseStream(log, false).violation == if EndsInRecord(log) then Some(TruncatedRecord) else None
    ensures k < |RecordLines(log)| && AllowedPrefix(RecordLines(log)[..k])
            && !AllowedPrefix(RecordLines(log)[..k + 1]) ==>
              var v := ParseStream(log, false).violation; v.Some? && Refused(v.value, RecordLines(log), k)
  {
    hide LinesOf, ProcessLines, ProcessTagged, Tagged, AllowedPrefix, Refused, StateAfter;
    var lines := RecordLines(log);
    TruncationStays(LinesOf(log).complete);
    OnlyTaggedMatter(LinesOf(log).complete, false);
    TaggedAllTagged(LinesOf(log).complete);
    if AllowedPrefix(lines) {
      CleanExactly(lines);
      ReachedIsAllowed(lines);
      TagNotEmpty(LinesOf(log).partial);
      if k < |lines| {
        AllowedCloses(lines, k + 1);
      }
    } else if k < |lines| && AllowedPrefix(lines[..k]) && !AllowedPrefix(lines[..k + 1]) {
      StepRefused(lines, k);
      ViolationPersists(lines, k + 1);
    }
  }

  lemma TagNotEmpty(partial: string)
    ensures StartsWith(partial, TAG) ==> partial != ""
  {
  }

  lemma AllowedCloses(lines: seq<string>, n: nat)
    requires AllowedPrefix(lines) && n <= |lines|
    ensures AllowedPrefix(lines[..n])
  {
    hide CompletePath;
    var path :| CompletePath(path) && lines <= path;
    assert lines[..n] <= path;
  }

  lemma StepRefused(lines: seq<string>, k: nat)
    requires AllTagged(lines) && k < |lines|
    requires AllowedPrefix(lines[..k]) && !AllowedPrefix(lines[..k + 1])
    ensures var v := ProcessTagged(lines[..k + 1], false).trace.violation; v.Some? && Refused(v.value, lines, k)
  {
    hide AllowedPrefix, ValidRecordGrammar, RecordSequence, KindOf, StateAfter;
    CleanExactly(lines[..k]);
    ReachedIsAllowed(lines[..k]);
    ReachedIsAllowed(lines[..k + 1]);
    var p := ProcessTagged(lines[..k], false);
    assert lines[..k + 1][..k] == lines[..k] && lines[..k + 1][k] == lines[k];
    StateNext(lines, k);
    LastSequence(lines[..k]);
    if ValidRecordGrammar(lines[k]) {
      GrammarHasSequence(lines[k]);
    }
  }

  lemma StateNext(lines: seq<string>, k: nat)
    requires k < |lines| && StateAfter(lines[..k]).Some?
    ensures var next := StateAfter(lines[..k + 1]);
            next == match KindOf(lines[k])
                    case None => None
                    case Some(kind) => Transition(StateAfter(lines[..k]).value, kind)
  {
    hide KindOf;
    assert lines[..k + 1][..k] == lines[..k];
  }

  /** After an allowed prefix the parser remembers the number of its last record. */
  lemma LastSequence(lines: seq<string>)
    requires AllTagged(lines) && StateAfter(lines).Some?
    ensures ProcessTagged(lines, false).lastSequence == if lines == [] then None else RecordSequence(lines[|lines| - 1])
    ensures lines != [] ==> RecordSequence(lines[|lines| - 1]).Some?
  {
    hide ValidRecordGrammar, RecordSequence, KindOf;
    if lines != [] {
      var n := |lines| - 1;
      CleanExactly(lines[..n]);
      KnownLine(lines[n]);
      var p := ProcessTagged(lines[..n], false);
    }
  }

  // ---------------------------------------------------------------------------------
  // Evidence on streams with violations, and the report.
  // ---------------------------------------------------------------------------------

  /** What the evidence so far rests on among the records seen. */
  predicate Printed(e: MarkerEvidence, lines: seq<string>) {
    && (e.ready ==> RecordText(ReadyMarker) in lines)
    && (e.rejected ==>
          || RecordText(AbiVersionMarker) in lines || RecordText(ContractLengthMarker) in lines
          || RecordText(ContractInvalidMarker) in lines)
    && (e.panic ==> RecordText(KernelPanicMarker) in lines)
    && (e.terminalCode.Some? <==> e.ready || e.rejected || e.panic)
  }

  lemma {:induction false} EvidencePrintedSoFar(lines: seq<string>, truncated: bool)
    ensures Printed(ProcessTagged(lines, truncated).trace.markers, lines)
  {
    hide ValidRecordGrammar, RecordSequence, KindOf, RecordText;
    if lines != [] {
      var n := |lines| - 1;
      EvidencePrintedSoFar(lines[..n], truncated);
      KindsOfTexts(lines[n]);
      assert forall x | x in lines[..n] :: x in lines;
      assert lines[n] in lines;
    }
  }

  /** On every stream, violating ones included, evidence is set only by a record that was printed. */
  lemma EvidencePrinted(log: string, truncated: bool)
    ensures Printed(ParseStream(log, truncated).markers, RecordLines(log))
  {
    hide ProcessTagged, ProcessLines, Tagged, LinesOf, Printed;
    OnlyTaggedMatter(LinesOf(log).complete, truncated);
    EvidencePrintedSoFar(RecordLines(log), truncated);
  }

  /** Every field of a report, for every input. */
  lemma ReportExactly(scenario: BootScenario, status: Option<int>, timedOut: bool, time: Option<nat>,
                      debugLog: string, other: Channels)
    ensures var run := Report(scenario, status, timedOut, time, debugLog, other);
            var read, truncated := debugLog[..Min(|debugLog|, 4194304)], |debugLog| > 4194304;
            && run.scenario == scenario && run.exitStatus == status && run.timeToReadyMarker == time
            && run.classification == ClassifyBoot(timedOut, status, ParseStream(read, truncated))
            && (run.protocolError.None? <==> CleanLog(read, truncated))
            && Printed(MarkerEvidence(run.sawReady, run.sawReject, run.sawPanic, run.terminalCode), RecordLines(read))
            && (CleanLog(read, truncated) ==>
                  && (run.sawReady <==> SaysReady(LastRecord(read)))
                  && (run.sawReject <==> SaysRejected(LastRecord(read)))
                  && (run.sawPanic <==> SaysPanic(LastRecord(read))))
  {
    hide ParseStream, RecordLines, EndsInRecord, AllowedPrefix, Printed, ClassifyBoot, CombinedLog, RecordText;
    var (read, truncated) := ReadBounded(debugLog);
    CleanTraceExactly(read, truncated);
    EvidencePrinted(read, truncated);
    if CleanLog(read, truncated) {
      EvidenceExactly(read, truncated);
    }
  }

  /** Records longer than 256 bytes are cut; every record ends in one LF. */
  lemma RecordWritten(log: string, record: string)
    ensures WriteRecord(log, record) == log + (if |record| <= 256 then record else record[..256]) + "\n"
  {
    assert |record| <= 256 ==> record[..|record|] == record;
  }

  // ---------------------------------------------------------------------------------
  // Outcomes and exits as the host sees them.
  // ---------------------------------------------------------------------------------

  lemma ExitStatuses()
    ensures HostStatus(Success) == 33 && HostStatus(ContractRejected) == 65 && HostStatus(KernelPanic) == 67
    ensures HostStatus(LoaderFailure) == 69 && HostStatus(KernelReturned) == 71
  {
  }

  /** What each kernel outcome prints and the status it leaves. */
  lemma OutcomesReadAs()
    ensures Line(READY.marker) == RecordText(ReadyMarker) && HostStatus(READY.exit) == 33
    ensures Line(REJECT_VERSION.marker) == RecordText(AbiVersionMarker) && HostStatus(REJECT_VERSION.exit) == 65
    ensures Line(REJECT_LENGTH.marker) == RecordText(ContractLengthMarker) && HostStatus(REJECT_LENGTH.exit) == 65
    ensures Line(REJECT_INVALID.marker) == RecordText(ContractInvalidMarker) && HostStatus(REJECT_INVALID.exit) == 65
    ensures Line(PANICKED.marker) == RecordText(KernelPanicMarker) && HostStatus(PANICKED.exit) == 67
  {
    hide Line, RecordText;
    TextOfRecord(READY.marker);
    TextOfRecord(REJECT_VERSION.marker);
    TextOfRecord(REJECT_LENGTH.marker);
    TextOfRecord(REJECT_INVALID.marker);
    TextOfRecord(PANICKED.marker);
  }

  function PanicText(number: u8): string {
    if number == 2 then RecordText(LoaderPanic2Marker)
    else if number == 3 then RecordText(LoaderPanic3Marker)
    else RecordText(LoaderPanic4Marker)
  }

  lemma PanicMarkerReads(number: u8)
    ensures Line(PanicMarker(number)) == PanicText(number)
  {
    hide Line, RecordText;
    TextOfRecord(PanicMarker(number));
  }

  /** A panic in fallible code prints the loader's panic record with the number that is next in the log. */
  lemma PanicReadsAs(states: seq<LoaderState>, events: seq<Event>)
    requires CodeRun(states, events) && events != [] && events[|events| - 1].PanicHere?
    ensures var console := states[|events|].console;
            && 2 <= |console| <= 4
            && Line(console[|console| - 1]) == PanicText(|console|)
  {
    hide Line, PanicText, PanicMarker;
    var n := |events| - 1;
    RunProgress(states, events, n);
    assert Enabled(states[n], events[n]) && states[n + 1] == Step(states[n], events[n]);
    PanicMarkerReads(states[n].nextPanicSequence);
  }
}
