/** The boot and its observation composed. */
module EndToEnd {
  import opened Machine
  import ElfPlan
  import opened Firmware
  import opened KernelLoader
  import opened MemoryMap
  import opened KernelEntry
  import opened Records
  import opened ProtocolParser
  import opened LogCursor
  import opened Harness
  import opened LoaderControl
  import opened BootMachine
  import opened BootReport
  import opened SerialCopy
  import opened RecordTexts

  /** The records of a boot that the loader ends with `error`. */
  function FailureConsole(error: LoaderError): seq<Marker> {
    if error == Contract then [StartMarker, ElfValidMarker, ContractBuildMarker]
    else [StartMarker, FailureMarker(error)]
  }

  /** Exit and records of a boot, from its last event. */
  function ExitOf(last: Event): ExitCode
    requires last.Fail? || last.EnterKernel?
  {
    if last.Fail? then LoaderFailure else last.outcome.exit
  }

  function RecordsOf(last: Event): seq<Marker>
    requires last.Fail? || last.EnterKernel?
  {
    if last.Fail? then FailureConsole(last.error)
    else [StartMarker, ElfValidMarker, HandoffMarker, last.outcome.marker]
  }

  lemma FinishedRun(run: Run)
    requires ValidRun(run) && run.events != []
    requires var e := run.events[|run.events| - 1]; e.Fail? || e.EnterKernel?
    ensures run.states != [] && Last(run).pc.Halted?
    ensures var e := run.events[|run.events| - 1];
            var exit := Last(run).pc.exit;
            && (e.Fail? ==>
                  && exit == LoaderFailure
                  && Last(run).console == FailureConsole(e.error)
                  && Classify(LoaderFailure, ConsoleLog(Last(run).console)) == LoaderFailureBoot)
            && (e.EnterKernel? ==>
                  && exit == e.outcome.exit
                  && Last(run).console == [StartMarker, ElfValidMarker, HandoffMarker, e.outcome.marker])
  {
    hide Classify, ConsoleLog, LoaderControl.Carries, Progress;
    var log := ConsoleLog(Last(run).console);
    ConsoleCarries(Last(run).console);
    if run.events[|run.events| - 1].Fail? {
      LoaderEndsClassified(run.states, run.events, log);
      FailedConsole(run.states, run.events);
    } else {
      KernelEndsClassified(run.states, run.events, log);
    }
  }

  lemma {:induction false} ConsoleIsShort(states: seq<LoaderState>, events: seq<Event>, n: nat)
    requires IsRun(states, events) && n < |states|
    ensures |states[n].console| <= 4
  {
    if n > 0 {
      RunProgress(states, events, n - 1);
      assert Enabled(states[n - 1], events[n - 1]) && states[n] == Step(states[n - 1], events[n - 1]);
    }
  }

  lemma FailedConsole(states: seq<LoaderState>, events: seq<Event>)
    requires IsRun(states, events) && events != [] && events[|events| - 1].Fail?
    ensures states[|events|].console == FailureConsole(events[|events| - 1].error)
  {
    var n := |events| - 1;
    RunProgress(states, events, n);
    assert Enabled(states[n], events[n]) && states[n + 1] == Step(states[n], events[n]);
  }

  // ---------------------------------------------------------------------------------
  // The texts of a boot, from its cause; `RecordText` spells each of them out.
  // ---------------------------------------------------------------------------------

  /** The record of each loader error. */
  function ErrorText(error: LoaderError): string {
    match error
    case FileRead => RecordText(FileReadMarker)
    case ConfigInvalid => RecordText(ConfigInvalidMarker)
    case ElfInvalid => RecordText(ElfInvalidMarker)
    case Allocation => RecordText(AllocationMarker)
    case KernelAddress => RecordText(KernelAddressMarker)
    case ContractStorage => RecordText(ContractStorageMarker)
    case Contract => RecordText(ContractBuildMarker)
  }

  /** The kernel's record in each scenario. */
  function ScenarioText(scenario: BootScenario): string {
    match scenario
    case Normal => RecordText(ReadyMarker)
    case IncompatibleVersion => RecordText(AbiVersionMarker)
    case TruncatedContract => RecordText(ContractLengthMarker)
    case DeliberatePanic => RecordText(KernelPanicMarker)
  }

  /** The exit status of QEMU in each scenario. */
  function ScenarioStatus(scenario: BootScenario): int {
    match scenario
    case Normal => 33
    case IncompatibleVersion => 65
    case TruncatedContract => 65
    case DeliberatePanic => 67
  }

  /** The records of a boot in order, from what became of its preparation and its map. */
  ghost function BootTexts(prepared: Result<Prepared, LoaderError>, m: Map, scenario: BootScenario): seq<string> {
    if prepared.Err? then [RecordText(StartMarker), ErrorText(prepared.error)]
    else if !Encodable(m) then [RecordText(StartMarker), RecordText(ElfValidMarker), ErrorText(Contract)]
    else [RecordText(StartMarker), RecordText(ElfValidMarker), RecordText(HandoffMarker), ScenarioText(scenario)]
  }

  lemma FailureReads(error: LoaderError)
    ensures Line(FailureMarker(error)) == ErrorText(error)
    ensures error == Contract ==> FailureMarker(error) == ContractBuildMarker
  {
    hide Line, RecordText;
    TextOfRecord(FailureMarker(error));
  }

  lemma OutcomeReads(scenario: BootScenario)
    ensures Line(ExpectedOutcome(scenario).marker) == ScenarioText(scenario)
  {
    hide Line, RecordText;
    TextOfRecord(ExpectedOutcome(scenario).marker);
  }

  lemma StatusReads(prepared: Result<Prepared, LoaderError>, m: Map)
    ensures HostStatus(ExitOf(LastEvent(prepared, m)))
         == if prepared.Ok? && Encodable(m) then ScenarioStatus(prepared.value.scenario) else 69
  {
    hide Encodable;
  }

  /** What a boot prints, read back from its debug log, is exactly the texts of its cause. */
  lemma LogReads(prepared: Result<Prepared, LoaderError>, m: Map, scenario: BootScenario)
    requires prepared.Ok? ==> prepared.value.scenario == scenario
    requires prepared.Err? ==> prepared.error != Contract
    ensures RecordLines(ConsoleLog(RecordsOf(LastEvent(prepared, m)))) == BootTexts(prepared, m, scenario)
  {
    hide Line, RecordText, ErrorText, ScenarioText, RecordLines, ConsoleLog, FailureMarker, ExpectedOutcome, Encodable;
    var markers := RecordsOf(LastEvent(prepared, m));
    ConsoleCarries(markers);
    TextOfRecord(StartMarker);
    TextOfRecord(ElfValidMarker);
    TextOfRecord(HandoffMarker);
    if prepared.Err? {
      FailureReads(prepared.error);
    } else if !Encodable(m) {
      FailureReads(Contract);
    } else {
      OutcomeReads(scenario);
    }
    var lines, texts := LinesFor(markers), BootTexts(prepared, m, scenario);
    assert |lines| == |texts|;
    assert forall i | 0 <= i < |lines| :: lines[i] == Line(markers[i]) == texts[i];
  }

  /** What the outcome check needs of everything that is not printed by the guest. */
  predicate QuietSurroundings(scenario: BootScenario, banner: string, stderr: string, stdout: string) {
    Opposite(scenario).Some? ==>
      var needle := Line(Opposite(scenario).value);
      && QuietBefore(banner, needle)
      && !Contains(Observable(stderr), needle) && !Contains(Observable(stdout), needle)
  }

  /**
    One boot, observed.  Preparation is decided by the files, the free pages and the
    firmware's offer; with the map it decides the last event, and that the records on the
    debug console, the exit status and the report.  When the kernel is entered its image is in
    memory and the report satisfies the scenario exactly when no other channel shows the other
    rejection's record; otherwise the report is a loader failure.
  */
  method BootAndObserve(fw: Memory, files: Result<Files, LoaderError>, offer: Option<int>, m: Map,
                        requested: BootScenario, banner: string, stderr: string, stdout: string)
    returns (report: BootRun, prepared: Result<Prepared, LoaderError>, copy: string)
    requires fw.Valid()
    requires files.Err? ==> files.error in FILE_ERRORS
    requires files.Ok? ==> files.value.scenario == requested
    modifies fw`free, fw.ram
    ensures prepared == PrepareResult(files, old(fw.free), offer)
    ensures var last := LastEvent(prepared, m);
            && Dropped(copy, SerialText(RecordsOf(last)))
            && report == Report(requested, Some(HostStatus(ExitOf(last))), false, report.timeToReadyMarker,
                                ConsoleLog(RecordsOf(last)), Channels(banner + copy, stderr, stdout))
            && (report.timeToReadyMarker.Some? <==> Shows(ConsoleLog(RecordsOf(last)), Line(ReadyMarker)))
            && RecordLines(ConsoleLog(RecordsOf(last))) == BootTexts(prepared, m, requested)
    ensures report.exitStatus == Some(if prepared.Ok? && Encodable(m) then ScenarioStatus(requested) else 69)
    ensures if prepared.Ok? && Encodable(m)
            then && Accepted(files) && KernelInMemory(fw.ram[..], KernelSegments(files.value.kernel))
                 && (ScenarioOutcome(report) <==> OthersLack(requested, Channels(banner + copy, stderr, stdout)))
                 && (QuietSurroundings(requested, banner, stderr, stdout) ==> ScenarioOutcome(report))
            else report.classification == LoaderFailureBoot
  {
    hide ElfPlan.Parse, Encodable, KernelInMemory, Placeable, Grants, ValidRun, ConsoleLog, LoaderControl.Carries,
         ScenarioOutcome, FirstShown, Shows, QuietSurroundings, KernelSegments, ParseStream, Contains, Line,
         SerialText, Dropped, CombinedLog, OthersLack, BootTexts, RecordLines, ScenarioStatus,
         HostStatus;
    var run: Run;
    run, prepared := RunBoot(fw, files, offer, m);
    FinishedRun(run);
    var console := Last(run).console;
    var log := ConsoleLog(console);
    assert |log| <= MAX_OBSERVED_LOG_BYTES by {
      ConsoleLogSize(console);
      ShortConsole(run);
    }
    LogReads(prepared, m, requested);
    StatusReads(prepared, m);
    copy := WriteSerial(console);
    var other := Channels(banner + copy, stderr, stdout);
    var snapshots, times := Polls(log);
    report := ObserveBoot(requested, Some(HostStatus(Last(run).pc.exit)), false, snapshots, times, other);
    SeenByTheEnd(snapshots, times, report.timeToReadyMarker);
    assert Observable(log) == log;
    if prepared.Ok? && Encodable(m) {
      OwnConsolePasses(requested);
      ScenarioPasses(requested, log, other, report.timeToReadyMarker);
      if QuietSurroundings(requested, banner, stderr, stdout) {
        SurroundingsSuffice(requested, banner, copy, stderr, stdout);
      }
    }
  }

  lemma ShortConsole(run: Run)
    requires ValidRun(run) && run.states != []
    ensures |Last(run).console| <= 4
  {
    ConsoleIsShort(run.states, run.events, |run.states| - 1);
  }

  /** Quiet text before and beside the guest's own output is enough: its serial copy never shows that record. */
  lemma SurroundingsSuffice(scenario: BootScenario, banner: string, copy: string, stderr: string, stdout: string)
    requires QuietSurroundings(scenario, banner, stderr, stdout)
    requires Dropped(copy, SerialText(ConsoleOf(scenario)))
    ensures OthersLack(scenario, Channels(banner + copy, stderr, stdout))
  {
    hide Contains, Line, Dropped, SerialText, QuietBefore;
    if Opposite(scenario).Some? {
      var needle := Line(Opposite(scenario).value);
      MarkerLine(Opposite(scenario).value);
      CopyLacksOpposite(scenario, copy);
      JoinedLacks(banner, copy, needle);
      PrefixLacks(banner + copy, |Observable(banner + copy)|, needle);
    }
  }

  /** A failing input: QEMU's error output that repeats the other rejection's record spoils a correct boot. */
  lemma ForeignRejectionFails(scenario: BootScenario, serial: string, stdout: string)
    requires Opposite(scenario).Some?
    ensures var debugLog := ConsoleLog(ConsoleOf(scenario));
            var other := Channels(serial, Line(Opposite(scenario).value), stdout);
            !ScenarioOutcome(Report(scenario, Some(HostStatus(ExpectedOutcome(scenario).exit)), false, None,
                                    debugLog, other))
  {
    hide ScenarioOutcome, Report, Line, Contains, CombinedLog, ConsoleLog, LoaderControl.Carries, ForeignTextLacks,
         CollectLogs;
    var needle := Line(Opposite(scenario).value);
    var debugLog := ConsoleLog(ConsoleOf(scenario));
    var other := Channels(serial, needle, stdout);
    ConsoleCarries(ConsoleOf(scenario));
    ConsoleLogSize(ConsoleOf(scenario));
    MarkerLine(Opposite(scenario).value);
    assert Observable(needle) == needle;
    ContainsItself(needle, "");
    assert needle + "" == needle;
    CombinedLogLacks(scenario, debugLog, other);
    PassesExactly(scenario, Some(HostStatus(ExpectedOutcome(scenario).exit)), false, None, debugLog, other);
  }
}
