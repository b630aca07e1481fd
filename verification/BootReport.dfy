/** From console output to a boot report, and the end-to-end result for every scenario. */
module BootReport {
  import opened Machine
  import opened Records
  import opened RecordKinds
  import opened LogLines
  import opened ProtocolParser
  import opened LogCursor
  import opened MemoryMap
  import opened KernelEntry
  import opened Harness
  import opened LoaderControl
  import opened BootMachine

  // ---------------------------------------------------------------------------------
  // The console.
  // ---------------------------------------------------------------------------------

  const MAX_RECORD_BYTES: nat := 256

  /** `write_record` on the debug console: at most 256 bytes, then LF. */
  function WriteRecord(log: string, record: string): string {
    log + record[..Min(|record|, MAX_RECORD_BYTES)] + "\n"
  }

  function ConsoleLog(markers: seq<Marker>): string {
    if markers == [] then ""
    else WriteRecord(ConsoleLog(markers[..|markers| - 1]), Line(markers[|markers| - 1]))
  }

  lemma MarkerLine(m: Marker)
    ensures StartsWith(Line(m), TAG) && |Line(m)| <= MAX_RECORD_BYTES
    ensures NoNewline(Line(m)) && StripCr(Line(m)) == Line(m)
    ensures Line(m) != ""
  {
    hide KindOf, ValidRecordGrammar, RecordSequence, Line;
    KindOfLine(m);
    KnownLine(Line(m));
    forall i | 0 <= i < |Line(m)|
      ensures Line(m)[i] != '\n'
    {
      assert IsNotNewline(Line(m)[i]);
    }
    LastIsCodeChar(m);
  }

  lemma {:induction false} ConsoleLines(markers: seq<Marker>)
    ensures LinesOf(ConsoleLog(markers)) == Lines(LinesFor(markers), "")
  {
    hide Line, LinesOf;
    if markers == [] {
      assert LinesOf("") == Lines([], "") by { EmptyLog(); }
    } else {
      var n := |markers| - 1;
      ConsoleLines(markers[..n]);
      MarkerLine(markers[n]);
      var line := Line(markers[n]);
      assert line[..Min(|line|, MAX_RECORD_BYTES)] == line;
      LinesOfLine(ConsoleLog(markers[..n]), line);
      assert "" + line == line;
      assert LinesFor(markers) == LinesFor(markers[..n]) + [line];
    }
  }

  lemma {:induction false} TaggedMarkers(markers: seq<Marker>)
    ensures Tagged(LinesFor(markers)) == LinesFor(markers)
  {
    hide Line, StripCr;
    if markers != [] {
      var n := |markers| - 1;
      TaggedMarkers(markers[..n]);
      MarkerLine(markers[n]);
      assert LinesFor(markers)[..n] == LinesFor(markers[..n]);
      assert LinesFor(markers) == LinesFor(markers[..n]) + [Line(markers[n])];
    }
  }

  /** What the guest prints is exactly what the parser reads back. */
  lemma ConsoleCarries(markers: seq<Marker>)
    ensures LoaderControl.Carries(ConsoleLog(markers), markers)
  {
    hide Tagged, LinesOf;
    ConsoleLines(markers);
    TaggedMarkers(markers);
  }

  // ---------------------------------------------------------------------------------
  // The report.
  // ---------------------------------------------------------------------------------

  /** The channels collected beside the debug console. */
  datatype Channels = Channels(serial: string, stderr: string, stdout: string)

  /** `read_log_bounded`: at most 4 MiB, and whether more was there. */
  function ReadBounded(log: string): (string, bool) {
    (Observable(log), |log| > MAX_OBSERVED_LOG_BYTES)
  }

  function CombinedLog(debugLog: string, other: Channels): string {
    CollectLogs([ReadBounded(other.serial), ReadBounded(debugLog),
                 ReadBounded(other.stderr), ReadBounded(other.stdout)])
  }

  function Report(scenario: BootScenario, exitStatus: Option<int>, timedOut: bool, timeToReady: Option<nat>,
                  debugLog: string, other: Channels): BootRun
  {
    var (bytes, truncated) := ReadBounded(debugLog);
    var trace := ParseStream(bytes, truncated);
    BootRun(scenario, ClassifyBoot(timedOut, exitStatus, trace), exitStatus, timeToReady,
            trace.markers.ready, trace.markers.rejected, trace.markers.panic,
            trace.markers.terminalCode, trace.violation, CombinedLog(debugLog, other))
  }

  /** `observe_boot` after QEMU has exited: the polls, the batch parse and the report. */
  method ObserveBoot(scenario: BootScenario, exitStatus: Option<int>, timedOut: bool,
                     snapshots: seq<string>, times: seq<nat>, other: Channels) returns (run: BootRun)
    requires snapshots != [] && |times| == |snapshots| && AppendOnly(snapshots)
    ensures var debugLog := snapshots[|snapshots| - 1];
            && run == Report(scenario, exitStatus, timedOut, run.timeToReadyMarker, debugLog, other)
            && FirstShown(snapshots, times, run.timeToReadyMarker)
  {
    hide ParseStream, FirstShown;
    var timeToReady := ObserveRun(snapshots, times);
    var debugLog := snapshots[|snapshots| - 1];
    var (bytes, truncated) := ReadBounded(debugLog);
    var trace := ParseProtocolStream(bytes, truncated);
    run := BootRun(scenario, ClassifyBoot(timedOut, exitStatus, trace), exitStatus, timeToReady,
                   trace.markers.ready, trace.markers.rejected, trace.markers.panic,
                   trace.markers.terminalCode, trace.violation, CombinedLog(debugLog, other));
  }

  /** With append-only growth the marker was seen at some poll exactly when the final log shows it. */
  lemma SeenByTheEnd(snapshots: seq<string>, times: seq<nat>, t: Option<nat>)
    requires snapshots != [] && |times| == |snapshots| && AppendOnly(snapshots)
    requires FirstShown(snapshots, times, t)
    ensures t.Some? <==> Shows(snapshots[|snapshots| - 1], Line(ReadyMarker))
  {
    hide Line, LinesOf, Sees;
    var n := |snapshots| - 1;
    if t.Some? {
      var k :| 0 <= k < |snapshots| && Shows(snapshots[k], Line(ReadyMarker));
      if k < n {
        assert snapshots[k] <= snapshots[n];
        ShownStays(snapshots[k], snapshots[n], Line(ReadyMarker));
      }
    }
  }

  lemma ShownStays(log: string, longer: string, needle: string)
    requires log <= longer && Shows(log, needle)
    ensures Shows(longer, needle)
  {
    hide LinesOf, Sees;
    var n := |Observable(log)|;
    assert longer[..n] == Observable(log);
    ObservableGrows(longer, n);
    var lines := LinesOf(Observable(log)).complete;
    var i :| 0 <= i < |lines| && Sees(lines[i], needle);
    assert LinesOf(Observable(longer)).complete[i] == lines[i];
  }

  // ---------------------------------------------------------------------------------
  // The marker texts that the outcome check searches for.
  // ---------------------------------------------------------------------------------

  lemma LineLength(m: Marker)
    ensures |Line(m)| == 51 + MarkerShape(m).1 + MarkerShape(m).2 + MarkerShape(m).3
  {
    hide Fields, MarkerShape;
    ShapeOfFields(m);
    RenderLength(Fields(m));
  }

  lemma RenderLength(r: Record)
    requires |r.sequence| == 4
    ensures |Render(r)| == 51 + |r.phase| + |r.level| + |r.code|
  {
  }

  /** Everything of a line before its code. */
  function Head(r: Record): string {
    TAG + " " + "schema=1" + " " + "seq=" + r.sequence + " " + "phase=" + r.phase + " "
    + "level=" + r.level + " " + "code="
  }

  lemma RenderIsHeadAndCode(r: Record)
    ensures Render(r) == Head(r) + r.code
  {
  }

  lemma HeadsAgree()
    ensures Head(Fields(AbiVersionMarker)) == Head(Fields(ContractLengthMarker))
    ensures Fields(AbiVersionMarker).code != "" && Fields(AbiVersionMarker).code[0] == 'A'
    ensures Fields(ContractLengthMarker).code != "" && Fields(ContractLengthMarker).code[0] == 'C'
  {
  }

  lemma CodesDiffer(head: string, a: string, b: string, tail: string)
    requires a != "" && b != "" && a[0] != b[0] && |a| <= |b + tail|
    ensures !OccursAt(head + b + tail, head + a, 0)
  {
    var hay := head + b + tail;
    assert hay[0..|head + a|][|head|] == b[0] && (head + a)[|head|] == a[0];
  }

  lemma TagStartsOnce(hay: string, needle: string, i: int)
    requires StartsWith(hay, TAG) && StartsWith(needle, TAG) && 0 < i < 6 && i <= |hay| - |needle|
    ensures !OccursAt(hay, needle, i)
  {
    assert hay[i..i + |needle|][0] == hay[i] == TAG[i];
    assert needle[0] == TAG[0];
  }

  /** The text of the version rejection does not occur inside the length rejection, with or without CR. */
  lemma VersionNotInLength(tail: string)
    requires |tail| <= 1
    ensures !Contains(Line(ContractLengthMarker) + tail, Line(AbiVersionMarker))
  {
    hide Fields, Head, Render, OccursAt;
    var hay, needle := Line(ContractLengthMarker) + tail, Line(AbiVersionMarker);
    LineLength(ContractLengthMarker);
    LineLength(AbiVersionMarker);
    RenderIsHeadAndCode(Fields(ContractLengthMarker));
    RenderIsHeadAndCode(Fields(AbiVersionMarker));
    HeadsAgree();
    MarkerLine(ContractLengthMarker);
    MarkerLine(AbiVersionMarker);
    CodesDiffer(Head(Fields(AbiVersionMarker)), Fields(AbiVersionMarker).code, Fields(ContractLengthMarker).code, tail);
    forall i | 0 <= i <= |hay| - |needle|
      ensures !OccursAt(hay, needle, i)
    {
      if i > 0 {
        TagStartsOnce(hay, needle, i);
      }
    }
  }

  lemma ShorterLacks(m: Marker, tail: string, needle: Marker)
    requires |tail| <= 1
    requires MarkerShape(m).1 + MarkerShape(m).2 + MarkerShape(m).3 + 1
           < MarkerShape(needle).1 + MarkerShape(needle).2 + MarkerShape(needle).3
    ensures !Contains(Line(m) + tail, Line(needle))
  {
    hide Line, MarkerShape;
    LineLength(m);
    LineLength(needle);
    ContainsShort(Line(m) + tail, Line(needle));
  }

  /** The other rejection's marker text, which must be absent. */
  function Opposite(scenario: BootScenario): Option<Marker> {
    match scenario
    case IncompatibleVersion => Some(ContractLengthMarker)
    case TruncatedContract => Some(AbiVersionMarker)
    case _ => None
  }

  function ConsoleOf(scenario: BootScenario): seq<Marker> {
    [StartMarker, ElfValidMarker, HandoffMarker, ExpectedOutcome(scenario).marker]
  }

  lemma ConsoleLacksOpposite(scenario: BootScenario, i: nat, tail: string)
    requires Opposite(scenario).Some? && i < 4 && |tail| <= 1
    ensures !Contains(Line(ConsoleOf(scenario)[i]) + tail, Line(Opposite(scenario).value))
  {
    hide Contains, Line;
    if scenario == TruncatedContract && i == 3 {
      VersionNotInLength(tail);
    } else {
      ShorterLacks(ConsoleOf(scenario)[i], tail, Opposite(scenario).value);
    }
  }

  /** No untagged line of the log, and not its unfinished end, holds the text. */
  predicate ForeignTextLacks(log: string, needle: string) {
    && !Contains(LinesOf(log).partial, needle)
    && forall i | 0 <= i < |LinesOf(log).complete| ::
         StartsWith(StripCr(LinesOf(log).complete[i]), TAG) || !Contains(LinesOf(log).complete[i], needle)
  }

  /** The guest's own records never hold that text, so it can only stand in foreign text. */
  lemma DebugLogLacks(log: string, scenario: BootScenario)
    requires Opposite(scenario).Some? && LoaderControl.Carries(log, ConsoleOf(scenario))
    ensures ForeignTextLacks(log, Line(Opposite(scenario).value)) <==> !Contains(log, Line(Opposite(scenario).value))
  {
    hide Contains, Line, LinesOf, StripCr, Tagged, Unlines;
    var needle := Line(Opposite(scenario).value);
    MarkerLine(Opposite(scenario).value);
    var lines := LinesOf(log).complete;
    LinesRejoin(log);
    ContainsByLine(lines, LinesOf(log).partial, needle);
    forall i | 0 <= i < |lines| && StartsWith(StripCr(lines[i]), TAG)
      ensures !Contains(lines[i], needle)
    {
      var x := StripCr(lines[i]);
      TaggedMember(lines, x);
      var k :| 0 <= k < 4 && LinesFor(ConsoleOf(scenario))[k] == x;
      var tail := StripRest(lines[i]);
      ConsoleLacksOpposite(scenario, k, tail);
    }
  }

  lemma StripRest(line: string) returns (tail: string)
    ensures line == StripCr(line) + tail && |tail| <= 1
  {
    tail := line[|StripCr(line)|..];
  }

  lemma DebugLogHolds(log: string, scenario: BootScenario)
    requires LoaderControl.Carries(log, ConsoleOf(scenario))
    ensures Contains(log, Line(ExpectedOutcome(scenario).marker))
  {
    hide Contains, Line, LinesOf, StripCr, Tagged, Unlines;
    var needle := Line(ExpectedOutcome(scenario).marker);
    MarkerLine(ExpectedOutcome(scenario).marker);
    var lines := LinesOf(log).complete;
    assert LinesFor(ConsoleOf(scenario))[3] == needle;
    TaggedMember(lines, needle);
    var i :| 0 <= i < |lines| && StripCr(lines[i]) == needle;
    var tail := StripRest(lines[i]);
    ContainsItself(needle, tail);
    LinesRejoin(log);
    ContainsByLine(lines, LinesOf(log).partial, needle);
  }

  lemma ContainsItself(needle: string, tail: string)
    ensures Contains(needle + tail, needle)
  {
    assert OccursAt(needle + tail, needle, 0);
  }

  // ---------------------------------------------------------------------------------
  // End to end.
  // ---------------------------------------------------------------------------------

  /** No bounded read of another channel shows the other rejection's text. */
  predicate OthersLack(scenario: BootScenario, other: Channels) {
    Opposite(scenario).Some? ==>
      var needle := Line(Opposite(scenario).value);
      && !Contains(Observable(other.serial), needle)
      && !Contains(Observable(other.stderr), needle)
      && !Contains(Observable(other.stdout), needle)
  }

  /** Nothing but the guest's records may show it: neither foreign text on the debug console nor another channel. */
  predicate QuietChannels(scenario: BootScenario, debugLog: string, other: Channels) {
    && (Opposite(scenario).Some? ==> ForeignTextLacks(debugLog, Line(Opposite(scenario).value)))
    && OthersLack(scenario, other)
  }

  lemma CombinedLogHolds(scenario: BootScenario, debugLog: string, other: Channels)
    requires |debugLog| <= MAX_OBSERVED_LOG_BYTES && LoaderControl.Carries(debugLog, ConsoleOf(scenario))
    ensures Contains(CombinedLog(debugLog, other), Line(ExpectedOutcome(scenario).marker))
  {
    hide Contains, Line, CollectLogs, LoaderControl.Carries;
    var logs := [ReadBounded(other.serial), ReadBounded(debugLog),
                 ReadBounded(other.stderr), ReadBounded(other.stdout)];
    assert logs[1].0 == debugLog;
    var m := ExpectedOutcome(scenario).marker;
    DebugLogHolds(debugLog, scenario);
    MarkerLine(m);
    LongEnough(m);
    CollectedContains(logs, Line(m));
  }

  lemma CombinedLogLacks(scenario: BootScenario, debugLog: string, other: Channels)
    requires |debugLog| <= MAX_OBSERVED_LOG_BYTES && LoaderControl.Carries(debugLog, ConsoleOf(scenario))
    requires Opposite(scenario).Some?
    ensures QuietChannels(scenario, debugLog, other)
       <==> !Contains(CombinedLog(debugLog, other), Line(Opposite(scenario).value))
  {
    hide Contains, Line, CollectLogs, LoaderControl.Carries, ForeignTextLacks;
    var logs := [ReadBounded(other.serial), ReadBounded(debugLog),
                 ReadBounded(other.stderr), ReadBounded(other.stdout)];
    assert logs[1].0 == debugLog;
    assert logs[0].0 == Observable(other.serial);
    assert logs[2].0 == Observable(other.stderr) && logs[3].0 == Observable(other.stdout);
    var opposite := Opposite(scenario).value;
    DebugLogLacks(debugLog, scenario);
    MarkerLine(opposite);
    LongEnough(opposite);
    CollectedContains(logs, Line(opposite));
  }

  lemma LongEnough(m: Marker)
    ensures |Line(m)| > 40
  {
    LineLength(m);
  }

  lemma ConsoleState(scenario: BootScenario)
    ensures StateAfterMarkers(ConsoleOf(scenario)) == Some(Terminal)
  {
    StatesOnTheWay();
    StateSnoc([StartMarker, ElfValidMarker, HandoffMarker], ExpectedOutcome(scenario).marker);
    assert ConsoleOf(scenario)
        == [StartMarker, ElfValidMarker, HandoffMarker] + [ExpectedOutcome(scenario).marker];
  }

  /** These kinds belong to one record each. */
  lemma KindFixesLine(line: string, m: Marker)
    requires MarkerKind(m) in {LoaderStart, ElfValid, HandoffReady, Ready, AbiVersion, ContractLength, Panic}
    requires KindOf(line) == Some(MarkerKind(m))
    ensures line == Line(m)
  {
    hide Line;
  }

  /** A clean end in a kernel record means that exactly the four records of that path were printed. */
  lemma PathFixed(lines: seq<string>, m: Marker)
    requires MarkerKind(m) in {Ready, AbiVersion, ContractLength, Panic}
    requires AllowedPrefix(lines) && lines != [] && KindOf(lines[|lines| - 1]) == Some(MarkerKind(m))
    ensures lines == LinesFor([StartMarker, ElfValidMarker, HandoffMarker, m])
  {
    hide KindOf, Line, AllowedPrefix;
    ReachedIsAllowed(lines);
    Reached(lines);
    KindFixesLine(lines[0], StartMarker);
    KindFixesLine(lines[1], ElfValidMarker);
    KindFixesLine(lines[2], HandoffMarker);
    KindFixesLine(lines[3], m);
  }

  /** The evidence that the outcome check asks for pins the kind of the last record. */
  lemma EvidencePinsKind(kind: RecordKind, scenario: BootScenario)
    requires var e := Evidence(NO_MARKERS, kind);
             match scenario
             case Normal => e.ready
             case IncompatibleVersion => e.rejected && e.terminalCode == Some("ABI_VERSION")
             case TruncatedContract => e.rejected && e.terminalCode == Some("CONTRACT_LENGTH")
             case DeliberatePanic => e.panic
    ensures kind == MarkerKind(ExpectedOutcome(scenario).marker)
  {
    assert |"ABI_VERSION"| == 11 && |"CONTRACT_LENGTH"| == 15 && |"CONTRACT_INVALID"| == 16;
  }

  /** What a report has to rest on to satisfy its scenario. */
  predicate GenuineRun(scenario: BootScenario, exitStatus: Option<int>, timedOut: bool, timeToReady: Option<nat>,
                       debugLog: string, other: Channels)
  {
    && !timedOut && exitStatus == Some(HostStatus(ExpectedOutcome(scenario).exit))
    && |debugLog| <= MAX_OBSERVED_LOG_BYTES && LoaderControl.Carries(debugLog, ConsoleOf(scenario))
    && (timeToReady.Some? <==> scenario.Normal?)
    && (Opposite(scenario).Some? ==> !Contains(CombinedLog(debugLog, other), Line(Opposite(scenario).value)))
  }

  lemma CleanPasses(scenario: BootScenario, exitStatus: Option<int>, timedOut: bool, timeToReady: Option<nat>,
                    debugLog: string, other: Channels)
    requires GenuineRun(scenario, exitStatus, timedOut, timeToReady, debugLog, other)
    ensures ScenarioOutcome(Report(scenario, exitStatus, timedOut, timeToReady, debugLog, other))
  {
    hide ParseStream, ProcessMarkers, Contains, Line, LoaderControl.Carries, CombinedLog;
    assert Observable(debugLog) == debugLog;
    ConsoleState(scenario);
    TraceOfMarkers(debugLog, ConsoleOf(scenario));
    CombinedLogHolds(scenario, debugLog, other);
  }

  lemma PassingIsGenuine(scenario: BootScenario, exitStatus: Option<int>, timedOut: bool, timeToReady: Option<nat>,
                         debugLog: string, other: Channels)
    requires ScenarioOutcome(Report(scenario, exitStatus, timedOut, timeToReady, debugLog, other))
    ensures GenuineRun(scenario, exitStatus, timedOut, timeToReady, debugLog, other)
  {
    hide ParseStream, Contains, Line, CombinedLog, RecordLines, EndsInRecord, AllowedPrefix, KindOf, Evidence;
    var (bytes, truncated) := ReadBounded(debugLog);
    CleanTraceExactly(bytes, truncated);
    assert bytes == debugLog;
    var lines := RecordLines(debugLog);
    var kind := KindOf(lines[|lines| - 1]).value;
    EvidencePinsKind(kind, scenario);
    PathFixed(lines, ExpectedOutcome(scenario).marker);
  }

  /**
    A report satisfies its scenario if and only if QEMU exited with the scenario's status in time,
    the debug log fits the limit and carries exactly the four records of the scenario's path, the
    ready time is there exactly for the normal boot, and the other rejection's text is nowhere.
  */
  lemma PassesExactly(scenario: BootScenario, exitStatus: Option<int>, timedOut: bool, timeToReady: Option<nat>,
                      debugLog: string, other: Channels)
    ensures ScenarioOutcome(Report(scenario, exitStatus, timedOut, timeToReady, debugLog, other))
       <==> GenuineRun(scenario, exitStatus, timedOut, timeToReady, debugLog, other)
  {
    hide ScenarioOutcome, Report, GenuineRun;
    if GenuineRun(scenario, exitStatus, timedOut, timeToReady, debugLog, other) {
      CleanPasses(scenario, exitStatus, timedOut, timeToReady, debugLog, other);
    }
    if ScenarioOutcome(Report(scenario, exitStatus, timedOut, timeToReady, debugLog, other)) {
      PassingIsGenuine(scenario, exitStatus, timedOut, timeToReady, debugLog, other);
    }
  }

  /**
    End to end: whenever the machine reaches the handoff, the records it printed and the
    exit status it produced satisfy the outcome its scenario requires, for every read
    chunking and every polling schedule, exactly when no foreign text on any channel shows
    the other rejection's record.
  */
  lemma ScenarioPasses(scenario: BootScenario, debugLog: string, other: Channels, timeToReady: Option<nat>)
    requires |debugLog| <= MAX_OBSERVED_LOG_BYTES
    requires LoaderControl.Carries(debugLog, ConsoleOf(scenario))
    requires timeToReady.Some? <==> Shows(debugLog, Line(ReadyMarker))
    ensures ScenarioOutcome(Report(scenario, Some(HostStatus(ExpectedOutcome(scenario).exit)), false, timeToReady,
                                   debugLog, other))
       <==> QuietChannels(scenario, debugLog, other)
  {
    hide ParseStream, ProcessMarkers, Shows, Contains, Line, LoaderControl.Carries, ForeignTextLacks, CombinedLog,
         Report, ScenarioOutcome;
    assert Observable(debugLog) == debugLog;
    ConsoleState(scenario);
    TraceOfMarkers(debugLog, ConsoleOf(scenario));
    ObserverAgreesWithParser(debugLog);
    if Opposite(scenario).Some? {
      CombinedLogLacks(scenario, debugLog, other);
    }
    PassesExactly(scenario, Some(HostStatus(ExpectedOutcome(scenario).exit)), false, timeToReady, debugLog, other);
  }

  /** The exact console output of a run satisfies the hypothesis on the debug log. */
  lemma OwnConsolePasses(scenario: BootScenario)
    ensures LoaderControl.Carries(ConsoleLog(ConsoleOf(scenario)), ConsoleOf(scenario))
    ensures Opposite(scenario).Some? ==>
              ForeignTextLacks(ConsoleLog(ConsoleOf(scenario)), Line(Opposite(scenario).value))
  {
    hide Line, LinesOf, Contains;
    ConsoleCarries(ConsoleOf(scenario));
    ConsoleLines(ConsoleOf(scenario));
    forall i | 0 <= i < 4
      ensures StartsWith(StripCr(LinesFor(ConsoleOf(scenario))[i]), TAG)
    {
      MarkerLine(ConsoleOf(scenario)[i]);
    }
    if Opposite(scenario).Some? {
      LongEnough(Opposite(scenario).value);
      ContainsShort("", Line(Opposite(scenario).value));
    }
  }

  lemma {:induction false} ConsoleLogSize(markers: seq<Marker>)
    ensures |ConsoleLog(markers)| <= 257 * |markers|
  {
    hide Line;
    if markers != [] {
      ConsoleLogSize(markers[..|markers| - 1]);
    }
  }

  /** Any polling schedule: some prefixes of the log in order of growth, the last of them complete. */
  method Polls(log: string) returns (snapshots: seq<string>, times: seq<nat>)
    ensures snapshots != [] && |times| == |snapshots| && AppendOnly(snapshots)
    ensures snapshots[|snapshots| - 1] == log
  {
    snapshots, times := [], [];
    var grown := 0;
    var polls: nat :| true;
    for i := 0 to polls
      invariant |times| == |snapshots| && AppendOnly(snapshots) && 0 <= grown <= |log|
      invariant forall k | 0 <= k < |snapshots| :: snapshots[k] <= log[..grown]
    {
      var next: nat :| grown <= next <= |log|;
      assert log[..grown] <= log[..next];
      grown := next;
      var time: nat :| true;
      snapshots, times := snapshots + [log[..grown]], times + [time];
    }
    var time: nat :| true;
    snapshots, times := snapshots + [log], times + [time];
  }

  /**
    Why nothing that can panic may stand between printing the validation record and storing
    the next sequence: the machine's panic there repeats sequence 2 and is not a loader failure.
  */
  lemma PanicInWindow()
    ensures var run := Extend(Extend(Extend(Extend(FIRST_RUN, Proceed), Proceed), Proceed), PanicHere);
            && ValidRun(run) && Last(run).pc == Halted(LoaderFailure)
            && Last(run).console == [StartMarker, ElfValidMarker, LoaderPanic2Marker]
            && Classify(LoaderFailure, ConsoleLog(Last(run).console)) == UnexpectedExit
  {
    hide Classify, ConsoleLog;
    var started := Extend(FIRST_RUN, Proceed);
    assert Last(started) == LoaderState(AtPrepare, 2, [StartMarker]);
    var prepared := Extend(started, Proceed);
    var printed := Extend(prepared, Proceed);
    assert Last(printed) == LoaderState(AtStoreThree, 2, [StartMarker, ElfValidMarker]);
    assert Last(Extend(printed, PanicHere)).console == [StartMarker, ElfValidMarker, LoaderPanic2Marker];
    RepeatedSequence();
  }

  lemma RepeatedSequence()
    ensures Classify(LoaderFailure, ConsoleLog([StartMarker, ElfValidMarker, LoaderPanic2Marker])) == UnexpectedExit
  {
    hide ParseStream, ProcessMarkers, LoaderControl.Carries, StateAfterMarkers, ConsoleLog;
    var console := [StartMarker, ElfValidMarker] + [LoaderPanic2Marker];
    ConsoleCarries(console);
    StatesOnTheWay();
    StateSnoc([StartMarker, ElfValidMarker], LoaderPanic2Marker);
    TraceOfMarkers(ConsoleLog(console), console);
    assert console == [StartMarker, ElfValidMarker, LoaderPanic2Marker];
  }
}
