/** The loader's `main` as a state machine in which a panic may strike at any point. */
module LoaderControl {
  import opened Machine
  import opened KernelLoader
  import opened KernelEntry
  import opened Records
  import opened RecordKinds
  import opened LogLines
  import opened ProtocolParser
  import opened Harness

  datatype Pc =
    | AtStart | AtPrepare | AtElfValid | AtStoreThree | AtEncode | AtHandoff | AtStoreFour | AtTransfer
    | Halted(exit: ExitCode)

  datatype LoaderState = LoaderState(pc: Pc, nextPanicSequence: u8, console: seq<Marker>)

  datatype Event = Proceed | Fail(error: LoaderError) | PanicHere | EnterKernel(outcome: KernelOutcome)

  const BOOT := LoaderState(AtStart, 2, [])

  function FailureMarker(e: LoaderError): Marker {
    match e
    case FileRead => FileReadMarker
    case ConfigInvalid => ConfigInvalidMarker
    case ElfInvalid => ElfInvalidMarker
    case Allocation => AllocationMarker
    case KernelAddress => KernelAddressMarker
    case ContractStorage => ContractStorageMarker
    case Contract => ContractBuildMarker
  }

  /** The panic handler reads the sequence that `main` last stored. */
  function PanicMarker(nextPanicSequence: u8): Marker {
    if nextPanicSequence == 2 then LoaderPanic2Marker
    else if nextPanicSequence == 3 then LoaderPanic3Marker
    else LoaderPanic4Marker
  }

  function Emit(s: LoaderState, m: Marker, pc: Pc): LoaderState {
    s.(pc := pc, console := s.console + [m])
  }

  /** Which events can happen where: `prepare_kernel` never fails with `Contract`, `encode_contract` only with it. */
  predicate Enabled(s: LoaderState, e: Event) {
    match e
    case Proceed => !s.pc.Halted? && s.pc != AtTransfer
    case Fail(error) => (s.pc == AtPrepare && error != Contract) || (s.pc == AtEncode && error == Contract)
    case PanicHere => !s.pc.Halted?
    case EnterKernel(outcome) =>
      s.pc == AtTransfer && outcome in {REJECT_LENGTH, REJECT_INVALID, REJECT_VERSION, READY, PANICKED}
  }

  function Step(s: LoaderState, e: Event): LoaderState
    requires Enabled(s, e)
  {
    match e
    case Fail(error) => Emit(s, FailureMarker(error), Halted(LoaderFailure))
    case PanicHere => Emit(s, PanicMarker(s.nextPanicSequence), Halted(LoaderFailure))
    case EnterKernel(outcome) => Emit(s, outcome.marker, Halted(outcome.exit))
    case Proceed =>
      match s.pc
      case AtStart => Emit(s, StartMarker, AtPrepare)
      case AtPrepare => s.(pc := AtElfValid)
      case AtElfValid => Emit(s, ElfValidMarker, AtStoreThree)
      case AtStoreThree => s.(pc := AtEncode, nextPanicSequence := 3)
      case AtEncode => s.(pc := AtHandoff)
      case AtHandoff => Emit(s, HandoffMarker, AtStoreFour)
      case AtStoreFour => s.(pc := AtTransfer, nextPanicSequence := 4)
      case _ => s
  }

  /** `states` is a run of the loader driven by `events`. */
  ghost predicate IsRun(states: seq<LoaderState>, events: seq<Event>) {
    && |states| == |events| + 1 && states[0] == BOOT
    && forall i | 0 <= i < |events| :: Enabled(states[i], events[i]) && states[i + 1] == Step(states[i], events[i])
  }

  datatype Run = Run(states: seq<LoaderState>, events: seq<Event>)

  ghost predicate ValidRun(run: Run) {
    IsRun(run.states, run.events)
  }

  function Last(run: Run): LoaderState
    requires run.states != []
  {
    run.states[|run.states| - 1]
  }

  function Extend(run: Run, e: Event): (r: Run)
    requires run.states != [] && Enabled(Last(run), e)
    ensures r.states != [] && Last(r) == Step(Last(run), e) && r.events == run.events + [e]
    ensures ValidRun(run) ==> ValidRun(r)
  {
    Run(run.states + [Step(Last(run), e)], run.events + [e])
  }

  const FIRST_RUN := Run([BOOT], [])

  lemma FirstRunValid()
    ensures ValidRun(FIRST_RUN)
  {
  }

  /** The stretches of a boot between the steps that can fail. */
  function ToPrepare(): (r: Run)
    ensures ValidRun(r) && r.states != [] && Last(r).pc == AtPrepare
  {
    FirstRunValid();
    Extend(FIRST_RUN, Proceed)
  }

  function ToEncode(run: Run): (r: Run)
    requires ValidRun(run) && run.states != [] && Last(run).pc == AtPrepare
    ensures ValidRun(r) && r.states != [] && Last(r).pc == AtEncode
  {
    Extend(Extend(Extend(run, Proceed), Proceed), Proceed)
  }

  function ToTransfer(run: Run): (r: Run)
    requires ValidRun(run) && run.states != [] && Last(run).pc == AtEncode
    ensures ValidRun(r) && r.states != [] && Last(r).pc == AtTransfer
  {
    Extend(Extend(Extend(run, Proceed), Proceed), Proceed)
  }

  /** What has been printed and stored by the time each point is reached. */
  predicate Progress(s: LoaderState) {
    match s.pc
    case AtStart => s.nextPanicSequence == 2 && s.console == []
    case AtPrepare => s.nextPanicSequence == 2 && s.console == [StartMarker]
    case AtElfValid => s.nextPanicSequence == 2 && s.console == [StartMarker]
    case AtStoreThree => s.nextPanicSequence == 2 && s.console == [StartMarker, ElfValidMarker]
    case AtEncode => s.nextPanicSequence == 3 && s.console == [StartMarker, ElfValidMarker]
    case AtHandoff => s.nextPanicSequence == 3 && s.console == [StartMarker, ElfValidMarker]
    case AtStoreFour => s.nextPanicSequence == 3 && s.console == [StartMarker, ElfValidMarker, HandoffMarker]
    case AtTransfer => s.nextPanicSequence == 4 && s.console == [StartMarker, ElfValidMarker, HandoffMarker]
    case Halted(_) => true
  }

  /** Every state of every run has made exactly the progress its program point says. */
  lemma {:induction false} RunProgress(states: seq<LoaderState>, events: seq<Event>, n: nat)
    requires IsRun(states, events) && n < |states|
    ensures Progress(states[n])
  {
    if n > 0 {
      RunProgress(states, events, n - 1);
      assert Enabled(states[n - 1], events[n - 1]) && states[n] == Step(states[n - 1], events[n - 1]);
    }
  }

  // ---------------------------------------------------------------------------------
  // What the harness makes of the printed records.
  // ---------------------------------------------------------------------------------

  function LinesFor(markers: seq<Marker>): (r: seq<string>)
    ensures |r| == |markers|
  {
    seq(|markers|, i requires 0 <= i < |markers| => Line(markers[i]))
  }

  function StateAfterMarkers(markers: seq<Marker>): Option<TraceState> {
    if markers == [] then Some(Start)
    else
      var state :- StateAfterMarkers(markers[..|markers| - 1]);
      Transition(state, MarkerKind(markers[|markers| - 1]))
  }

  lemma {:induction false} MarkersDriveParser(markers: seq<Marker>)
    ensures StateAfter(LinesFor(markers)) == StateAfterMarkers(markers)
    ensures markers != [] ==>
              MarkersAfter(LinesFor(markers)) == Evidence(NO_MARKERS, MarkerKind(markers[|markers| - 1]))
  {
    hide KindOf, Line;
    if markers != [] {
      var n := |markers| - 1;
      MarkersDriveParser(markers[..n]);
      assert LinesFor(markers)[..n] == LinesFor(markers[..n]);
      KindOfLine(markers[n]);
    }
  }

  /** A debug log in which the records printed are exactly `markers`, among any foreign lines. */
  predicate Carries(log: string, markers: seq<Marker>) {
    RecordLines(log) == LinesFor(markers) && !EndsInRecord(log)
  }

  /** The parser on records instead of lines: every record passes the line checks. */
  function ProcessMarkers(markers: seq<Marker>): Parser {
    if markers == [] then NewParser(false)
    else
      var p := ProcessMarkers(markers[..|markers| - 1]);
      var kind := MarkerKind(markers[|markers| - 1]);
      var sequence := SequenceOf(kind);
      if p.lastSequence.Some? && sequence <= p.lastSequence.value then
        p.(trace := Reject(p.trace, SequenceOutOfOrder))
      else
        ProcessRecord(Some(kind), p.(lastSequence := Some(sequence)))
  }

  lemma {:induction false} MarkersProcessed(markers: seq<Marker>)
    ensures ProcessTagged(LinesFor(markers), false) == ProcessMarkers(markers)
  {
    hide KindOf, Line, ValidRecordGrammar, RecordSequence, MarkerKind, SequenceOf;
    if markers != [] {
      var n := |markers| - 1;
      MarkersProcessed(markers[..n]);
      assert LinesFor(markers)[..n] == LinesFor(markers[..n]);
      KindOfLine(markers[n]);
      KnownLine(Line(markers[n]));
    }
  }

  /**
    The trace of a log is decided by the markers it carries: it is the one of running the
    state machine on them, clean exactly when every step is allowed.
  */
  lemma TraceOfMarkers(log: string, markers: seq<Marker>)
    requires Carries(log, markers)
    ensures ParseStream(log, false) == ProcessMarkers(markers).trace
    ensures var trace := ParseStream(log, false);
            match StateAfterMarkers(markers)
            case Some(_) =>
              markers != [] ==> trace == ProtocolTrace(Evidence(NO_MARKERS, MarkerKind(markers[|markers| - 1])), None)
            case None => trace.violation.Some?
  {
    hide AllowedPrefix, StateAfter, MarkersAfter, LinesOf, ProcessLines, ProcessTagged, ProcessMarkers, Tagged;
    CleanTraceExactly(log, false);
    ReachedIsAllowed(RecordLines(log));
    MarkersDriveParser(markers);
    OnlyTaggedMatter(LinesOf(log).complete, false);
    MarkersProcessed(markers);
  }

  function Classify(exit: ExitCode, log: string): BootClassification {
    ClassifyBoot(false, Some(HostStatus(exit)), ParseStream(log, false))
  }

  /** The steps that run code which can panic; the others only write ports or store a byte. */
  predicate RunsFallibleCode(pc: Pc) {
    pc in {AtPrepare, AtEncode, AtTransfer}
  }

  /** The runs the code can have: every panic strikes in fallible code. */
  ghost predicate CodeRun(states: seq<LoaderState>, events: seq<Event>) {
    && IsRun(states, events)
    && forall i | 0 <= i < |events| && events[i].PanicHere? :: RunsFallibleCode(states[i].pc)
  }

  /** Where the machine, but not the code, could panic with a sequence that lags behind the records. */
  predicate PanicWindow(pc: Pc) {
    pc in {AtStart, AtStoreThree, AtStoreFour}
  }

  lemma StatesOnTheWay()
    ensures StateAfterMarkers([StartMarker]) == Some(LoaderStarted)
    ensures StateAfterMarkers([StartMarker, ElfValidMarker]) == Some(ElfValidated)
    ensures StateAfterMarkers([StartMarker, ElfValidMarker, HandoffMarker]) == Some(HandedOff)
  {
    var all := [StartMarker, ElfValidMarker, HandoffMarker];
    assert all[..2] == [StartMarker, ElfValidMarker];
    assert all[..2][..1] == [StartMarker];
    assert all[..2][..1][..0] == [];
  }

  lemma StateSnoc(markers: seq<Marker>, m: Marker)
    ensures StateAfterMarkers(markers + [m])
         == match StateAfterMarkers(markers)
            case None => None
            case Some(s) => Transition(s, MarkerKind(m))
  {
    assert (markers + [m])[..|markers|] == markers;
  }

  /**
    Every run of the machine that the loader itself ends is classified as a loader failure,
    except exactly for a panic before the first record or between printing a record and
    storing the next sequence: the places where no code that can panic may be added.
  */
  lemma LoaderEndsClassified(states: seq<LoaderState>, events: seq<Event>, log: string)
    requires IsRun(states, events) && events != []
    requires var e := events[|events| - 1]; e.Fail? || e.PanicHere?
    requires Carries(log, states[|events|].console)
    ensures var n := |events| - 1;
            && states[|events|].pc == Halted(LoaderFailure)
            && (Classify(LoaderFailure, log) == LoaderFailureBoot
                <==> !(events[n].PanicHere? && PanicWindow(states[n].pc)))
  {
    hide ParseStream, Carries, StateAfterMarkers, ProcessMarkers;
    var n := |events| - 1;
    RunProgress(states, events, n);
    var s := states[n];
    assert Enabled(s, events[n]) && states[n + 1] == Step(s, events[n]);
    var m := if events[n].Fail? then FailureMarker(events[n].error) else PanicMarker(s.nextPanicSequence);
    StatesOnTheWay();
    EmptyState();
    StateSnoc(s.console, m);
    TraceOfMarkers(log, s.console + [m]);
  }

  /** Every run of the code that the loader ends, by any error or any panic, is classified as a loader failure. */
  lemma LoaderAlwaysClassified(states: seq<LoaderState>, events: seq<Event>, log: string)
    requires CodeRun(states, events) && events != []
    requires var e := events[|events| - 1]; e.Fail? || e.PanicHere?
    requires Carries(log, states[|events|].console)
    ensures states[|events|].pc == Halted(LoaderFailure)
    ensures Classify(LoaderFailure, log) == LoaderFailureBoot
  {
    hide Classify, Carries;
    LoaderEndsClassified(states, events, log);
  }

  lemma EmptyState()
    ensures StateAfterMarkers([]) == Some(Start)
  {
  }

  /** Every run that enters the kernel is classified by the kernel's own outcome. */
  lemma KernelEndsClassified(states: seq<LoaderState>, events: seq<Event>, log: string)
    requires IsRun(states, events) && events != [] && events[|events| - 1].EnterKernel?
    requires Carries(log, states[|events|].console)
    ensures var outcome := events[|events| - 1].outcome;
            && states[|events|].console == [StartMarker, ElfValidMarker, HandoffMarker, outcome.marker]
            && states[|events|].pc == Halted(outcome.exit)
            && Classify(outcome.exit, log)
               == if outcome == READY then ReadyBoot else if outcome == PANICKED then PanicBoot else RejectedBoot
  {
    hide ParseStream, Carries, StateAfterMarkers, ProcessMarkers;
    var n := |events| - 1;
    RunProgress(states, events, n);
    var s := states[n];
    assert Enabled(s, events[n]) && states[n + 1] == Step(s, events[n]);
    StatesOnTheWay();
    StateSnoc(s.console, events[n].outcome.marker);
    TraceOfMarkers(log, s.console + [events[n].outcome.marker]);
  }
}
