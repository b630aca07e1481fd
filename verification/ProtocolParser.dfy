/** The batch parser of the debug-console stream. */
module ProtocolParser {
  import opened Machine
  import opened Records
  import opened RecordKinds
  import opened LogLines

  datatype Violation =
    | LogTruncated | TruncatedRecord | OverlongRecord | MalformedRecord
    | MalformedSequence | SequenceOutOfOrder | UnknownRecord | RecordOutOfOrder

  datatype MarkerEvidence = MarkerEvidence(ready: bool, rejected: bool, panic: bool, terminalCode: Option<string>)

  datatype ProtocolTrace = ProtocolTrace(markers: MarkerEvidence, violation: Option<Violation>)

  datatype TraceState = Start | LoaderStarted | ElfValidated | HandedOff | Terminal

  datatype Parser = Parser(state: TraceState, lastSequence: Option<u16>, trace: ProtocolTrace)

  const NO_MARKERS := MarkerEvidence(false, false, false, None)

  function NewTrace(logTruncated: bool): ProtocolTrace {
    ProtocolTrace(NO_MARKERS, if logTruncated then Some(LogTruncated) else None)
  }

  /** Only the first violation is kept. */
  function Reject(trace: ProtocolTrace, reason: Violation): ProtocolTrace {
    if trace.violation.None? then trace.(violation := Some(reason)) else trace
  }

  function Transition(state: TraceState, kind: RecordKind): Option<TraceState> {
    match (state, kind)
    case (Start, LoaderStart) => Some(LoaderStarted)
    case (LoaderStarted, ElfValid) => Some(ElfValidated)
    case (LoaderStarted, LoaderFailure2) => Some(Terminal)
    case (ElfValidated, LoaderFailure3) => Some(Terminal)
    case (HandedOff, LoaderFailure4) => Some(Terminal)
    case (ElfValidated, HandoffReady) => Some(HandedOff)
    case (HandedOff, Ready) => Some(Terminal)
    case (HandedOff, AbiVersion) => Some(Terminal)
    case (HandedOff, ContractLength) => Some(Terminal)
    case (HandedOff, ContractInvalid) => Some(Terminal)
    case (HandedOff, Panic) => Some(Terminal)
    case _ => None
  }

  function Evidence(markers: MarkerEvidence, kind: RecordKind): MarkerEvidence {
    match kind
    case Ready => markers.(ready := true, terminalCode := Some("KERNEL_READY"))
    case AbiVersion => markers.(rejected := true, terminalCode := Some("ABI_VERSION"))
    case ContractLength => markers.(rejected := true, terminalCode := Some("CONTRACT_LENGTH"))
    case ContractInvalid => markers.(rejected := true, terminalCode := Some("CONTRACT_INVALID"))
    case Panic => markers.(panic := true, terminalCode := Some("KERNEL_PANIC"))
    case _ => markers
  }

  function ProcessLine(line: string, p: Parser): Parser {
    if !StartsWith(line, TAG) then p
    else if |line| > MAX_DIAGNOSTIC_RECORD_BYTES then p.(trace := Reject(p.trace, OverlongRecord))
    else if !ValidRecordGrammar(line) then p.(trace := Reject(p.trace, MalformedRecord))
    else match RecordSequence(line)
      case None => p.(trace := Reject(p.trace, MalformedSequence))
      case Some(sequence) =>
        if p.lastSequence.Some? && sequence <= p.lastSequence.value then
          p.(trace := Reject(p.trace, SequenceOutOfOrder))
        else
          ProcessRecord(KindOf(line), p.(lastSequence := Some(sequence)))
  }

  function ProcessRecord(kind: Option<RecordKind>, p: Parser): Parser {
    match kind
    case None => p.(trace := Reject(p.trace, UnknownRecord))
    case Some(k) =>
      match Transition(p.state, k)
      case Some(next) => p.(state := next, trace := p.trace.(markers := Evidence(p.trace.markers, k)))
      case None => p.(trace := Reject(p.trace, RecordOutOfOrder))
  }

  function NewParser(logTruncated: bool): Parser {
    Parser(Start, None, NewTrace(logTruncated))
  }

  function ProcessLines(lines: seq<string>, logTruncated: bool): Parser {
    if lines == [] then NewParser(logTruncated)
    else ProcessLine(StripCr(lines[|lines| - 1]), ProcessLines(lines[..|lines| - 1], logTruncated))
  }

  function Finish(partial: string, trace: ProtocolTrace): ProtocolTrace {
    if partial != "" && StartsWith(partial, TAG) then Reject(trace, TruncatedRecord) else trace
  }

  function ParseStream(log: string, logTruncated: bool): ProtocolTrace {
    var lines := LinesOf(log);
    Finish(lines.partial, ProcessLines(lines.complete, logTruncated).trace)
  }

  // ---------------------------------------------------------------------------------
  // The loops and the mutable state of the source.
  // ---------------------------------------------------------------------------------

  class LineProcessor {
    var state: TraceState
    var lastSequence: Option<u16>
    var trace: ProtocolTrace

    function Value(): Parser
      reads this
    {
      Parser(state, lastSequence, trace)
    }

    constructor (logTruncated: bool)
      ensures Value() == NewParser(logTruncated)
    {
      state := Start;
      lastSequence := None;
      trace := NewTrace(logTruncated);
    }

    method Process(line: string)
      modifies this
      ensures Value() == ProcessLine(line, old(Value()))
    {
      hide ValidRecordGrammar, RecordSequence, KindOf;
      if !StartsWith(line, TAG) {
        return;
      }
      if |line| > MAX_DIAGNOSTIC_RECORD_BYTES {
        trace := Reject(trace, OverlongRecord);
        return;
      }
      if !ValidRecordGrammar(line) {
        trace := Reject(trace, MalformedRecord);
        return;
      }
      var sequence := RecordSequence(line);
      if sequence.None? {
        trace := Reject(trace, MalformedSequence);
        return;
      }
      if lastSequence.Some? && sequence.value <= lastSequence.value {
        trace := Reject(trace, SequenceOutOfOrder);
        return;
      }
      lastSequence := sequence;
      var kind := KindOf(line);
      if kind.None? {
        trace := Reject(trace, UnknownRecord);
        return;
      }
      var next := Transition(state, kind.value);
      if next.Some? {
        trace := trace.(markers := Evidence(trace.markers, kind.value));
        state := next.value;
      } else {
        trace := Reject(trace, RecordOutOfOrder);
      }
    }
  }

  /** `parse_protocol_stream`: the index scan sees exactly the lines of the log. */
  method ParseProtocolStream(bytes: string, logTruncated: bool) returns (trace: ProtocolTrace)
    ensures trace == ParseStream(bytes, logTruncated)
  {
    hide ProcessLine;
    var processor := new LineProcessor(logTruncated);
    var lineStart := 0;
    var index := 0;
    while index < |bytes|
      invariant 0 <= lineStart <= index <= |bytes|
      invariant LinesOf(bytes[..index]).partial == bytes[lineStart..index]
      invariant processor.Value() == ProcessLines(LinesOf(bytes[..index]).complete, logTruncated)
    {
      LinesOfPrefix(bytes, index);
      if bytes[index] == '\n' {
        var line := StripCr(bytes[lineStart..index]);
        processor.Process(line);
        ghost var complete := LinesOf(bytes[..index + 1]).complete;
        assert complete[..|complete| - 1] == LinesOf(bytes[..index]).complete;
        lineStart := index + 1;
      }
      index := index + 1;
    }
    assert bytes[..index] == bytes;
    trace := processor.trace;
    if lineStart < |bytes| {
      var partial := bytes[lineStart..];
      if StartsWith(partial, TAG) {
        trace := Reject(trace, TruncatedRecord);
      }
    }
  }

  // ---------------------------------------------------------------------------------
  // What a clean trace means.
  // ---------------------------------------------------------------------------------

  /** The CR-stripped complete lines that begin with the tag. */
  function Tagged(lines: seq<string>): seq<string> {
    if lines == [] then []
    else
      var rest := Tagged(lines[..|lines| - 1]);
      var line := StripCr(lines[|lines| - 1]);
      if StartsWith(line, TAG) then rest + [line] else rest
  }

  function ProcessTagged(lines: seq<string>, logTruncated: bool): Parser {
    if lines == [] then NewParser(logTruncated)
    else ProcessLine(lines[|lines| - 1], ProcessTagged(lines[..|lines| - 1], logTruncated))
  }

  lemma {:induction false} OnlyTaggedMatter(lines: seq<string>, logTruncated: bool)
    ensures ProcessLines(lines, logTruncated) == ProcessTagged(Tagged(lines), logTruncated)
  {
    if lines != [] {
      hide ProcessLine;
      OnlyTaggedMatter(lines[..|lines| - 1], logTruncated);
      var rest := Tagged(lines[..|lines| - 1]);
      var line := StripCr(lines[|lines| - 1]);
      if StartsWith(line, TAG) {
        assert (rest + [line])[..|rest|] == rest;
      } else {
        UntaggedIgnored(line, ProcessLines(lines[..|lines| - 1], logTruncated));
      }
    }
  }

  lemma UntaggedIgnored(line: string, p: Parser)
    requires !StartsWith(line, TAG)
    ensures ProcessLine(line, p) == p
  {
  }

  function RecordLines(log: string): seq<string> {
    Tagged(LinesOf(log).complete)
  }

  predicate EndsInRecord(log: string) {
    StartsWith(LinesOf(log).partial, TAG)
  }

  /**
    The trace depends only on the tagged lines, on an unfinished tagged line and on
    truncation.
  */
  lemma TraceDependsOnRecordsOnly(log: string, other: string, logTruncated: bool)
    requires RecordLines(log) == RecordLines(other)
    requires EndsInRecord(log) <==> EndsInRecord(other)
    ensures ParseStream(log, logTruncated) == ParseStream(other, logTruncated)
  {
    OnlyTaggedMatter(LinesOf(log).complete, logTruncated);
    OnlyTaggedMatter(LinesOf(other).complete, logTruncated);
  }

  /** A complete run of the loader and kernel, as record lines. */
  predicate CompletePath(path: seq<string>) {
    || (|path| == 2 && KindOf(path[0]) == Some(LoaderStart) && KindOf(path[1]) == Some(LoaderFailure2))
    || (|path| == 3 && KindOf(path[0]) == Some(LoaderStart) && KindOf(path[1]) == Some(ElfValid)
        && KindOf(path[2]) == Some(LoaderFailure3))
    || (|path| == 4 && KindOf(path[0]) == Some(LoaderStart) && KindOf(path[1]) == Some(ElfValid)
        && KindOf(path[2]) == Some(HandoffReady)
        && KindOf(path[3]) in {Some(Ready), Some(AbiVersion), Some(ContractLength), Some(ContractInvalid),
                               Some(Panic), Some(LoaderFailure4)})
  }

  ghost predicate AllowedPrefix(lines: seq<string>) {
    exists path :: CompletePath(path) && lines <= path
  }

  /** Where the state machine is after `lines`, if every step was allowed. */
  function StateAfter(lines: seq<string>): Option<TraceState> {
    if lines == [] then Some(Start)
    else
      var state :- StateAfter(lines[..|lines| - 1]);
      var kind :- KindOf(lines[|lines| - 1]);
      Transition(state, kind)
  }

  function MarkersAfter(lines: seq<string>): MarkerEvidence {
    if lines == [] then NO_MARKERS
    else match KindOf(lines[|lines| - 1])
      case Some(k) => Evidence(NO_MARKERS, k)
      case None => NO_MARKERS
  }

  /** The sequence numbers that can have been seen on the way to a state. */
  predicate SequenceFits(state: TraceState, last: Option<u16>) {
    match state
    case Start => last == None
    case LoaderStarted => last == Some(1)
    case ElfValidated => last == Some(2)
    case HandedOff => last == Some(3)
    case Terminal => last.Some?
  }

  lemma ViolationStays(line: string, p: Parser)
    requires p.trace.violation.Some?
    ensures ProcessLine(line, p).trace.violation == p.trace.violation
  {
    hide ValidRecordGrammar, RecordSequence, KindOf;
  }

  /** A tagged line is accepted exactly when it is a known record that the state allows next. */
  lemma CleanStep(line: string, p: Parser)
    requires StartsWith(line, TAG) && p.trace.violation.None? && SequenceFits(p.state, p.lastSequence)
    ensures var q := ProcessLine(line, p);
            if KindOf(line).Some? && Transition(p.state, KindOf(line).value).Some?
            then && q.state == Transition(p.state, KindOf(line).value).value
                 && q.trace == ProtocolTrace(Evidence(p.trace.markers, KindOf(line).value), None)
                 && SequenceFits(q.state, q.lastSequence)
            else q.trace.violation.Some?
  {
    hide ValidRecordGrammar, RecordSequence, KindOf;
    if KindOf(line).Some? {
      KnownLine(line);
    }
  }

  predicate AllTagged(lines: seq<string>) {
    forall i | 0 <= i < |lines| :: StartsWith(lines[i], TAG)
  }

  lemma {:induction false} CleanExactly(lines: seq<string>)
    requires AllTagged(lines)
    ensures var p := ProcessTagged(lines, false);
            match StateAfter(lines)
            case Some(s) => && p.state == s && SequenceFits(s, p.lastSequence)
                            && p.trace == ProtocolTrace(MarkersAfter(lines), None)
            case None => p.trace.violation.Some?
  {
    hide ProcessLine, KindOf;
    if lines != [] {
      var n := |lines| - 1;
      CleanExactly(lines[..n]);
      var p := ProcessTagged(lines[..n], false);
      if StateAfter(lines[..n]).Some? {
        CleanStep(lines[n], p);
        if p.state != Terminal {
          QuietBeforeTerminal(lines[..n]);
        }
      } else {
        ViolationStays(lines[n], p);
      }
    }
  }

  lemma QuietBeforeTerminal(lines: seq<string>)
    requires StateAfter(lines).Some? && StateAfter(lines).value != Terminal
    ensures MarkersAfter(lines) == NO_MARKERS
  {
    hide KindOf;
  }

  lemma {:induction false} PrefixReaches(lines: seq<string>, n: nat)
    requires n <= |lines| && StateAfter(lines).Some?
    ensures StateAfter(lines[..n]).Some?
  {
    hide KindOf;
    if n < |lines| {
      PrefixReaches(lines[..|lines| - 1], n);
      assert lines[..|lines| - 1][..n] == lines[..n];
    } else {
      assert lines[..n] == lines;
    }
  }

  lemma CompletePathReaches(path: seq<string>)
    requires CompletePath(path)
    ensures StateAfter(path) == Some(Terminal)
  {
    hide KindOf;
    var n := |path|;
    assert path[..0] == [];
    assert path[..1][..0] == [] && path[..1][0] == path[0];
    assert path[..2][..1] == path[..1] && path[..2][1] == path[1];
    assert StateAfter(path[..1]) == Some(LoaderStarted);
    if n == 2 {
      assert path[..2] == path;
    } else {
      assert StateAfter(path[..2]) == Some(ElfValidated);
      assert path[..3][..2] == path[..2] && path[..3][2] == path[2];
      if n == 3 {
        assert path[..3] == path;
      } else {
        assert StateAfter(path[..3]) == Some(HandedOff);
        assert path[..4] == path;
      }
    }
  }

  /** A reached state fixes the lines that led there. */
  lemma {:induction false} Reached(lines: seq<string>)
    requires StateAfter(lines).Some?
    ensures match StateAfter(lines).value
            case Start => lines == []
            case LoaderStarted => |lines| == 1 && KindOf(lines[0]) == Some(LoaderStart)
            case ElfValidated =>
              |lines| == 2 && KindOf(lines[0]) == Some(LoaderStart) && KindOf(lines[1]) == Some(ElfValid)
            case HandedOff =>
              && |lines| == 3 && KindOf(lines[0]) == Some(LoaderStart) && KindOf(lines[1]) == Some(ElfValid)
              && KindOf(lines[2]) == Some(HandoffReady)
            case Terminal => CompletePath(lines)
  {
    hide KindOf;
    if lines != [] {
      var n := |lines| - 1;
      Reached(lines[..n]);
    }
  }

  lemma ReachedIsAllowed(lines: seq<string>)
    ensures StateAfter(lines).Some? <==> AllowedPrefix(lines)
  {
    hide KindOf, CompletePath;
    if AllowedPrefix(lines) {
      var path :| CompletePath(path) && lines <= path;
      CompletePathReaches(path);
      PrefixReaches(path, |lines|);
      assert path[..|lines|] == lines;
    }
    if StateAfter(lines).Some? {
      var path := Completion(lines);
    }
  }

  lemma Completion(lines: seq<string>) returns (path: seq<string>)
    requires StateAfter(lines).Some?
    ensures CompletePath(path) && lines <= path
  {
    hide KindOf;
    Reached(lines);
    KindOfLine(StartMarker);
    KindOfLine(ElfValidMarker);
    KindOfLine(HandoffMarker);
    KindOfLine(FileReadMarker);
    KindOfLine(ReadyMarker);
    KindOfLine(ContractBuildMarker);
    match StateAfter(lines).value
    case Start => path := [Line(StartMarker), Line(FileReadMarker)];
    case LoaderStarted => path := lines + [Line(FileReadMarker)];
    case ElfValidated => path := lines + [Line(ContractBuildMarker)];
    case HandedOff => path := lines + [Line(ReadyMarker)];
    case Terminal => path := lines;
  }

  lemma {:induction false} TaggedAllTagged(lines: seq<string>)
    ensures AllTagged(Tagged(lines))
  {
    if lines != [] {
      TaggedAllTagged(lines[..|lines| - 1]);
    }
  }

  lemma {:induction false} TruncationStays(lines: seq<string>)
    ensures ProcessLines(lines, true).trace.violation == Some(LogTruncated)
  {
    hide ProcessLine;
    if lines != [] {
      TruncationStays(lines[..|lines| - 1]);
      ViolationStays(StripCr(lines[|lines| - 1]), ProcessLines(lines[..|lines| - 1], true));
    }
  }

  /**
    On every byte stream: no violation exactly when the log is not truncated, its tagged
    complete lines form a prefix of an allowed path, and it does not end inside a record.
  */
  lemma CleanTraceExactly(log: string, logTruncated: bool)
    ensures ParseStream(log, logTruncated).violation.None?
       <==> !logTruncated && AllowedPrefix(RecordLines(log)) && !EndsInRecord(log)
    ensures ParseStream(log, logTruncated).violation.None? ==>
              ParseStream(log, logTruncated).markers == MarkersAfter(RecordLines(log))
  {
    hide AllowedPrefix, ProcessTagged, StateAfter, MarkersAfter;
    var lines := LinesOf(log).complete;
    if logTruncated {
      TruncationStays(lines);
    } else {
      OnlyTaggedMatter(lines, false);
      TaggedAllTagged(lines);
      CleanExactly(Tagged(lines));
      ReachedIsAllowed(Tagged(lines));
    }
  }

  function Count(m: MarkerEvidence): nat {
    (if m.ready then 1 else 0) + (if m.rejected then 1 else 0) + (if m.panic then 1 else 0)
  }

  lemma {:induction false} AtMostOneMarkerSoFar(lines: seq<string>, logTruncated: bool)
    ensures var p := ProcessLines(lines, logTruncated);
            Count(p.trace.markers) <= 1 && (p.state != Terminal ==> Count(p.trace.markers) == 0)
  {
    hide ValidRecordGrammar, RecordSequence, KindOf;
    if lines != [] {
      AtMostOneMarkerSoFar(lines[..|lines| - 1], logTruncated);
    }
  }

  /** At most one of ready, rejected and panic is ever set, on clean and on violating streams. */
  lemma AtMostOneMarker(log: string, logTruncated: bool)
    ensures Count(ParseStream(log, logTruncated).markers) <= 1
  {
    AtMostOneMarkerSoFar(LinesOf(log).complete, logTruncated);
  }
}
