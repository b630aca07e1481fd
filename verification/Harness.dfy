/** Classifying a boot from its log and exit status, and the outcome each scenario requires. */
module Harness {
  import opened Machine
  import opened Records
  import opened LogLines
  import opened ProtocolParser
  import opened MemoryMap

  const READY_EXIT_STATUS: int := 33
  const REJECT_EXIT_STATUS: int := 65
  const PANIC_EXIT_STATUS: int := 67

  datatype BootClassification =
    ReadyBoot | RejectedBoot | PanicBoot | TimeoutBoot | UnexpectedExit | MissingMarker | LoaderFailureBoot

  function ClassifyBoot(timedOut: bool, exitStatus: Option<int>, trace: ProtocolTrace): BootClassification {
    if timedOut then TimeoutBoot
    else if trace.violation.Some? then UnexpectedExit
    else
      match (trace.markers.ready, trace.markers.rejected, trace.markers.panic, exitStatus)
      case (true, false, false, Some(33)) => ReadyBoot
      case (false, true, false, Some(65)) => RejectedBoot
      case (false, false, true, Some(67)) => PanicBoot
      case (false, false, false, Some(69)) => LoaderFailureBoot
      case (false, false, false, Some(33)) => MissingMarker
      case (false, false, false, Some(65)) => MissingMarker
      case (false, false, false, Some(67)) => MissingMarker
      case _ => UnexpectedExit
  }

  /** The fields of a boot report that the outcome check reads. */
  datatype BootRun = BootRun(
    scenario: BootScenario, classification: BootClassification, exitStatus: Option<int>,
    timeToReadyMarker: Option<nat>, sawReady: bool, sawReject: bool, sawPanic: bool,
    terminalCode: Option<string>, protocolError: Option<Violation>, log: string)

  predicate Contains(log: string, needle: string) {
    exists i | 0 <= i <= |log| - |needle| :: OccursAt(log, needle, i)
  }

  predicate OccursAt(log: string, needle: string, i: int)
    requires 0 <= i <= |log| - |needle|
  {
    log[i..i + |needle|] == needle
  }

  predicate ScenarioOutcome(run: BootRun) {
    match run.scenario
    case Normal =>
      && run.classification == ReadyBoot
      && run.exitStatus == Some(READY_EXIT_STATUS)
      && run.sawReady && !run.sawReject && !run.sawPanic
      && run.timeToReadyMarker.Some?
      && run.terminalCode == Some("KERNEL_READY")
      && run.protocolError.None?
    case IncompatibleVersion =>
      && run.classification == RejectedBoot
      && run.exitStatus == Some(REJECT_EXIT_STATUS)
      && Contains(run.log, Line(AbiVersionMarker))
      && !Contains(run.log, Line(ContractLengthMarker))
      && !run.sawReady && !run.sawPanic
      && run.timeToReadyMarker.None?
      && run.terminalCode == Some("ABI_VERSION")
      && run.protocolError.None?
    case TruncatedContract =>
      && run.classification == RejectedBoot
      && run.exitStatus == Some(REJECT_EXIT_STATUS)
      && Contains(run.log, Line(ContractLengthMarker))
      && !Contains(run.log, Line(AbiVersionMarker))
      && !run.sawReady && !run.sawPanic
      && run.timeToReadyMarker.None?
      && run.terminalCode == Some("CONTRACT_LENGTH")
      && run.protocolError.None?
    case DeliberatePanic =>
      && run.classification == PanicBoot
      && run.exitStatus == Some(PANIC_EXIT_STATUS)
      && !run.sawReady && !run.sawReject
      && run.timeToReadyMarker.None?
      && run.terminalCode == Some("KERNEL_PANIC")
      && run.protocolError.None?
  }

  // ---------------------------------------------------------------------------------
  // The combined log.
  // ---------------------------------------------------------------------------------

  function Notice(): string {
    "[host: log truncated at 4194304 bytes]" + "\n"
  }

  predicate EndsWithNewline(s: string) {
    s != "" && s[|s| - 1] == '\n'
  }

  /** `collect_logs` over bounded reads `(text, truncated)`; the text is taken as already decoded. */
  function CollectLogs(logs: seq<(string, bool)>): string {
    if logs == [] then ""
    else
      var (text, truncated) := logs[|logs| - 1];
      AddLog(CollectLogs(logs[..|logs| - 1]), text, truncated)
  }

  function AddLog(front: string, text: string, truncated: bool): string {
    var combined := front + text;
    var closed := if combined != "" && !EndsWithNewline(combined) then combined + "\n" else combined;
    if truncated then closed + Notice() else closed
  }

  lemma OccurrenceShifts(a: string, b: string, needle: string, i: int)
    requires 0 <= i <= |b| - |needle|
    ensures OccursAt(a + b, needle, |a| + i) <==> OccursAt(b, needle, i)
  {
    assert (a + b)[|a| + i..|a| + i + |needle|] == b[i..i + |needle|];
  }

  lemma OccurrenceInFront(a: string, b: string, needle: string, i: int)
    requires 0 <= i <= |a| - |needle|
    ensures OccursAt(a + b, needle, i) <==> OccursAt(a, needle, i)
  {
    assert (a + b)[i..i + |needle|] == a[i..i + |needle|];
  }

  /** A newline-free needle is found across a line boundary exactly when one side holds it. */
  lemma ContainsAcross(a: string, b: string, needle: string)
    requires needle != "" && NoNewline(needle) && (a == "" || EndsWithNewline(a))
    ensures Contains(a + b, needle) <==> Contains(a, needle) || Contains(b, needle)
  {
    hide OccursAt;
    if Contains(a, needle) {
      var i :| 0 <= i <= |a| - |needle| && OccursAt(a, needle, i);
      OccurrenceInFront(a, b, needle, i);
    }
    if Contains(b, needle) {
      var i :| 0 <= i <= |b| - |needle| && OccursAt(b, needle, i);
      OccurrenceShifts(a, b, needle, i);
    }
    if Contains(a + b, needle) {
      var i :| 0 <= i <= |a + b| - |needle| && OccursAt(a + b, needle, i);
      if i >= |a| {
        OccurrenceShifts(a, b, needle, i - |a|);
      } else if i + |needle| <= |a| {
        OccurrenceInFront(a, b, needle, i);
      } else {
        StraddlesNewline(a, b, needle, i);
      }
    }
  }

  lemma StraddlesNewline(a: string, b: string, needle: string, i: int)
    requires NoNewline(needle) && EndsWithNewline(a)
    requires 0 <= i < |a| < i + |needle| <= |a + b|
    ensures !OccursAt(a + b, needle, i)
  {
    var found := (a + b)[i..i + |needle|];
    assert found[|a| - 1 - i] == a[|a| - 1];
  }

  lemma ContainsShort(s: string, needle: string)
    requires |s| < |needle|
    ensures !Contains(s, needle)
  {
  }

  lemma NewlineAddsNothing(a: string, needle: string)
    requires needle != "" && NoNewline(needle)
    ensures Contains(a + "\n", needle) <==> Contains(a, needle)
  {
    hide OccursAt;
    if Contains(a, needle) {
      var i :| 0 <= i <= |a| - |needle| && OccursAt(a, needle, i);
      OccurrenceInFront(a, "\n", needle, i);
    }
    if Contains(a + "\n", needle) {
      var i :| 0 <= i <= |a + "\n"| - |needle| && OccursAt(a + "\n", needle, i);
      if i + |needle| <= |a| {
        OccurrenceInFront(a, "\n", needle, i);
      } else {
        EndsOnNewline(a, needle, i);
      }
    }
  }

  lemma EndsOnNewline(a: string, needle: string, i: int)
    requires needle != "" && NoNewline(needle) && 0 <= i && i + |needle| == |a| + 1
    ensures !OccursAt(a + "\n", needle, i)
  {
    var found := (a + "\n")[i..i + |needle|];
    assert found[|needle| - 1] == '\n';
  }

  lemma NoticeAddsNothing(a: string, needle: string)
    requires NoNewline(needle) && |needle| > 40 && (a == "" || EndsWithNewline(a))
    ensures Contains(a + Notice(), needle) <==> Contains(a, needle)
    ensures EndsWithNewline(a + Notice())
  {
    hide Contains;
    ContainsAcross(a, Notice(), needle);
    ContainsShort(Notice(), needle);
  }

  lemma AddedContains(front: string, text: string, truncated: bool, needle: string)
    requires NoNewline(needle) && |needle| > 40 && (front == "" || EndsWithNewline(front))
    ensures Contains(AddLog(front, text, truncated), needle) <==> Contains(front, needle) || Contains(text, needle)
    ensures AddLog(front, text, truncated) == "" || EndsWithNewline(AddLog(front, text, truncated))
  {
    hide Contains;
    var combined := front + text;
    ContainsAcross(front, text, needle);
    NewlineAddsNothing(combined, needle);
    var closed := if combined != "" && !EndsWithNewline(combined) then combined + "\n" else combined;
    NoticeAddsNothing(closed, needle);
  }

  predicate SomeContains(texts: seq<(string, bool)>, needle: string) {
    exists i | 0 <= i < |texts| :: Contains(texts[i].0, needle)
  }

  /** The combined log holds a long record text exactly when one of the channels does. */
  lemma {:induction false} CollectedContains(logs: seq<(string, bool)>, needle: string)
    requires NoNewline(needle) && |needle| > 40
    ensures Contains(CollectLogs(logs), needle) <==> SomeContains(logs, needle)
    ensures CollectLogs(logs) == "" || EndsWithNewline(CollectLogs(logs))
  {
    hide Contains, AddLog;
    if logs == [] {
      ContainsShort("", needle);
    } else {
      var n := |logs| - 1;
      CollectedContains(logs[..n], needle);
      AddedContains(CollectLogs(logs[..n]), logs[n].0, logs[n].1, needle);
      SomeContainsSnoc(logs, needle);
    }
  }

  /** A text closed by LF. */
  function Closed(text: string): string {
    if text != "" && text[|text| - 1] != '\n' then text + "\n" else text
  }

  /** One channel of the combined log: its text, closed, and the notice when it was cut. */
  function Channel(log: (string, bool)): string {
    if log.1 then Closed(log.0) + Notice() else Closed(log.0)
  }

  function JoinedChannels(logs: seq<(string, bool)>): string {
    if logs == [] then "" else JoinedChannels(logs[..|logs| - 1]) + Channel(logs[|logs| - 1])
  }

  /** The combined log is the channels one after another, each closed on its own. */
  lemma {:induction false} CollectedExactly(logs: seq<(string, bool)>)
    ensures CollectLogs(logs) == JoinedChannels(logs)
    ensures CollectLogs(logs) == "" || EndsWithNewline(CollectLogs(logs))
  {
    if logs != [] {
      hide CollectLogs, JoinedChannels;
      CollectedExactly(logs[..|logs| - 1]);
      var (text, truncated) := logs[|logs| - 1];
      LogAdded(CollectLogs(logs[..|logs| - 1]), text, truncated);
      CollectSteps(logs);
    }
  }

  lemma CollectSteps(logs: seq<(string, bool)>)
    requires logs != []
    ensures var last := logs[|logs| - 1];
            && CollectLogs(logs) == AddLog(CollectLogs(logs[..|logs| - 1]), last.0, last.1)
            && JoinedChannels(logs) == JoinedChannels(logs[..|logs| - 1]) + Channel(last)
  {
  }

  /** The notice of a cut channel, as it reads, on a line of its own. */
  lemma NoticeReads()
    ensures Notice() == "[host: log truncated at 4194304 bytes]" + "\n"
  {
  }

  lemma NoticeEnds()
    ensures EndsWithNewline(Notice())
  {
  }

  lemma LogClosed(front: string, text: string)
    requires front == "" || EndsWithNewline(front)
    ensures var combined := front + text;
            var closed := if combined != "" && !EndsWithNewline(combined) then combined + "\n" else combined;
            && closed == front + Closed(text)
            && (closed == "" || EndsWithNewline(closed))
  {
    hide Notice;
    var combined := front + text;
    if text == "" {
      assert combined == front;
    } else {
      assert combined[|combined| - 1] == text[|text| - 1];
    }
  }

  lemma LogAdded(front: string, text: string, truncated: bool)
    requires front == "" || EndsWithNewline(front)
    ensures AddLog(front, text, truncated) == front + Channel((text, truncated))
    ensures var all := AddLog(front, text, truncated); all == "" || EndsWithNewline(all)
  {
    hide Notice, Closed, EndsWithNewline;
    LogClosed(front, text);
    if truncated {
      NoticeEnds();
      Regroup(front, Closed(text), Notice());
      EndsWithLast(front + Closed(text), Notice());
    }
  }

  lemma Regroup(a: string, b: string, c: string)
    ensures (a + b) + c == a + (b + c)
  {
  }

  lemma EndsWithLast(a: string, b: string)
    requires EndsWithNewline(b)
    ensures EndsWithNewline(a + b)
  {
  }

  lemma SomeContainsSnoc(logs: seq<(string, bool)>, needle: string)
    requires logs != []
    ensures SomeContains(logs, needle)
       <==> SomeContains(logs[..|logs| - 1], needle) || Contains(logs[|logs| - 1].0, needle)
  {
    hide Contains;
    var n := |logs| - 1;
    if i :| 0 <= i < |logs| && Contains(logs[i].0, needle) {
      if i < n {
        assert Contains(logs[..n][i].0, needle);
      }
    }
    if i :| 0 <= i < n && Contains(logs[..n][i].0, needle) {
      assert Contains(logs[i].0, needle);
    }
  }

  /** A log holds a newline-free text exactly when one of its lines does. */
  lemma {:induction false} ContainsByLine(lines: seq<string>, partial: string, needle: string)
    requires needle != "" && NoNewline(needle)
    ensures Contains(Unlines(lines) + partial, needle)
       <==> Contains(partial, needle) || exists i | 0 <= i < |lines| :: Contains(lines[i], needle)
  {
    hide Contains;
    if lines == [] {
      assert Unlines(lines) + partial == partial;
    } else {
      var n := |lines| - 1;
      ContainsByLine(lines[..n], lines[n], needle);
      var front := Unlines(lines[..n]) + lines[n];
      assert Unlines(lines) == front + "\n";
      NewlineAddsNothing(front, needle);
      ContainsAcross(Unlines(lines), partial, needle);
      if i :| 0 <= i < |lines| && Contains(lines[i], needle) {
        if i < n {
          assert Contains(lines[..n][i], needle);
        }
      }
      if i :| 0 <= i < n && Contains(lines[..n][i], needle) {
        assert Contains(lines[i], needle);
      }
    }
  }
}
