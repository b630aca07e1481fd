/** The incremental ready-marker scanner, and its agreement with the batch parser. */
module LogCursor {
  import opened Machine
  import opened Records
  import opened RecordKinds
  import opened LogLines
  import opened ProtocolParser

  const MAX_OBSERVED_LOG_BYTES: nat := 0x40_0000
  const READ_BUFFER_BYTES: nat := 4096
  const PENDING_LIMIT: nat := MAX_DIAGNOSTIC_RECORD_BYTES + 1

  /** What the bounded pending buffer knows of the unfinished line. */
  predicate Remembers(pending: string, discarding: bool, partial: string) {
    if |partial| <= PENDING_LIMIT then !discarding && pending == partial else discarding && pending == ""
  }

  /** The lines that the scanner recognizes as `needle`. */
  predicate Sees(line: string, needle: string) {
    |line| <= PENDING_LIMIT && StripCr(line) == needle
  }

  predicate SeesAny(lines: seq<string>, from: nat, needle: string) {
    exists i | from <= i < |lines| :: Sees(lines[i], needle)
  }

  /** The part of a log that the scanner ever looks at. */
  function Observable(log: string): string {
    log[..Min(|log|, MAX_OBSERVED_LOG_BYTES)]
  }

  /** The byte at `p` completes the first line, from number `from` on, that is the needle. */
  ghost predicate FirstMatch(log: string, p: nat, from: nat, needle: string) {
    && p < |Observable(log)| && log[p] == '\n' && Sees(LinesOf(log[..p]).partial, needle)
    && !SeesAny(LinesOf(log[..p]).complete, from, needle)
  }

  lemma AfterLine(pending: string, discarding: bool)
    requires Remembers(pending, discarding, "")
    ensures pending == "" && !discarding
  {
  }

  class Cursor {
    var offset: nat
    var scanned: nat
    var pendingLine: string
    var discardingOverlongLine: bool

    constructor ()
      ensures offset == 0 && scanned == 0 && pendingLine == "" && !discardingOverlongLine
    {
      offset := 0;
      scanned := 0;
      pendingLine := "";
      discardingOverlongLine := false;
    }

    /** The cursor has consumed exactly `log[..offset]`. */
    ghost predicate Follows(log: string)
      reads this
    {
      && scanned == offset <= |Observable(log)|
      && Remembers(pendingLine, discardingOverlongLine, LinesOf(log[..offset]).partial)
    }

    /** The cursor is at the end of the chunk that held the first match. */
    ghost predicate StandsAfterMatch(log: string, from: nat, needle: string)
      reads this
    {
      && scanned == offset <= |Observable(log)| && pendingLine == "" && !discardingOverlongLine
      && exists p: nat | p < offset <= p + READ_BUFFER_BYTES :: FirstMatch(log, p, from, needle)
    }

    /** One byte of the inner loop; true when the byte completed a line equal to `needle`. */
    method Step(byte: char, needle: string, ghost before: Lines) returns (found: bool)
      requires Remembers(pendingLine, discardingOverlongLine, before.partial)
      modifies this`pendingLine, this`discardingOverlongLine
      ensures Remembers(pendingLine, discardingOverlongLine, Feed(before, byte).partial)
      ensures found <==> byte == '\n' && Sees(before.partial, needle)
    {
      found := false;
      if byte == '\n' {
        var line := StripCr(pendingLine);
        found := !discardingOverlongLine && line == needle;
        pendingLine := "";
        discardingOverlongLine := false;
      } else if !discardingOverlongLine {
        if |pendingLine| < PENDING_LIMIT {
          pendingLine := pendingLine + [byte];
        } else {
          pendingLine := "";
          discardingOverlongLine := true;
        }
      }
    }

    /**
      `contains_new` on a log that still extends what was consumed, or that shrank and is
      rescanned: reports a match exactly when a line completed since then is the needle,
      and otherwise has consumed everything observable.  On a match the rest of the chunk
      that was read is dropped: the cursor stands at its end with an empty pending line.
    */
    method ContainsNew(log: string, needle: string) returns (found: bool)
      requires |log| >= offset ==> Follows(log)
      modifies this
      ensures var from := if |log| < old(offset) then 0 else |LinesOf(log[..old(offset)]).complete|;
              found <==> SeesAny(LinesOf(Observable(log)).complete, from, needle)
      ensures !found ==> Follows(log) && offset == |Observable(log)|
      ensures var from := if |log| < old(offset) then 0 else |LinesOf(log[..old(offset)]).complete|;
              found ==> StandsAfterMatch(log, from, needle)
    {
      if |log| < offset {
        offset := 0;
        scanned := 0;
        pendingLine := "";
        discardingOverlongLine := false;
        assert log[..0] == "";
      }
      ghost var start := offset;
      ghost var from := |LinesOf(log[..start]).complete|;
      if scanned >= MAX_OBSERVED_LOG_BYTES {
        assert log[..start] == Observable(log);
        return false;
      }
      while scanned < MAX_OBSERVED_LOG_BYTES
        invariant start <= offset && Follows(log)
        invariant from <= |LinesOf(log[..offset]).complete|
        invariant !SeesAny(LinesOf(log[..offset]).complete, from, needle)
        decreases MAX_OBSERVED_LOG_BYTES - scanned
      {
        var remaining := MAX_OBSERVED_LOG_BYTES - scanned;
        var maximum := Min(remaining, READ_BUFFER_BYTES);
        var read := ReadSome(log, offset, maximum);
        if read == 0 {
          break;
        }
        found := Scan(log, needle, read, from);
        if found {
          return true;
        }
      }
      assert log[..offset] == Observable(log);
      return false;
    }

    /** The inner loop over the `read` bytes at `offset`. */
    method Scan(log: string, needle: string, read: nat, ghost from: nat) returns (found: bool)
      requires Follows(log) && 0 < read && offset + read <= |Observable(log)|
      requires from <= |LinesOf(log[..offset]).complete|
      requires !SeesAny(LinesOf(log[..offset]).complete, from, needle) && read <= READ_BUFFER_BYTES
      modifies this
      ensures offset == old(offset) + read
      ensures found ==> StandsAfterMatch(log, from, needle)
      ensures found ==> SeesAny(LinesOf(Observable(log)).complete, from, needle)
      ensures !found ==> Follows(log) && !SeesAny(LinesOf(log[..offset]).complete, from, needle)
      ensures !found ==> from <= |LinesOf(log[..offset]).complete|
    {
      hide LinesOf, Remembers, Sees;
      var base := offset;
      offset := offset + read;
      scanned := scanned + read;
      var i := 0;
      while i < read
        invariant 0 <= i <= read && offset == scanned == base + read
        invariant Remembers(pendingLine, discardingOverlongLine, LinesOf(log[..base + i]).partial)
        invariant from <= |LinesOf(log[..base + i]).complete|
        invariant !SeesAny(LinesOf(log[..base + i]).complete, from, needle)
      {
        var at := base + i;
        LinesOfPrefix(log, at);
        found := Step(log[at], needle, LinesOf(log[..at]));
        if found {
          ghost var complete := LinesOf(log[..at + 1]).complete;
          assert Sees(complete[|complete| - 1], needle);
          ObservableGrows(log, at + 1);
          AfterLine(pendingLine, discardingOverlongLine);
          assert FirstMatch(log, at, from, needle);
          return;
        }
        i := i + 1;
      }
      found := false;
    }

    /** A file read: any positive number of available bytes, and zero only at the end. */
    method ReadSome(log: string, at: nat, maximum: nat) returns (read: nat)
      requires at <= |log| && 0 < maximum
      ensures read <= maximum && at + read <= |log|
      ensures read == 0 <==> at == |log|
    {
      if at == |log| {
        return 0;
      }
      assert 0 < 1 <= maximum && at + 1 <= |log|;
      read :| 0 < read <= maximum && at + read <= |log|;
    }
  }

  lemma ObservableGrows(log: string, n: nat)
    requires n <= |Observable(log)|
    ensures LinesOf(log[..n]).complete <= LinesOf(Observable(log)).complete
  {
    var whole := Observable(log);
    assert whole == log[..n] + whole[n..];
    LinesGrow(log[..n], whole[n..]);
  }

  /** The scanner recognizes a line exactly by its CR-stripped text when the needle fits the record bound. */
  lemma CapIsExact(line: string, needle: string)
    ensures |needle| <= MAX_DIAGNOSTIC_RECORD_BYTES ==> (Sees(line, needle) <==> StripCr(line) == needle)
  {
  }

  /** One byte more and a CRLF-terminated line would be missed. */
  lemma CapIsTight(needle: string)
    requires |needle| == MAX_DIAGNOSTIC_RECORD_BYTES + 1 && needle[|needle| - 1] != '\r'
    ensures Sees(needle, needle)
    ensures StripCr(needle + "\r") == needle && !Sees(needle + "\r", needle)
  {
    assert (needle + "\r")[..|needle|] == needle;
  }

  // ---------------------------------------------------------------------------------
  // The observer over a whole run.
  // ---------------------------------------------------------------------------------

  predicate Shows(log: string, needle: string) {
    SeesAny(LinesOf(Observable(log)).complete, 0, needle)
  }

  class ReadyMarkerObserver {
    const cursor: Cursor
    var observedAt: Option<nat>

    constructor ()
      ensures observedAt == None && fresh(cursor)
      ensures cursor.offset == 0 && cursor.scanned == 0 && cursor.pendingLine == "" && !cursor.discardingOverlongLine
    {
      cursor := new Cursor();
      observedAt := None;
    }

    /** Everything seen so far of `log`, and no ready marker in it. */
    ghost predicate Waiting(log: string)
      reads this, cursor
    {
      && observedAt == None && cursor.Follows(log)
      && !SeesAny(LinesOf(log[..cursor.offset]).complete, 0, Line(ReadyMarker))
    }

    method Observe(log: string, elapsed: nat)
      requires observedAt.None? ==> Waiting(log)
      modifies this, cursor
      ensures old(observedAt).Some? ==> observedAt == old(observedAt)
      ensures old(observedAt).None? ==>
                if Shows(log, Line(ReadyMarker)) then observedAt == Some(elapsed)
                else Waiting(log) && cursor.offset == |Observable(log)|
    {
      hide LinesOf, Sees, Line;
      if observedAt.Some? {
        return;
      }
      ghost var seen := cursor.offset;
      ObservableGrows(log, seen);
      var found := cursor.ContainsNew(log, Line(ReadyMarker));
      if found {
        observedAt := Some(elapsed);
      } else {
        assert log[..cursor.offset] == Observable(log);
      }
    }
  }

  predicate AppendOnly(snapshots: seq<string>) {
    forall i, j | 0 <= i < j < |snapshots| :: snapshots[i] <= snapshots[j]
  }

  /** `t` is the clock reading of the first poll whose log shows the marker. */
  ghost predicate FirstShown(snapshots: seq<string>, times: seq<nat>, t: Option<nat>)
    requires |times| == |snapshots|
  {
    match t
    case None => forall i | 0 <= i < |snapshots| :: !Shows(snapshots[i], Line(ReadyMarker))
    case Some(time) =>
      exists k | 0 <= k < |snapshots| ::
        && time == times[k] && Shows(snapshots[k], Line(ReadyMarker))
        && forall i | 0 <= i < k :: !Shows(snapshots[i], Line(ReadyMarker))
  }

  /**
    For every append-only growth of the log and every chunking of the reads, the observer
    records the first poll at which the log shows a complete ready marker.
  */
  method ObserveRun(snapshots: seq<string>, times: seq<nat>) returns (observedAt: Option<nat>)
    requires AppendOnly(snapshots) && |times| == |snapshots|
    ensures FirstShown(snapshots, times, observedAt)
  {
    hide LinesOf, Sees, Line, SeesAny, Remembers;
    var observer := new ReadyMarkerObserver();
    var i := 0;
    if snapshots != [] {
      FreshCursor(snapshots[0]);
    }
    while i < |snapshots|
      invariant 0 <= i <= |snapshots|
      invariant fresh(observer) && fresh(observer.cursor)
      invariant FirstShown(snapshots[..i], times[..i], observer.observedAt)
      invariant observer.observedAt.None? && i < |snapshots| ==> observer.Waiting(snapshots[i])
    {
      assert snapshots[..i + 1] == snapshots[..i] + [snapshots[i]];
      ghost var before := observer.observedAt;
      observer.Observe(snapshots[i], times[i]);
      NextShown(snapshots, times, i, before, observer.observedAt);
      i := i + 1;
      if observer.observedAt.None? && i < |snapshots| {
        ghost var n := observer.cursor.offset;
        assert snapshots[i - 1] <= snapshots[i];
        assert snapshots[i - 1][..n] == snapshots[i][..n];
      }
    }
    assert snapshots[..i] == snapshots && times[..i] == times;
    return observer.observedAt;
  }

  lemma FreshCursor(log: string)
    ensures LinesOf(log[..0]) == Lines([], "")
    ensures Remembers("", false, "")
    ensures !SeesAny([], 0, Line(ReadyMarker))
  {
    assert log[..0] == "";
  }

  lemma NextShown(snapshots: seq<string>, times: seq<nat>, i: nat, before: Option<nat>, after: Option<nat>)
    requires i < |snapshots| == |times|
    requires FirstShown(snapshots[..i], times[..i], before)
    requires before.Some? ==> after == before
    requires before.None? ==> after == if Shows(snapshots[i], Line(ReadyMarker)) then Some(times[i]) else None
    ensures FirstShown(snapshots[..i + 1], times[..i + 1], after)
  {
    hide Shows, Line;
    var s, t := snapshots[..i + 1], times[..i + 1];
    assert s[i] == snapshots[i] && t[i] == times[i];
    assert forall j | 0 <= j < i :: s[j] == snapshots[..i][j] && t[j] == times[..i][j];
    if before.Some? {
      var k :| 0 <= k < i && before.value == times[..i][k] && Shows(snapshots[..i][k], Line(ReadyMarker))
               && forall j | 0 <= j < k :: !Shows(snapshots[..i][j], Line(ReadyMarker));
      assert after.value == t[k] && Shows(s[k], Line(ReadyMarker));
    }
  }

  // ---------------------------------------------------------------------------------
  // Agreement with the batch parser.
  // ---------------------------------------------------------------------------------

  lemma {:induction false} TaggedMember(lines: seq<string>, x: string)
    requires StartsWith(x, TAG)
    ensures x in Tagged(lines) <==> exists i | 0 <= i < |lines| :: StripCr(lines[i]) == x
  {
    hide StripCr;
    if lines != [] {
      var n := |lines| - 1;
      TaggedMember(lines[..n], x);
      var line := StripCr(lines[n]);
      assert lines == lines[..n] + [lines[n]];
      if x in Tagged(lines[..n]) {
        var i :| 0 <= i < n && StripCr(lines[..n][i]) == x;
        assert StripCr(lines[i]) == x;
      }
      if i :| 0 <= i < |lines| && StripCr(lines[i]) == x {
        if i < n {
          assert StripCr(lines[..n][i]) == x;
        }
      }
    }
  }

  lemma ReadyRecordLine()
    ensures KindOf(Line(ReadyMarker)) == Some(Ready)
    ensures StartsWith(Line(ReadyMarker), TAG) && |Line(ReadyMarker)| <= MAX_DIAGNOSTIC_RECORD_BYTES
  {
    hide KindOf, Line, ValidRecordGrammar, RecordSequence, Printable;
    KindOfLine(ReadyMarker);
    KnownLine(Line(ReadyMarker));
  }

  lemma OnlyReadyLineIsReady(line: string)
    ensures KindOf(line) == Some(Ready) <==> line == Line(ReadyMarker)
  {
    hide KindOf, Line;
    KindOfLine(ReadyMarker);
    if KindOf(line) == Some(Ready) {
      var m := MarkerBehind(line);
    }
  }

  lemma ShownExactlyTagged(log: string)
    requires |log| <= MAX_OBSERVED_LOG_BYTES
    ensures Shows(log, Line(ReadyMarker)) <==> Line(ReadyMarker) in RecordLines(log)
  {
    hide KindOf, Line, LinesOf, StripCr, Tagged;
    ReadyRecordLine();
    assert Observable(log) == log;
    var lines := LinesOf(log).complete;
    TaggedMember(lines, Line(ReadyMarker));
    forall i | 0 <= i < |lines|
      ensures Sees(lines[i], Line(ReadyMarker)) <==> StripCr(lines[i]) == Line(ReadyMarker)
    {
      CapIsExact(lines[i], Line(ReadyMarker));
    }
  }

  /** On an allowed prefix the ready record can only be the last one, and then `ready` is set. */
  lemma ReadyInPrefix(lines: seq<string>)
    requires StateAfter(lines).Some?
    ensures Line(ReadyMarker) in lines <==> MarkersAfter(lines).ready
  {
    hide KindOf, Line;
    ReadyRecordLine();
    Reached(lines);
    if lines != [] {
      OnlyReadyLineIsReady(lines[|lines| - 1]);
    }
  }

  /**
    Whenever the parser reports no violation, the scanner's verdict on the fully scanned
    log is the parser's `ready` flag, despite the pending cap and the discarding of long lines.
  */
  lemma ObserverAgreesWithParser(log: string)
    requires |log| <= MAX_OBSERVED_LOG_BYTES
    requires ParseStream(log, false).violation.None?
    ensures Shows(log, Line(ReadyMarker)) <==> ParseStream(log, false).markers.ready
  {
    hide Shows, ParseStream, Line, StateAfter, MarkersAfter, Tagged;
    CleanTraceExactly(log, false);
    ReachedIsAllowed(RecordLines(log));
    ReadyInPrefix(RecordLines(log));
    ShownExactlyTagged(log);
  }
}
