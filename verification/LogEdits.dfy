/** What may be changed in a log without changing its trace: foreign lines and line ends. */
module LogEdits {
  import opened Machine
  import opened Records
  import opened RecordKinds
  import opened LogLines
  import opened ProtocolParser

  /** After a whole line the rest of the log is cut on its own. */
  lemma {:induction false} LinesOfConcat(front: string, rest: string)
    requires LinesOf(front).partial == ""
    ensures LinesOf(front + rest)
         == Lines(LinesOf(front).complete + LinesOf(rest).complete, LinesOf(rest).partial)
  {
    hide LinesOf;
    if rest == "" {
      assert front + rest == front;
      EmptyLog();
      assert LinesOf(front).complete + [] == LinesOf(front).complete;
    } else {
      var n := |rest| - 1;
      LinesOfConcat(front, rest[..n]);
      assert rest == rest[..n] + [rest[n]];
      assert front + rest == (front + rest[..n]) + [rest[n]];
      LinesOfSnoc(front + rest[..n], rest[n]);
      LinesOfSnoc(rest[..n], rest[n]);
      var a, b := LinesOf(front).complete, LinesOf(rest[..n]);
      assert a + (b.complete + [b.partial]) == a + b.complete + [b.partial];
    }
  }

  lemma {:induction false} TaggedConcat(a: seq<string>, b: seq<string>)
    ensures Tagged(a + b) == Tagged(a) + Tagged(b)
  {
    hide StripCr;
    if b == [] {
      assert a + b == a;
    } else {
      var n := |b| - 1;
      TaggedConcat(a, b[..n]);
      assert (a + b)[..|a| + n] == a + b[..n];
    }
  }

  // ---------------------------------------------------------------------------------
  // Foreign lines.
  // ---------------------------------------------------------------------------------

  lemma SingleLine(line: string)
    requires NoNewline(line)
    ensures LinesOf(line + "\n") == Lines([line], "")
  {
    hide LinesOf;
    EmptyLog();
    LinesOfLine("", line);
    assert "" + line + "\n" == line + "\n";
    assert "" + line == line;
  }

  lemma SingleTagged(line: string)
    ensures Tagged([line]) == if StartsWith(StripCr(line), TAG) then [StripCr(line)] else []
  {
    assert [line][..0] == [];
  }

  /** Inserting or removing a whole untagged line anywhere between lines never changes the trace. */
  lemma ForeignLineIgnored(front: string, line: string, rest: string, logTruncated: bool)
    requires LinesOf(front).partial == "" && NoNewline(line) && !StartsWith(StripCr(line), TAG)
    ensures ParseStream(front + (line + "\n" + rest), logTruncated) == ParseStream(front + rest, logTruncated)
  {
    hide LinesOf, ParseStream, Tagged, StripCr;
    SingleLine(line);
    LinesOfConcat(line + "\n", rest);
    LinesOfConcat(front, line + "\n" + rest);
    LinesOfConcat(front, rest);
    var a, b := LinesOf(front).complete, LinesOf(rest).complete;
    TaggedConcat(a, [line] + b);
    TaggedConcat([line], b);
    TaggedConcat(a, b);
    SingleTagged(line);
    TraceDependsOnRecordsOnly(front + (line + "\n" + rest), front + rest, logTruncated);
  }

  // ---------------------------------------------------------------------------------
  // Line ends.
  // ---------------------------------------------------------------------------------

  predicate EndsInCr(line: string) {
    line != "" && line[|line| - 1] == '\r'
  }

  /** The lines of a text, each ended by CRLF where `crlf` says so and by LF elsewhere. */
  function Terminated(lines: seq<string>, crlf: seq<bool>): string
    requires |crlf| == |lines|
  {
    if lines == [] then ""
    else
      var n := |lines| - 1;
      Terminated(lines[..n], crlf[..n]) + lines[n] + (if crlf[n] then "\r\n" else "\n")
  }

  /** The text of a line as the cut sees it. */
  function Ended(line: string, crlf: bool): string {
    if crlf then line + "\r" else line
  }

  lemma LineEnd(log: string, line: string, crlf: bool)
    requires NoNewline(line) && LinesOf(log).partial == ""
    ensures LinesOf(log + line + (if crlf then "\r\n" else "\n"))
         == Lines(LinesOf(log).complete + [Ended(line, crlf)], "")
  {
    hide LinesOf;
    LinesOfLine(log, Ended(line, crlf));
    assert "" + Ended(line, crlf) == Ended(line, crlf);
    assert crlf ==> log + line + "\r\n" == log + (line + "\r") + "\n";
  }

  /** A line is read alike with either end exactly when it does not itself end in CR. */
  lemma EitherEnd(line: string)
    ensures StripCr(Ended(line, true)) == line
    ensures StripCr(Ended(line, true)) == StripCr(Ended(line, false)) <==> !EndsInCr(line)
  {
    assert (line + "\r")[..|line|] == line;
  }

  lemma {:induction false} TerminatedRecords(lines: seq<string>, crlf: seq<bool>)
    requires |crlf| == |lines| && forall i | 0 <= i < |lines| :: NoNewline(lines[i])
    requires NoTaggedCr(lines)
    ensures LinesOf(Terminated(lines, crlf)).partial == ""
    ensures RecordLines(Terminated(lines, crlf)) == Selected(lines)
  {
    hide LinesOf, StripCr, Ended, EndsInCr, NoNewline;
    if lines == [] {
      EmptyLog();
    } else {
      var n := |lines| - 1;
      TerminatedRecords(lines[..n], crlf[..n]);
      var front := Terminated(lines[..n], crlf[..n]);
      LineEnd(front, lines[n], crlf[n]);
      var cut := LinesOf(front).complete;
      TaggedConcat(cut, [Ended(lines[n], crlf[n])]);
      SingleTagged(Ended(lines[n], crlf[n]));
      LineSelected(lines[n], crlf[n]);
    }
  }

  /** The lines that begin with the tag. */
  function Selected(lines: seq<string>): seq<string> {
    if lines == [] then []
    else
      var n := |lines| - 1;
      if StartsWith(lines[n], TAG) then Selected(lines[..n]) + [lines[n]] else Selected(lines[..n])
  }

  lemma LineSelected(line: string, crlf: bool)
    requires !EndsInCr(line) || !StartsWith(line, TAG)
    ensures var text := StripCr(Ended(line, crlf));
            if StartsWith(line, TAG) then text == line else !StartsWith(text, TAG)
  {
    EitherEnd(line);
  }

  /**
    The choice of LF or CRLF, line by line, never changes the trace, whatever follows, as
    long as no tagged line itself ends in CR.
  */
  lemma LineEndsIgnored(lines: seq<string>, crlf: seq<bool>, other: seq<bool>, rest: string, logTruncated: bool)
    requires |crlf| == |other| == |lines| && forall i | 0 <= i < |lines| :: NoNewline(lines[i])
    requires NoTaggedCr(lines)
    ensures ParseStream(Terminated(lines, crlf) + rest, logTruncated)
         == ParseStream(Terminated(lines, other) + rest, logTruncated)
  {
    hide LinesOf, ParseStream, Tagged, Terminated, Selected, EndsInCr, NoNewline;
    var a, b := Terminated(lines, crlf), Terminated(lines, other);
    TerminatedRecords(lines, crlf);
    TerminatedRecords(lines, other);
    LinesOfConcat(a, rest);
    LinesOfConcat(b, rest);
    TaggedConcat(LinesOf(a).complete, LinesOf(rest).complete);
    TaggedConcat(LinesOf(b).complete, LinesOf(rest).complete);
    TraceDependsOnRecordsOnly(a + rest, b + rest, logTruncated);
  }

  /** What the cut makes of the terminated lines. */
  function Endeds(lines: seq<string>, crlf: seq<bool>): seq<string>
    requires |crlf| == |lines|
  {
    seq(|lines|, i requires 0 <= i < |lines| => Ended(lines[i], crlf[i]))
  }

  lemma {:induction false} TerminatedCut(lines: seq<string>, crlf: seq<bool>)
    requires |crlf| == |lines| && forall i | 0 <= i < |lines| :: NoNewline(lines[i])
    ensures LinesOf(Terminated(lines, crlf)) == Lines(Endeds(lines, crlf), "")
  {
    hide LinesOf, Ended, NoNewline;
    if lines == [] {
      EmptyLog();
    } else {
      var n := |lines| - 1;
      TerminatedCut(lines[..n], crlf[..n]);
      LineEnd(Terminated(lines[..n], crlf[..n]), lines[n], crlf[n]);
      assert Endeds(lines, crlf) == Endeds(lines[..n], crlf[..n]) + [Ended(lines[n], crlf[n])];
    }
  }

  predicate NoTaggedCr(lines: seq<string>) {
    forall i | 0 <= i < |lines| :: !EndsInCr(lines[i]) || !StartsWith(lines[i], TAG)
  }

  /** Every choice of line ends gives the same records. */
  ghost predicate ReadAlike(lines: seq<string>) {
    forall crlf: seq<bool>, other: seq<bool> | |crlf| == |other| == |lines| ::
      RecordLines(Terminated(lines, crlf)) == RecordLines(Terminated(lines, other))
  }

  /** The records do not depend on the line ends exactly when no tagged line itself ends in CR. */
  lemma RecordsAlikeExactly(lines: seq<string>)
    requires forall i | 0 <= i < |lines| :: NoNewline(lines[i])
    ensures ReadAlike(lines) <==> NoTaggedCr(lines)
  {
    hide EndsInCr, NoNewline, Terminated, RecordLines;
    if NoTaggedCr(lines) {
      forall crlf: seq<bool>, other: seq<bool> | |crlf| == |other| == |lines|
        ensures RecordLines(Terminated(lines, crlf)) == RecordLines(Terminated(lines, other))
      {
        TerminatedRecords(lines, crlf);
        TerminatedRecords(lines, other);
      }
    } else {
      var i :| 0 <= i < |lines| && EndsInCr(lines[i]) && StartsWith(lines[i], TAG);
      var plain := AllLf(lines);
      DifferentRecords(lines, plain, i);
      assert RecordLines(Terminated(lines, plain)) != RecordLines(Terminated(lines, plain[i := true]));
    }
  }

  lemma DifferentRecords(lines: seq<string>, plain: seq<bool>, i: nat)
    requires |plain| == |lines| && i < |lines| && !plain[i] && forall k | 0 <= k < |lines| :: NoNewline(lines[k])
    requires EndsInCr(lines[i]) && StartsWith(lines[i], TAG)
    ensures RecordLines(Terminated(lines, plain)) != RecordLines(Terminated(lines, plain[i := true]))
  {
    hide LinesOf, Terminated, NoNewline, Tagged;
    TerminatedCut(lines, plain);
    TerminatedCut(lines, plain[i := true]);
    var x, y := Endeds(lines, plain), Endeds(lines, plain[i := true]);
    TaggedAround(x, i);
    TaggedAround(y, i);
    assert x[..i] == y[..i] && x[i + 1..] == y[i + 1..];
    SingleTagged(x[i]);
    SingleTagged(y[i]);
    EitherEnd(lines[i]);
    TaggedWithoutCr(lines[i]);
    var n := |Tagged(x[..i])|;
    assert Tagged(x)[n] == StripCr(x[i]) && Tagged(y)[n] == StripCr(y[i]);
  }

  lemma TaggedAround(lines: seq<string>, i: nat)
    requires i < |lines|
    ensures Tagged(lines) == Tagged(lines[..i]) + Tagged([lines[i]]) + Tagged(lines[i + 1..])
  {
    hide Tagged;
    var rest := lines[i..];
    assert lines == lines[..i] + rest;
    TaggedConcat(lines[..i], rest);
    assert rest == [lines[i]] + lines[i + 1..];
    TaggedConcat([lines[i]], lines[i + 1..]);
  }

  lemma TaggedWithoutCr(line: string)
    requires EndsInCr(line) && StartsWith(line, TAG)
    ensures StartsWith(StripCr(line), TAG)
  {
    var last := TAG[|TAG| - 1];
  }

  lemma {:induction false} ReachedAllKnown(lines: seq<string>, k: nat)
    requires StateAfter(lines).Some? && k < |lines|
    ensures KindOf(lines[k]).Some?
  {
    hide KindOf;
    if k < |lines| - 1 {
      ReachedAllKnown(lines[..|lines| - 1], k);
    }
  }

  /** A tagged line with a CR of its own, ended by CRLF, leaves no stream clean. */
  lemma CrSpoils(lines: seq<string>, crlf: seq<bool>, rest: string, i: nat)
    requires |crlf| == |lines| && i < |lines| && crlf[i] && forall k | 0 <= k < |lines| :: NoNewline(lines[k])
    requires EndsInCr(lines[i]) && StartsWith(lines[i], TAG)
    ensures ParseStream(Terminated(lines, crlf) + rest, false).violation.Some?
  {
    hide LinesOf, Terminated, NoNewline, Tagged, ParseStream, KindOf, AllowedPrefix, StateAfter, EndsInCr;
    var log := Terminated(lines, crlf) + rest;
    TerminatedCut(lines, crlf);
    LinesOfConcat(Terminated(lines, crlf), rest);
    var all := Endeds(lines, crlf) + LinesOf(rest).complete;
    TaggedAround(all, i);
    SingleTagged(all[i]);
    EitherEnd(lines[i]);
    UnknownWithCr(lines[i]);
    var n := |Tagged(all[..i])|;
    assert RecordLines(log)[n] == lines[i];
    CleanTraceExactly(log, false);
    ReachedIsAllowed(RecordLines(log));
    if StateAfter(RecordLines(log)).Some? {
      ReachedAllKnown(RecordLines(log), n);
    }
  }

  /** Every choice of line ends gives the same trace. */
  ghost predicate TracedAlike(lines: seq<string>, rest: string) {
    forall a: seq<bool>, b: seq<bool> | |a| == |b| == |lines| ::
      ParseStream(Terminated(lines, a) + rest, false) == ParseStream(Terminated(lines, b) + rest, false)
  }

  /**
    In a stream that is clean with some choice of line ends, every choice gives the same
    trace exactly when no tagged line itself ends in CR.
  */
  lemma LineEndsExactly(lines: seq<string>, crlf: seq<bool>, rest: string)
    requires |crlf| == |lines| && forall i | 0 <= i < |lines| :: NoNewline(lines[i])
    requires ParseStream(Terminated(lines, crlf) + rest, false).violation.None?
    ensures TracedAlike(lines, rest) <==> NoTaggedCr(lines)
  {
    hide EndsInCr, NoNewline, Terminated, ParseStream;
    if NoTaggedCr(lines) {
      forall a: seq<bool>, b: seq<bool> | |a| == |b| == |lines|
        ensures ParseStream(Terminated(lines, a) + rest, false) == ParseStream(Terminated(lines, b) + rest, false)
      {
        LineEndsIgnored(lines, a, b, rest, false);
      }
    } else {
      var i :| 0 <= i < |lines| && EndsInCr(lines[i]) && StartsWith(lines[i], TAG);
      CrSpoils(lines, crlf[i := true], rest, i);
      assert ParseStream(Terminated(lines, crlf[i := true]) + rest, false)
          != ParseStream(Terminated(lines, crlf) + rest, false);
    }
  }

  function AllLf(lines: seq<string>): (r: seq<bool>)
    ensures |r| == |lines| && forall i | 0 <= i < |r| :: !r[i]
  {
    seq(|lines|, _ => false)
  }

  ghost predicate AlwaysClean(lines: seq<string>, rest: string) {
    forall a: seq<bool> | |a| == |lines| :: ParseStream(Terminated(lines, a) + rest, false).violation.None?
  }

  /** On every text: it is clean with every choice exactly when it is clean with LF and no tagged line ends in CR. */
  lemma AlwaysCleanExactly(lines: seq<string>, rest: string)
    requires forall i | 0 <= i < |lines| :: NoNewline(lines[i])
    ensures AlwaysClean(lines, rest)
       <==> ParseStream(Terminated(lines, AllLf(lines)) + rest, false).violation.None? && NoTaggedCr(lines)
  {
    hide EndsInCr, NoNewline, Terminated, ParseStream, AllLf;
    var plain := AllLf(lines);
    if NoTaggedCr(lines) {
      forall a: seq<bool> | |a| == |lines|
        ensures ParseStream(Terminated(lines, a) + rest, false) == ParseStream(Terminated(lines, plain) + rest, false)
      {
        LineEndsIgnored(lines, a, plain, rest, false);
      }
    } else {
      var i :| 0 <= i < |lines| && EndsInCr(lines[i]) && StartsWith(lines[i], TAG);
      CrSpoils(lines, plain[i := true], rest, i);
    }
  }

  /** Without a clean choice the condition is not needed: the bare tag with a CR is malformed either way. */
  lemma MalformedEitherWay()
    ensures var line := TAG + "\r";
            && !NoTaggedCr([line])
            && ParseStream(line + "\n", false) == ParseStream(line + "\r\n", false)
  {
    hide ParseStream, LinesOf, ValidRecordGrammar;
    var line := TAG + "\r";
    SingleLine(line);
    SingleLine(line + "\r");
    assert line + "\r" + "\n" == line + "\r\n";
    assert StripCr(line) == TAG && StripCr(line + "\r") == line;
    assert EndsInCr([line][0]) && StartsWith([line][0], TAG);
    OneWord(TAG);
    OneWord(line);
    BareTagTrace(line, TAG);
    BareTagTrace(line + "\r", line);
  }

  lemma OneWord(word: string)
    requires ' ' !in word
    ensures !ValidRecordGrammar(word)
  {
    SplitWord(word);
  }

  lemma BareTagTrace(line: string, text: string)
    requires NoNewline(line) && StripCr(line) == text && StartsWith(text, TAG) && |text| <= MAX_DIAGNOSTIC_RECORD_BYTES
    requires !ValidRecordGrammar(text)
    ensures ParseStream(line + "\n", false) == ProtocolTrace(NO_MARKERS, Some(MalformedRecord))
  {
    hide LinesOf, ValidRecordGrammar;
    SingleLine(line);
    assert ProcessLines([line][..0], false) == NewParser(false);
    assert ProcessLines([line], false) == ProcessLine(text, NewParser(false));
  }

  /** The start record with a CR of its own is accepted before LF and rejected before CRLF. */
  lemma CrBeforeEndRejected()
    ensures var line := Line(StartMarker) + "\r";
            && ParseStream(line + "\n", false).violation.None?
            && ParseStream(line + "\r\n", false).violation.Some?
  {
    hide ParseStream, Line, KindOf, LinesOf, AllowedPrefix, NoNewline;
    var start := Line(StartMarker);
    var line := start + "\r";
    KindOfLine(StartMarker);
    KnownLine(start);
    StartLine(start);
    SingleLine(line);
    SingleLine(line + "\r");
    assert line + "\r" + "\n" == line + "\r\n";
    SingleTagged(line);
    SingleTagged(line + "\r");
    assert StripCr(line) == start && StripCr(line + "\r") == line;
    CleanTraceExactly(line + "\n", false);
    CleanTraceExactly(line + "\r\n", false);
    OneRecord(start);
    OneRecord(line);
    UnknownWithCr(line);
  }

  lemma StartLine(start: string)
    requires Printable(start)
    ensures NoNewline(start) && NoNewline(start + "\r") && NoNewline(start + "\r" + "\r")
  {
    assert forall i | 0 <= i < |start| :: IsNotNewline(start[i]);
  }

  lemma OneRecord(line: string)
    ensures AllowedPrefix([line]) <==> KindOf(line) == Some(LoaderStart)
  {
    hide KindOf, AllowedPrefix;
    ReachedIsAllowed([line]);
    assert [line][..0] == [];
  }

  lemma UnknownWithCr(line: string)
    requires EndsInCr(line)
    ensures KindOf(line).None?
  {
    hide KindOf, Line;
    if KindOf(line).Some? {
      var m := MarkerBehind(line);
      LastIsCodeChar(m);
      assert false;
    }
  }
}
