/** The UART copy of the records, and why it never shows the wrong rejection. */
module SerialCopy {
  import opened Machine
  import opened Records
  import opened MemoryMap
  import opened Harness
  import opened BootMachine
  import opened BootReport

  /** `write_record` on the UART: at most 256 bytes, then CR and LF. */
  function WriteSerialRecord(log: string, record: string): string {
    log + record[..Min(|record|, MAX_RECORD_BYTES)] + "\r\n"
  }

  /** What the guest sends to the UART. */
  function SerialText(markers: seq<Marker>): string {
    if markers == [] then ""
    else WriteSerialRecord(SerialText(markers[..|markers| - 1]), Line(markers[|markers| - 1]))
  }

  /** `copy` is `text` with some bytes dropped. */
  predicate Dropped(copy: string, text: string) {
    if text == "" then copy == ""
    else
      var n := |text| - 1;
      || Dropped(copy, text[..n])
      || (copy != "" && copy[|copy| - 1] == text[n] && Dropped(copy[..|copy| - 1], text[..n]))
  }

  /** The UART drops a byte whenever its transmitter stays busy; any bytes may be lost. */
  method WriteSerial(markers: seq<Marker>) returns (copy: string)
    ensures Dropped(copy, SerialText(markers))
  {
    hide SerialText;
    copy := "";
    var text := SerialText(markers);
    for i := 0 to |text|
      invariant Dropped(copy, text[..i])
    {
      assert text[..i + 1][..i] == text[..i] && text[..i + 1][i] == text[i];
      var ready: bool :| true;
      if ready {
        assert (copy + [text[i]])[..|copy|] == copy;
        copy := copy + [text[i]];
      }
    }
    assert text[..|text|] == text;
  }

  /** No `c` occurs anywhere after an `a`. */
  predicate NeverAfter(s: string, a: char, c: char) {
    forall i, j | 0 <= i < j < |s| :: s[i] == a ==> s[j] != c
  }

  lemma {:induction false} DroppedMember(copy: string, text: string, x: char)
    requires Dropped(copy, text) && x in copy
    ensures x in text
  {
    if text != "" {
      var n := |text| - 1;
      if Dropped(copy, text[..n]) {
        DroppedMember(copy, text[..n], x);
      } else if x in copy[..|copy| - 1] {
        DroppedMember(copy[..|copy| - 1], text[..n], x);
      }
    }
  }

  /** Dropping bytes cannot put a `c` after an `a`. */
  lemma {:induction false} DroppedKeeps(copy: string, text: string, a: char, c: char)
    requires Dropped(copy, text) && NeverAfter(text, a, c)
    ensures NeverAfter(copy, a, c)
  {
    if text != "" {
      var n := |text| - 1;
      if Dropped(copy, text[..n]) {
        DroppedKeeps(copy, text[..n], a, c);
      } else {
        var m := |copy| - 1;
        DroppedKeeps(copy[..m], text[..n], a, c);
        forall i, j | 0 <= i < j < |copy|
          ensures copy[i] == a ==> copy[j] != c
        {
          if j == m && copy[i] == a {
            assert copy[..m][i] == a;
            DroppedMember(copy[..m], text[..n], a);
            var k :| 0 <= k < n && text[k] == a;
          } else {
            assert j < m ==> copy[..m][i] == copy[i] && copy[..m][j] == copy[j];
          }
        }
      }
    }
  }

  lemma LacksByOrder(s: string, needle: string, a: char, c: char, i: nat, j: nat)
    requires NeverAfter(s, a, c) && i < j < |needle| && needle[i] == a && needle[j] == c
    ensures !Contains(s, needle)
  {
    forall at | 0 <= at <= |s| - |needle|
      ensures !OccursAt(s, needle, at)
    {
      var found := s[at..at + |needle|];
      assert found[i] == s[at + i] && found[j] == s[at + j];
    }
  }

  // ---------------------------------------------------------------------------------
  // The two rejection scenarios.
  // ---------------------------------------------------------------------------------

  /** A character of the opposite rejection's code that no record prints after its sequence number. */
  function CodeLetter(scenario: BootScenario): char {
    if scenario == IncompatibleVersion then 'C' else 'B'
  }

  lemma FixedParts(x: char)
    requires x in {'4', 'B', 'C'}
    ensures x !in " " && x !in "schema=1" && x !in "seq=" && x !in "phase=" && x !in "level=" && x !in "code="
    ensures x != 'B' ==> x !in TAG
  {
  }

  /** Before the terminal record no sequence number has a 4. */
  lemma EarlyFields(m: Marker)
    requires m in {StartMarker, ElfValidMarker, HandoffMarker}
    ensures var r := Fields(m); '4' !in r.sequence && '4' !in r.phase && '4' !in r.level && '4' !in r.code
  {
  }

  lemma EarlyLine(m: Marker)
    requires m in {StartMarker, ElfValidMarker, HandoffMarker}
    ensures '4' !in Line(m)
  {
    hide Fields;
    EarlyFields(m);
    FixedParts('4');
    LacksChar(Fields(m), '4');
  }

  lemma LacksChar(r: Record, x: char)
    requires x !in TAG && x !in " " && x !in "schema=1"
    requires x !in "seq=" && x !in "phase=" && x !in "level=" && x !in "code="
    requires x !in r.sequence && x !in r.phase && x !in r.level && x !in r.code
    ensures x !in Render(r)
  {
  }

  lemma {:induction false} EarlySerial(markers: seq<Marker>)
    requires forall i | 0 <= i < |markers| :: markers[i] in {StartMarker, ElfValidMarker, HandoffMarker}
    ensures '4' !in SerialText(markers)
  {
    hide Line;
    if markers != [] {
      EarlySerial(markers[..|markers| - 1]);
      EarlyLine(markers[|markers| - 1]);
    }
  }

  lemma SerialSnoc(markers: seq<Marker>, m: Marker)
    ensures SerialText(markers + [m]) == SerialText(markers) + Line(m) + "\r\n"
  {
    hide Line;
    assert (markers + [m])[..|markers|] == markers;
    MarkerLine(m);
    assert Line(m)[..Min(|Line(m)|, MAX_RECORD_BYTES)] == Line(m);
  }

  /** A record before its sequence number, and from it on. */
  function BeforeSequence(): string {
    TAG + " " + "schema=1" + " " + "seq="
  }

  function FromSequence(r: Record): string {
    r.sequence + " " + "phase=" + r.phase + " " + "level=" + r.level + " " + "code=" + r.code
  }

  lemma RenderSplits(r: Record)
    ensures Render(r) == BeforeSequence() + FromSequence(r)
  {
  }

  lemma FrontLacksFour()
    ensures '4' !in BeforeSequence()
  {
    FixedParts('4');
  }

  lemma TerminalFields(scenario: BootScenario)
    requires Opposite(scenario).Some?
    ensures var r := Fields(ExpectedOutcome(scenario).marker);
            var c := CodeLetter(scenario);
            c !in r.sequence && c !in r.phase && c !in r.level && c !in r.code
  {
    hide Fields;
    if scenario == IncompatibleVersion {
      VersionFields();
    } else {
      LengthFields();
    }
  }

  lemma VersionFields()
    ensures var r := Fields(AbiVersionMarker);
            'C' !in r.sequence && 'C' !in r.phase && 'C' !in r.level && 'C' !in r.code
  {
  }

  lemma LengthFields()
    ensures var r := Fields(ContractLengthMarker);
            'B' !in r.sequence && 'B' !in r.phase && 'B' !in r.level && 'B' !in r.code
  {
  }

  lemma TailLacks(scenario: BootScenario)
    requires Opposite(scenario).Some?
    ensures CodeLetter(scenario) !in FromSequence(Fields(ExpectedOutcome(scenario).marker))
  {
    hide Fields;
    TerminalFields(scenario);
    FixedParts(CodeLetter(scenario));
  }

  lemma NeverAfterJoin(x: string, y: string, a: char, c: char)
    requires a !in x && c !in y
    ensures NeverAfter(x + y, a, c)
  {
  }

  /** Nothing the guest prints has that letter after a 4. */
  lemma TextNeverAfter(scenario: BootScenario)
    requires Opposite(scenario).Some?
    ensures NeverAfter(SerialText(ConsoleOf(scenario)), '4', CodeLetter(scenario))
  {
    hide SerialText, Fields, FromSequence, BeforeSequence, Render, NeverAfter;
    var early := [StartMarker, ElfValidMarker, HandoffMarker];
    var m := ExpectedOutcome(scenario).marker;
    EarlySerial(early);
    SerialSnoc(early, m);
    assert ConsoleOf(scenario) == early + [m];
    RenderSplits(Fields(m));
    FrontLacksFour();
    TailLacks(scenario);
    var x, y := SerialText(early) + BeforeSequence(), FromSequence(Fields(m)) + "\r\n";
    NeverAfterJoin(x, y, '4', CodeLetter(scenario));
    assert SerialText(ConsoleOf(scenario)) == x + y;
  }

  lemma OppositeLetters(scenario: BootScenario) returns (i: nat, j: nat)
    requires Opposite(scenario).Some?
    ensures var needle := Line(Opposite(scenario).value);
            i < j < |needle| && needle[i] == '4' && needle[j] == CodeLetter(scenario)
  {
    hide Fields;
    var r := Fields(Opposite(scenario).value);
    OppositeFields(scenario);
    i := 30;
    assert Render(r)[30] == r.sequence[3];
    j := |Render(r)| - |r.code| + (if scenario == IncompatibleVersion then 0 else 1);
    assert Render(r)[j] == r.code[j - (|Render(r)| - |r.code|)];
  }

  lemma OppositeFields(scenario: BootScenario)
    requires Opposite(scenario).Some?
    ensures var r := Fields(Opposite(scenario).value);
            && |r.sequence| == 4 && r.sequence[3] == '4' && |r.code| > 1
            && r.code[if scenario == IncompatibleVersion then 0 else 1] == CodeLetter(scenario)
  {
  }

  /** However many bytes the UART drops, its copy never shows the other rejection's text. */
  lemma CopyLacksOpposite(scenario: BootScenario, copy: string)
    requires Opposite(scenario).Some? && Dropped(copy, SerialText(ConsoleOf(scenario)))
    ensures !Contains(copy, Line(Opposite(scenario).value))
  {
    hide Contains, Dropped, SerialText, Line, NeverAfter;
    TextNeverAfter(scenario);
    DroppedKeeps(copy, SerialText(ConsoleOf(scenario)), '4', CodeLetter(scenario));
    var i, j := OppositeLetters(scenario);
    LacksByOrder(copy, Line(Opposite(scenario).value), '4', CodeLetter(scenario), i, j);
  }

  /** Earlier text on the same port neither holds the needle nor ends with the start of it. */
  predicate QuietBefore(banner: string, needle: string) {
    !Contains(banner, needle) && forall i | 0 <= i < |banner| :: !(banner[i..] <= needle)
  }

  lemma StraddleDiffers(banner: string, copy: string, needle: string, i: nat)
    requires i < |banner| < i + |needle| <= |banner + copy| && !(banner[i..] <= needle)
    ensures !OccursAt(banner + copy, needle, i)
  {
    var head, n := banner[i..], |banner| - i;
    var k := FirstDifference(head, needle[..n]);
    var found := (banner + copy)[i..i + |needle|];
    assert found[k] == (banner + copy)[i + k] == head[k];
    assert needle[..n][k] == needle[k];
  }

  lemma FirstDifference(a: string, b: string) returns (k: nat)
    requires |a| == |b| && a != b
    ensures k < |a| && a[k] != b[k]
  {
    k :| 0 <= k < |a| && a[k] != b[k];
  }

  lemma JoinedLacks(banner: string, copy: string, needle: string)
    requires needle != "" && QuietBefore(banner, needle) && !Contains(copy, needle)
    ensures !Contains(banner + copy, needle)
  {
    var all := banner + copy;
    forall i | 0 <= i <= |all| - |needle|
      ensures !OccursAt(all, needle, i)
    {
      if i >= |banner| {
        assert !OccursAt(copy, needle, i - |banner|);
        assert all[i..i + |needle|] == copy[i - |banner|..i - |banner| + |needle|];
      } else if i + |needle| <= |banner| {
        assert !OccursAt(banner, needle, i);
        assert all[i..i + |needle|] == banner[i..i + |needle|];
      } else {
        StraddleDiffers(banner, copy, needle, i);
      }
    }
  }

  lemma PrefixLacks(log: string, n: nat, needle: string)
    requires n <= |log| && !Contains(log, needle)
    ensures !Contains(log[..n], needle)
  {
    forall i | 0 <= i <= n - |needle|
      ensures !OccursAt(log[..n], needle, i)
    {
      assert !OccursAt(log, needle, i);
      assert log[..n][i..i + |needle|] == log[i..i + |needle|];
    }
  }
}
