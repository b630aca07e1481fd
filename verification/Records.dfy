/**
  Diagnostic records and their line grammar.

  A log is a `string` whose characters stand for its bytes; nothing bounds them by 255, so
  what is proved for every string holds for every byte stream.
*/
module Records {
  import opened Machine

  const TAG := "POLYTOPE_BOOT"
  const MAX_DIAGNOSTIC_RECORD_BYTES: nat := 256

  datatype Record = Record(sequence: string, phase: string, level: string, code: string)

  /** `POLYTOPE_BOOT schema=1 seq=NNNN phase=PHASE level=LEVEL code=CODE` */
  function Render(r: Record): string {
    TAG + " " + ("schema=1" + " " + ("seq=" + r.sequence + " " + ("phase=" + r.phase + " " +
      ("level=" + r.level + " " + ("code=" + r.code)))))
  }

  /** The records that the loader and the kernel may emit. */
  datatype Marker =
    | StartMarker | ElfValidMarker | HandoffMarker
    | FileReadMarker | ConfigInvalidMarker | ElfInvalidMarker | AllocationMarker
    | KernelAddressMarker | ContractStorageMarker | ContractBuildMarker
    | LoaderPanic2Marker | LoaderPanic3Marker | LoaderPanic4Marker
    | ReadyMarker | AbiVersionMarker | ContractLengthMarker | ContractInvalidMarker | KernelPanicMarker

  function Fields(m: Marker): Record {
    match m
    case StartMarker => Record("0001", "loader", "info", "LOADER_START")
    case ElfValidMarker => Record("0002", "loader", "info", "ELF_VALID")
    case HandoffMarker => Record("0003", "handoff", "info", "HANDOFF_READY")
    case FileReadMarker => Record("0002", "loader", "error", "FILE_READ")
    case ConfigInvalidMarker => Record("0002", "loader", "error", "CONFIG_INVALID")
    case ElfInvalidMarker => Record("0002", "loader", "error", "ELF_INVALID")
    case AllocationMarker => Record("0002", "loader", "error", "ALLOCATION")
    case KernelAddressMarker => Record("0002", "loader", "error", "KERNEL_ADDRESS")
    case ContractStorageMarker => Record("0002", "loader", "error", "CONTRACT_STORAGE")
    case ContractBuildMarker => Record("0003", "handoff", "error", "CONTRACT_BUILD")
    case LoaderPanic2Marker => Record("0002", "loader", "fatal", "LOADER_PANIC")
    case LoaderPanic3Marker => Record("0003", "handoff", "fatal", "LOADER_PANIC")
    case LoaderPanic4Marker => Record("0004", "handoff", "fatal", "LOADER_PANIC")
    case ReadyMarker => Record("0004", "kernel_entry", "info", "KERNEL_READY")
    case AbiVersionMarker => Record("0004", "kernel_entry", "error", "ABI_VERSION")
    case ContractLengthMarker => Record("0004", "kernel_entry", "error", "CONTRACT_LENGTH")
    case ContractInvalidMarker => Record("0004", "kernel_entry", "error", "CONTRACT_INVALID")
    case KernelPanicMarker => Record("0005", "panic", "fatal", "KERNEL_PANIC")
  }

  function Line(m: Marker): string {
    Render(Fields(m))
  }

  // ---------------------------------------------------------------------------------
  // Fields and grammar.
  // ---------------------------------------------------------------------------------

  predicate StartsWith(s: string, prefix: string) {
    prefix <= s
  }

  /** `split(|byte| byte == b' ')` */
  function Split(s: string): (r: seq<string>)
    ensures |r| >= 1
  {
    if s == [] then [""]
    else
      var rest := Split(s[1..]);
      if s[0] == ' ' then [""] + rest else [[s[0]] + rest[0]] + rest[1..]
  }

  predicate IsDigit(c: char) { '0' <= c <= '9' }
  predicate IsLower(c: char) { 'a' <= c <= 'z' }
  predicate IsUpper(c: char) { 'A' <= c <= 'Z' }
  predicate IsAscii(c: char) { c < 128 as char }

  predicate PhaseChar(c: char) { IsLower(c) || IsDigit(c) || c == '_' }
  predicate CodeChar(c: char) { IsUpper(c) || IsDigit(c) || c == '_' }

  predicate AllOf(s: string, p: char -> bool) {
    forall i | 0 <= i < |s| :: p(s[i])
  }

  function ValidRecordGrammar(line: string): bool {
    if !AllOf(line, IsAscii) then false
    else
      var fields := Split(line);
      if |fields| != 6
         || fields[0] != TAG
         || fields[1] != "schema=1"
         || !StartsWith(fields[2], "seq=")
         || !StartsWith(fields[3], "phase=")
         || !StartsWith(fields[4], "level=")
         || !StartsWith(fields[5], "code=") then false
      else
        var sequence := fields[2][4..];
        var phase := fields[3][6..];
        var level := fields[4][6..];
        var code := fields[5][5..];
        && |sequence| == 4
        && AllOf(sequence, IsDigit)
        && phase != ""
        && AllOf(phase, PhaseChar)
        && (level == "info" || level == "error" || level == "fatal")
        && code != ""
        && AllOf(code, CodeChar)
  }

  function Decimal(digits: string): nat
    requires AllOf(digits, IsDigit)
  {
    if digits == [] then 0
    else Decimal(digits[..|digits| - 1]) * 10 + (digits[|digits| - 1] - '0') as nat
  }

  /** `str::parse::<u16>`: an optional `+`, then one or more digits, without overflow. */
  function ParseU16(text: string): Option<u16> {
    var digits := if |text| > 1 && text[0] == '+' then text[1..] else text;
    if digits == "" || !AllOf(digits, IsDigit) then None
    else if Decimal(digits) < U16_LIMIT then Some(Decimal(digits)) else None
  }

  predicate Spells(digits: string, value: nat) {
    digits != "" && AllOf(digits, IsDigit) && Decimal(digits) == value
  }

  /** A number parses exactly when it is spelled by digits, with or without a plus sign, and fits 16 bits. */
  lemma ParseU16Exactly(text: string, value: u16)
    ensures ParseU16(text) == Some(value)
       <==> Spells(text, value) || (text != "" && text[0] == '+' && Spells(text[1..], value))
  {
    hide Decimal;
    if text != "" && text[0] == '+' {
      assert !AllOf(text, IsDigit) by { assert !IsDigit(text[0]); }
    }
  }

  function RecordSequence(line: string): Option<u16> {
    var fields := Split(line);
    if |fields| <= 2 || !StartsWith(fields[2], "seq=") then None else ParseU16(fields[2][4..])
  }

  /** After the grammar check the sequence always parses: that rejection is never reported. */
  lemma GrammarHasSequence(line: string)
    requires ValidRecordGrammar(line)
    ensures RecordSequence(line).Some?
  {
    var digits := Split(line)[2][4..];
    assert IsDigit(digits[0]);
    FourDigits(digits);
  }

  lemma DecimalEmpty(d: string)
    requires d == "" && AllOf(d, IsDigit)
    ensures Decimal(d) == 0
  {
  }

  lemma DecimalStep(d: string, bound: nat)
    requires d != "" && AllOf(d, IsDigit)
    ensures AllOf(d[..|d| - 1], IsDigit)
    ensures Decimal(d[..|d| - 1]) < bound ==> Decimal(d) < 10 * bound
  {
    assert IsDigit(d[|d| - 1]);
  }

  lemma FourDigits(digits: string)
    requires |digits| == 4 && AllOf(digits, IsDigit)
    ensures Decimal(digits) < 10000
  {
    hide Decimal, AllOf;
    var d3 := digits[..3];
    DecimalStep(digits, 1000);
    DecimalStep(d3, 100);
    DecimalStep(d3[..2], 10);
    DecimalStep(d3[..2][..1], 1);
    DecimalEmpty(d3[..2][..1][..0]);
  }

  lemma {:induction false} SplitWord(a: string)
    requires ' ' !in a
    ensures Split(a) == [a]
  {
    if a != [] {
      SplitWord(a[1..]);
      assert a == [a[0]] + a[1..];
    }
  }

  lemma {:induction false} SplitCons(a: string, b: string)
    requires ' ' !in a
    ensures Split(a + " " + b) == [a] + Split(b)
  {
    if a == [] {
      assert (a + " " + b)[1..] == b;
    } else {
      SplitCons(a[1..], b);
      assert (a + " " + b)[1..] == a[1..] + " " + b;
      assert a == [a[0]] + a[1..];
    }
  }

  predicate WellFormed(r: Record) {
    && |r.sequence| == 4 && AllOf(r.sequence, IsDigit)
    && r.phase != "" && AllOf(r.phase, PhaseChar)
    && r.level in {"info", "error", "fatal"}
    && r.code != "" && AllOf(r.code, CodeChar)
  }

  lemma NoSpaces(s: string)
    requires AllOf(s, PhaseChar) || AllOf(s, CodeChar) || s in {"info", "error", "fatal"}
    ensures ' ' !in s
  {
  }

  lemma FieldsOfRender(r: Record)
    requires WellFormed(r)
    ensures Split(Render(r))
         == [TAG, "schema=1", "seq=" + r.sequence, "phase=" + r.phase, "level=" + r.level, "code=" + r.code]
  {
    hide Split;
    var f5 := "code=" + r.code;
    var f4 := "level=" + r.level;
    var f3 := "phase=" + r.phase;
    var f2 := "seq=" + r.sequence;
    assert ' ' !in f5 && ' ' !in f4 && ' ' !in f3 && ' ' !in f2 by {
      assert AllOf(r.sequence, PhaseChar);
      NoSpaces(r.sequence);
      NoSpaces(r.phase);
      NoSpaces(r.level);
      NoSpaces(r.code);
    }
    var tail4 := f4 + " " + f5;
    var tail3 := f3 + " " + tail4;
    var tail2 := f2 + " " + tail3;
    var tail1 := "schema=1" + " " + tail2;
    SplitWord(f5);
    SplitCons(f4, f5);
    SplitCons(f3, tail4);
    SplitCons(f2, tail3);
    SplitCons("schema=1", tail2);
    SplitCons(TAG, tail1);
    assert Render(r) == TAG + " " + tail1;
  }

  /** Distinct well-formed records have distinct lines. */
  lemma RenderInjective(a: Record, b: Record)
    requires WellFormed(a) && WellFormed(b) && Render(a) == Render(b)
    ensures a == b
  {
    hide Split, Render, WellFormed;
    FieldsOfRender(a);
    FieldsOfRender(b);
    var fa, fb := Split(Render(a)), Split(Render(b));
    assert fa[2][4..] == a.sequence && fb[2][4..] == b.sequence;
    assert fa[3][6..] == a.phase && fb[3][6..] == b.phase;
    assert fa[4][6..] == a.level && fb[4][6..] == b.level;
    assert fa[5][5..] == a.code && fb[5][5..] == b.code;
  }

  predicate IsNotNewline(c: char) { c != '\n' }

  predicate Printable(s: string) { AllOf(s, IsAscii) && AllOf(s, IsNotNewline) }

  lemma Joined(a: string, b: string)
    requires Printable(a) && Printable(b)
    ensures Printable(a + b) && Printable(a + " " + b)
  {
  }

  lemma PrintableFields(r: Record)
    requires WellFormed(r)
    ensures Printable(r.sequence) && Printable(r.phase) && Printable(r.level) && Printable(r.code)
    ensures Printable(TAG) && Printable("schema=1")
    ensures Printable("seq=") && Printable("phase=") && Printable("level=") && Printable("code=")
  {
    assert AllOf(r.level, PhaseChar);
  }

  lemma PrintableRender(r: Record)
    requires WellFormed(r)
    ensures Printable(Render(r))
  {
    hide Printable;
    PrintableFields(r);
    var f2, f3, f4, f5 := "seq=" + r.sequence, "phase=" + r.phase, "level=" + r.level, "code=" + r.code;
    Joined("seq=", r.sequence);
    Joined("phase=", r.phase);
    Joined("level=", r.level);
    Joined("code=", r.code);
    var tail4 := f4 + " " + f5;
    var tail3 := f3 + " " + tail4;
    var tail2 := f2 + " " + tail3;
    var tail1 := "schema=1" + " " + tail2;
    Joined(f4, f5);
    Joined(f3, tail4);
    Joined(f2, tail3);
    Joined("schema=1", tail2);
    Joined(TAG, tail1);
  }

  /** Every well-formed record passes the grammar and carries its own sequence number. */
  lemma RenderedGrammar(r: Record)
    requires WellFormed(r)
    ensures StartsWith(Render(r), TAG)
    ensures ValidRecordGrammar(Render(r))
    ensures RecordSequence(Render(r)) == Some(Decimal(r.sequence))
  {
    hide Split;
    FieldsOfRender(r);
    PrintableRender(r);
    FourDigits(r.sequence);
    var fields := Split(Render(r));
    assert fields[2][4..] == r.sequence;
    assert fields[3][6..] == r.phase;
    assert fields[4][6..] == r.level;
    assert fields[5][5..] == r.code;
    assert r.sequence[0] != '+';
  }

  // ---------------------------------------------------------------------------------
  // The grammar accepts rendered records and nothing else.
  // ---------------------------------------------------------------------------------

  function Join(fields: seq<string>): string
    requires fields != []
  {
    if |fields| == 1 then fields[0] else fields[0] + " " + Join(fields[1..])
  }

  lemma {:induction false} JoinSplit(s: string)
    ensures Join(Split(s)) == s
  {
    if s != "" {
      JoinSplit(s[1..]);
      var rest := Split(s[1..]);
      assert s == [s[0]] + s[1..];
      if s[0] == ' ' {
        assert ([""] + rest)[1..] == rest;
        assert "" + " " + Join(rest) == s;
      } else {
        var fields := [[s[0]] + rest[0]] + rest[1..];
        assert fields[1..] == rest[1..];
        if |rest| > 1 {
          assert [s[0]] + rest[0] + " " + Join(rest[1..]) == [s[0]] + (rest[0] + " " + Join(rest[1..]));
        }
      }
    }
  }

  lemma JoinSix(f: seq<string>)
    requires |f| == 6
    ensures Join(f) == f[0] + " " + (f[1] + " " + (f[2] + " " + (f[3] + " " + (f[4] + " " + f[5]))))
  {
    assert f[1..][1..] == f[2..] && f[2..][1..] == f[3..] && f[3..][1..] == f[4..] && f[4..][1..] == f[5..];
    assert Join(f[5..]) == f[5];
    assert Join(f[4..]) == f[4] + " " + f[5];
    assert Join(f[3..]) == f[3] + " " + Join(f[4..]);
    assert Join(f[2..]) == f[2] + " " + Join(f[3..]);
    assert Join(f[1..]) == f[1] + " " + Join(f[2..]);
  }

  lemma PrefixSplits(s: string, prefix: string)
    requires StartsWith(s, prefix)
    ensures s == prefix + s[|prefix|..]
  {
  }

  /** A line passes the grammar exactly when it is the text of a well-formed record. */
  lemma GrammarExactly(line: string)
    ensures ValidRecordGrammar(line) <==> exists r :: WellFormed(r) && line == Render(r)
  {
    if r :| WellFormed(r) && line == Render(r) {
      hide WellFormed, Render, ValidRecordGrammar;
      RenderedGrammar(r);
    }
    if ValidRecordGrammar(line) {
      hide Split, Join, AllOf;
      var f := Split(line);
      JoinSplit(line);
      JoinSix(f);
      PrefixSplits(f[2], "seq=");
      PrefixSplits(f[3], "phase=");
      PrefixSplits(f[4], "level=");
      PrefixSplits(f[5], "code=");
      var r := Record(f[2][4..], f[3][6..], f[4][6..], f[5][5..]);
      assert WellFormed(r);
      RenderNests(r);
      assert line == Render(r);
    }
  }

  lemma RenderNests(r: Record)
    ensures Render(r)
         == TAG + " " + ("schema=1" + " " + (("seq=" + r.sequence) + " " + (("phase=" + r.phase) + " " +
              (("level=" + r.level) + " " + ("code=" + r.code)))))
  {
  }

  /** The character classes of the fields, spelled out. */
  lemma CharacterClasses(c: char)
    ensures IsDigit(c) <==> c in {'0', '1', '2', '3', '4', '5', '6', '7', '8', '9'}
    ensures PhaseChar(c)
       <==> || IsDigit(c) || c == '_'
            || c in {'a', 'b', 'c', 'd', 'e', 'f', 'g', 'h', 'i', 'j', 'k', 'l', 'm',
                     'n', 'o', 'p', 'q', 'r', 's', 't', 'u', 'v', 'w', 'x', 'y', 'z'}
    ensures CodeChar(c)
       <==> || IsDigit(c) || c == '_'
            || c in {'A', 'B', 'C', 'D', 'E', 'F', 'G', 'H', 'I', 'J', 'K', 'L', 'M',
                     'N', 'O', 'P', 'Q', 'R', 'S', 'T', 'U', 'V', 'W', 'X', 'Y', 'Z'}
  {
    var v := c as int;
  }
}
