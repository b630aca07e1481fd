/** The bootstrap lexer of the Polytope language. */
module Lexer {
  import opened Machine

  datatype Span = Span(start: nat, end: nat)

  datatype TokenKind =
    | Function | Identifier(text: string) | Integer(value: u64)
    | LeftParen | RightParen | LeftBrace | RightBrace

  datatype Token = Token(kind: TokenKind, span: Span)

  datatype LexError = LexError(character: char, offset: nat)

  type Item = Result<Token, LexError>

  // ---------------------------------------------------------------------------------
  // Characters and byte offsets.
  // ---------------------------------------------------------------------------------

  /** `char::is_whitespace`: the Unicode White_Space property. */
  predicate IsWhitespace(c: char) {
    var v := c as int;
    || 0x09 <= v <= 0x0d || v == 0x20 || v == 0x85 || v == 0xa0 || v == 0x1680
    || 0x2000 <= v <= 0x200a || v == 0x2028 || v == 0x2029 || v == 0x202f || v == 0x205f || v == 0x3000
  }

  predicate IsDigit(c: char) { '0' <= c <= '9' }
  predicate IsAlphabetic(c: char) { 'a' <= c <= 'z' || 'A' <= c <= 'Z' }
  predicate StartsName(c: char) { IsAlphabetic(c) || c == '_' }
  predicate ContinuesName(c: char) { IsAlphabetic(c) || IsDigit(c) || c == '_' }

  function Punctuation(c: char): Option<TokenKind> {
    match c
    case '(' => Some(LeftParen)
    case ')' => Some(RightParen)
    case '{' => Some(LeftBrace)
    case '}' => Some(RightBrace)
    case _ => None
  }

  /** `char::len_utf8` */
  function Utf8Length(c: char): (n: nat)
    ensures 1 <= n <= 4
  {
    var v := c as int;
    if v < 0x80 then 1 else if v < 0x800 then 2 else if v < 0x1_0000 then 3 else 4
  }

  /** The byte offset of the character at index `i`. */
  function Offset(source: string, i: nat): nat
    requires i <= |source|
  {
    if i == 0 then 0 else Offset(source, i - 1) + Utf8Length(source[i - 1])
  }

  lemma {:induction false} OffsetMonotone(source: string, i: nat, j: nat)
    requires i <= j <= |source|
    ensures Offset(source, i) <= Offset(source, j)
    ensures i < j ==> Offset(source, i) < Offset(source, j)
  {
    if i < j {
      OffsetMonotone(source, i, j - 1);
    }
  }

  // ---------------------------------------------------------------------------------
  // One call of `next`, on character indices.
  // ---------------------------------------------------------------------------------

  /** The first index from `i` whose character does not satisfy `p`. */
  function SkipWhile(source: string, i: nat, p: char -> bool): (j: nat)
    requires i <= |source|
    ensures i <= j <= |source|
    ensures forall k | i <= k < j :: p(source[k])
    ensures j < |source| ==> !p(source[j])
    decreases |source| - i
  {
    if i < |source| && p(source[i]) then SkipWhile(source, i + 1, p) else i
  }

  function DigitValue(c: char): nat
    requires IsDigit(c)
  {
    (c - '0') as nat
  }

  /** The value of the digits in `source[i..j]`. */
  function Decimal(source: string, i: nat, j: nat): nat
    requires i <= j <= |source| && forall k | i <= k < j :: IsDigit(source[k])
  {
    if i == j then 0 else Decimal(source, i, j - 1) * 10 + DigitValue(source[j - 1])
  }

  /** The first index from `i` at which the run of digits ends or its value stops fitting in a `u64`. */
  function NumberEnd(source: string, start: nat, i: nat): (j: nat)
    requires start <= i <= |source| && forall k | start <= k < i :: IsDigit(source[k])
    requires Decimal(source, start, i) < U64_LIMIT
    ensures i <= j <= |source|
    ensures forall k | start <= k < j :: IsDigit(source[k])
    ensures Decimal(source, start, j) < U64_LIMIT
    ensures j < |source| && IsDigit(source[j]) ==> Decimal(source, start, j + 1) >= U64_LIMIT
    decreases |source| - i
  {
    if i < |source| && IsDigit(source[i]) && Decimal(source, start, i + 1) < U64_LIMIT
    then NumberEnd(source, start, i + 1) else i
  }

  datatype Step = Done(at: nat) | Yield(item: Item, next: nat)

  function SpanOf(source: string, i: nat, j: nat): Span
    requires i <= j <= |source|
  {
    Span(Offset(source, i), Offset(source, j))
  }

  /** A name or keyword that starts at `start`. */
  function LexName(source: string, start: nat): Step
    requires start < |source|
  {
    var end := SkipWhile(source, start + 1, ContinuesName);
    var text := source[start..end];
    Yield(Ok(Token(if text == "fn" then Function else Identifier(text), SpanOf(source, start, end))), end)
  }

  /** A number that starts at `start`, or the digit at which it overflows. */
  function LexNumber(source: string, start: nat): Step
    requires start < |source|
  {
    var end := NumberEnd(source, start, start);
    if end < |source| && IsDigit(source[end]) then
      Yield(Err(LexError(source[end], Offset(source, end))), end)
    else
      Yield(Ok(Token(Integer(Decimal(source, start, end)), SpanOf(source, start, end))), end)
  }

  /** The item whose first character is at `start`. */
  function LexItem(source: string, start: nat): Step
    requires start < |source|
  {
    var c := source[start];
    if Punctuation(c).Some? then
      Yield(Ok(Token(Punctuation(c).value, SpanOf(source, start, start + 1))), start + 1)
    else if StartsName(c) then LexName(source, start)
    else if IsDigit(c) then LexNumber(source, start)
    else Yield(Err(LexError(c, Offset(source, start))), start + 1)
  }

  /** What `next` does from the character at index `i`. */
  function Next(source: string, i: nat): Step
    requires i <= |source|
  {
    var start := SkipWhile(source, i, IsWhitespace);
    if start == |source| then Done(start) else LexItem(source, start)
  }

  class Stream {
    const source: string
    /** Index of the next character, and its byte offset. */
    var index: nat
    var offset: nat

    ghost predicate Valid()
      reads this
    {
      index <= |source| && offset == Offset(source, index)
    }

    constructor (source: string)
      ensures this.source == source && index == 0 && Valid()
    {
      this.source := source;
      index := 0;
      offset := 0;
    }

    method Advance()
      requires Valid() && index < |source|
      modifies this
      ensures Valid() && index == old(index) + 1
    {
      offset := offset + Utf8Length(source[index]);
      index := index + 1;
    }

    method SkipSpaces()
      requires Valid()
      modifies this
      ensures Valid() && index == SkipWhile(source, old(index), IsWhitespace)
    {
      while index < |source| && IsWhitespace(source[index])
        invariant Valid()
        invariant SkipWhile(source, index, IsWhitespace) == SkipWhile(source, old(index), IsWhitespace)
        decreases |source| - index
      {
        Advance();
      }
    }

    /** `Lexer::next`: the item and the new position are those of `Next`. */
    method NextItem() returns (item: Option<Item>)
      requires Valid()
      modifies this
      ensures Valid()
      ensures match Next(source, old(index))
              case Done(at) => item == None && index == at
              case Yield(it, next) => item == Some(it) && index == next
    {
      hide LexName, LexNumber, Offset, SkipWhile;
      SkipSpaces();
      if index == |source| {
        return None;
      }
      var start := offset;
      var character := source[index];
      var punctuation := Punctuation(character);
      if punctuation.Some? {
        Advance();
        return Some(Ok(Token(punctuation.value, Span(start, offset))));
      }
      if StartsName(character) {
        item := Name();
        return;
      }
      if IsDigit(character) {
        item := Number();
        return;
      }
      Advance();
      return Some(Err(LexError(character, start)));
    }

    method Name() returns (item: Option<Item>)
      requires Valid() && index < |source|
      modifies this
      ensures Valid() && item.Some? && LexName(source, old(index)) == Yield(item.value, index)
    {
      hide Offset;
      var first, start := index, offset;
      Advance();
      while index < |source| && ContinuesName(source[index])
        invariant Valid() && first < index
        invariant SkipWhile(source, index, ContinuesName) == SkipWhile(source, first + 1, ContinuesName)
        decreases |source| - index
      {
        Advance();
      }
      var text := source[first..index];
      return Some(Ok(Token(if text == "fn" then Function else Identifier(text), Span(start, offset))));
    }

    /** The checked decimal accumulation, which stops in place at the digit that overflows. */
    method Number() returns (item: Option<Item>)
      requires Valid() && index < |source|
      modifies this
      ensures Valid() && item.Some? && LexNumber(source, old(index)) == Yield(item.value, index)
    {
      hide Offset, Decimal, NumberEnd;
      var first, start := index, offset;
      var value: u64 := 0;
      NoDigits(source, first);
      while index < |source| && IsDigit(source[index])
        invariant Valid() && first <= index
        invariant forall k | first <= k < index :: IsDigit(source[k])
        invariant value == Decimal(source, first, index)
        invariant NumberEnd(source, first, index) == NumberEnd(source, first, first)
        decreases |source| - index
      {
        var digit := DigitValue(source[index]);
        var scaled := CheckedMul(value, 10);
        var updated := if scaled.None? then None else CheckedAdd(scaled.value, digit);
        NumberStep(source, first, index);
        if updated.None? {
          return Some(Err(LexError(source[index], offset)));
        }
        value := updated.value;
        Advance();
      }
      NumberStep(source, first, index);
      return Some(Ok(Token(Integer(value), Span(start, offset))));
    }
  }

  lemma NoDigits(source: string, first: nat)
    requires first <= |source|
    ensures Decimal(source, first, first) == 0
  {
  }

  lemma NumberStep(source: string, first: nat, i: nat)
    requires first <= i <= |source| && forall k | first <= k < i :: IsDigit(source[k])
    requires Decimal(source, first, i) < U64_LIMIT
    ensures if i < |source| && IsDigit(source[i])
            then && Decimal(source, first, i + 1) == Decimal(source, first, i) * 10 + DigitValue(source[i])
                 && NumberEnd(source, first, i)
                    == if Decimal(source, first, i + 1) < U64_LIMIT then NumberEnd(source, first, i + 1) else i
            else NumberEnd(source, first, i) == i
  {
  }

  // ---------------------------------------------------------------------------------
  // Progress and whole streams.
  // ---------------------------------------------------------------------------------

  /** Every item strictly advances, so lexing always terminates; the end means only whitespace is left. */
  lemma NextAdvances(source: string, i: nat)
    requires i <= |source|
    ensures match Next(source, i)
            case Yield(_, next) => i < next <= |source|
            case Done(at) => at == |source| && forall k | i <= k < |source| :: IsWhitespace(source[k])
  {
    var start := SkipWhile(source, i, IsWhitespace);
    if start < |source| && IsDigit(source[start]) {
      FirstDigitFits(source, start);
    }
  }

  lemma FirstDigitFits(source: string, start: nat)
    requires start < |source| && IsDigit(source[start])
    ensures NumberEnd(source, start, start) > start
  {
    assert Decimal(source, start, start + 1) == Decimal(source, start, start) * 10 + DigitValue(source[start]);
  }

  /** All items from index `i`, each with the index it leaves behind. */
  function LexFrom(source: string, i: nat): seq<(Item, nat)>
    requires i <= |source|
    decreases |source| - i
  {
    NextAdvances(source, i);
    match Next(source, i)
    case Done(_) => []
    case Yield(item, next) => [(item, next)] + LexFrom(source, next)
  }

  /** A number stops exactly at the first digit that pushes its value past the largest `u64`. */
  lemma NumberOverflowsExactly(source: string, i: nat)
    requires i <= |source|
    ensures var start := SkipWhile(source, i, IsWhitespace);
            start < |source| && IsDigit(source[start]) ==>
              match Next(source, i)
              case Yield(Ok(token), end) =>
                && (forall k | start <= k < end :: IsDigit(source[k]))
                && (end < |source| ==> !IsDigit(source[end]))
                && Decimal(source, start, end) < U64_LIMIT
                && token == Token(Integer(Decimal(source, start, end)), SpanOf(source, start, end))
              case Yield(Err(e), at) =>
                && start < at < |source| && (forall k | start <= k <= at :: IsDigit(source[k]))
                && e == LexError(source[at], Offset(source, at))
                && Decimal(source, start, at) < U64_LIMIT <= Decimal(source, start, at + 1)
              case Done(_) => false
  {
    var start := SkipWhile(source, i, IsWhitespace);
    if start < |source| && IsDigit(source[start]) {
      FirstDigitFits(source, start);
    }
  }

  const DIGITS: set<char> := {'0', '1', '2', '3', '4', '5', '6', '7', '8', '9'}
  const LOWER: set<char> :=
    {'a', 'b', 'c', 'd', 'e', 'f', 'g', 'h', 'i', 'j', 'k', 'l', 'm',
     'n', 'o', 'p', 'q', 'r', 's', 't', 'u', 'v', 'w', 'x', 'y', 'z'}
  const UPPER: set<char> :=
    {'A', 'B', 'C', 'D', 'E', 'F', 'G', 'H', 'I', 'J', 'K', 'L', 'M',
     'N', 'O', 'P', 'Q', 'R', 'S', 'T', 'U', 'V', 'W', 'X', 'Y', 'Z'}
  const LETTERS: set<char> := LOWER + UPPER

  lemma Letters(c: char)
    ensures 'a' <= c <= 'z' <==> c in LOWER
    ensures 'A' <= c <= 'Z' <==> c in UPPER
  {
    var v := c as int;
  }

  /** The character classes of the lexer, spelled out. */
  lemma CharacterClasses(c: char)
    ensures IsDigit(c) <==> c in DIGITS
    ensures IsAlphabetic(c) <==> c in LETTERS
    ensures StartsName(c) <==> c == '_' || c in LETTERS
    ensures ContinuesName(c) <==> c == '_' || c in LETTERS || c in DIGITS
  {
    hide LOWER, UPPER;
    Letters(c);
    var v := c as int;
  }

  /** The code points with the White_Space property. */
  lemma CharacterCodes(c: char)
    ensures IsWhitespace(c)
       <==> c as int in {9, 10, 11, 12, 13, 0x20, 0x85, 0xa0, 0x1680, 0x2000, 0x2001, 0x2002, 0x2003, 0x2004, 0x2005,
                         0x2006, 0x2007, 0x2008, 0x2009, 0x200a, 0x2028, 0x2029, 0x202f, 0x205f, 0x3000}
  {
    var v := c as int;
    if 0x2000 <= v <= 0x200a {
      assert v == 0x2000 || v == 0x2001 || v == 0x2002 || v == 0x2003 || v == 0x2004 || v == 0x2005
          || v == 0x2006 || v == 0x2007 || v == 0x2008 || v == 0x2009 || v == 0x200a;
    } else if 9 <= v <= 13 {
      assert v == 9 || v == 10 || v == 11 || v == 12 || v == 13;
    }
  }

  lemma ByteLengths(c: char)
    ensures Utf8Length(c) == 1 <==> c as int <= 0x7f
    ensures Utf8Length(c) == 2 <==> 0x80 <= c as int <= 0x7ff
    ensures Utf8Length(c) == 3 <==> 0x800 <= c as int <= 0xffff
    ensures Utf8Length(c) == 4 <==> 0x1_0000 <= c as int
  {
  }

  /** The value of a digit, spelled out. */
  lemma DigitValues()
    ensures DigitValue('0') == 0 && DigitValue('1') == 1 && DigitValue('2') == 2 && DigitValue('3') == 3
    ensures DigitValue('4') == 4 && DigitValue('5') == 5 && DigitValue('6') == 6 && DigitValue('7') == 7
    ensures DigitValue('8') == 8 && DigitValue('9') == 9
  {
  }

  /** What the item at a character that is not whitespace is, by that character. */
  lemma ItemByFirst(source: string, i: nat)
    requires i < |source| && !IsWhitespace(source[i])
    ensures Next(source, i).Yield?
    ensures var item, c := Next(source, i).item, source[i];
            && (item.Ok? && item.value.kind == LeftParen <==> c == '(')
            && (item.Ok? && item.value.kind == RightParen <==> c == ')')
            && (item.Ok? && item.value.kind == LeftBrace <==> c == '{')
            && (item.Ok? && item.value.kind == RightBrace <==> c == '}')
            && (item.Ok? && (item.value.kind.Identifier? || item.value.kind.Function?) <==> c == '_' || c in LETTERS)
            && (item.Ok? && item.value.kind.Integer? <==> c in DIGITS && !Overflows(item))
            && (item.Err? && !Overflows(item)
                <==> c !in {'(', ')', '{', '}', '_'} && c !in LETTERS && c !in DIGITS)
            && (item.Err? && !Overflows(item) ==> item.error == LexError(c, Offset(source, i)))
  {
    hide Offset, LETTERS, DIGITS;
    CharacterClasses(source[i]);
    assert SkipWhile(source, i, IsWhitespace) == i;
    MarksStandApart(source[i]);
    if IsDigit(source[i]) {
      NumberLies(source, i);
    }
  }

  lemma MarksStandApart(c: char)
    ensures c in {'(', ')', '{', '}'} ==> !IsDigit(c) && !StartsName(c)
  {
  }

  /** The longest text of the token's class that starts there. */
  predicate MaximalMunch(source: string, start: nat, end: nat, kind: TokenKind)
    requires start < end <= |source|
  {
    match kind
    case Integer(value) =>
      && (forall k | start <= k < end :: IsDigit(source[k]))
      && (end < |source| ==> !IsDigit(source[end]))
      && value == Decimal(source, start, end)
    case Identifier(text) => MaximalName(source, start, end) && text == source[start..end] != "fn"
    case Function => MaximalName(source, start, end) && source[start..end] == "fn"
    case LeftParen => end == start + 1 && source[start] == '('
    case RightParen => end == start + 1 && source[start] == ')'
    case LeftBrace => end == start + 1 && source[start] == '{'
    case RightBrace => end == start + 1 && source[start] == '}'
  }

  predicate MaximalName(source: string, start: nat, end: nat)
    requires start < end <= |source|
  {
    && StartsName(source[start])
    && (forall k | start < k < end :: ContinuesName(source[k]))
    && (end < |source| ==> !ContinuesName(source[end]))
  }

  lemma {:induction false} DecimalOfSlice(source: string, start: nat, end: nat, j: nat)
    requires start <= j <= end <= |source| && forall k | start <= k < end :: IsDigit(source[k])
    ensures Decimal(source[start..end], 0, j - start) == Decimal(source, start, j)
  {
    if j > start {
      DecimalOfSlice(source, start, end, j - 1);
    }
  }

  lemma {:induction false} SkipsAll(s: string, i: nat, p: char -> bool)
    requires i <= |s| && forall k | i <= k < |s| :: p(s[k])
    ensures SkipWhile(s, i, p) == |s|
  {
    var j := SkipWhile(s, i, p);
  }

  lemma NameRelexes(source: string, start: nat)
    requires start < |source| && StartsName(source[start])
    ensures LexName(source, start).Yield? && LexName(source, start).item.Ok?
    ensures var end := LexName(source, start).next;
            && start < end <= |source|
            && var alone := LexName(source[start..end], 0);
               && alone.Yield? && alone.item.Ok? && alone.next == end - start
               && alone.item.value.kind == LexName(source, start).item.value.kind
  {
    hide Offset;
    var end := SkipWhile(source, start + 1, ContinuesName);
    var text := source[start..end];
    SkipsAll(text, 1, ContinuesName);
    assert text[0..|text|] == text;
  }

  lemma NumberRelexes(source: string, start: nat)
    requires start < |source| && IsDigit(source[start]) && LexNumber(source, start).item.Ok?
    ensures var end := LexNumber(source, start).next;
            && start < end <= |source|
            && var alone := LexNumber(source[start..end], 0);
               && alone.Yield? && alone.item.Ok? && alone.next == end - start
               && alone.item.value.kind == LexNumber(source, start).item.value.kind
  {
    hide Offset;
    FirstDigitFits(source, start);
    var end := NumberEnd(source, start, start);
    DigitsRelex(source, start, end);
  }

  /** Re-lexing the text of a token alone gives the same kind and consumes all of it. */
  lemma TokenRelexes(source: string, i: nat)
    requires i <= |source| && Next(source, i).Yield? && Next(source, i).item.Ok?
    ensures var start := SkipWhile(source, i, IsWhitespace);
            var end := Next(source, i).next;
            && start < end <= |source|
            && var alone := Next(source[start..end], 0);
               && alone.Yield? && alone.item.Ok? && alone.next == end - start
               && alone.item.value.kind == Next(source, i).item.value.kind
  {
    hide LexName, LexNumber, Offset;
    var start := SkipWhile(source, i, IsWhitespace);
    if StartsName(source[start]) {
      NameRelexes(source, start);
    } else if IsDigit(source[start]) {
      NumberRelexes(source, start);
    }
    var end := Next(source, i).next;
    var text := source[start..end];
    assert text[0] == source[start];
    assert SkipWhile(text, 0, IsWhitespace) == 0;
    assert Next(text, 0) == LexItem(text, 0);
  }

  lemma DigitsRelex(source: string, start: nat, end: nat)
    requires start < end <= |source| && (forall k | start <= k < end :: IsDigit(source[k]))
    requires Decimal(source, start, end) < U64_LIMIT
    ensures NumberEnd(source[start..end], 0, 0) == end - start
    ensures Decimal(source[start..end], 0, end - start) == Decimal(source, start, end)
  {
    var text := source[start..end];
    DecimalOfSlice(source, start, end, end);
    var j := NumberEnd(text, 0, 0);
    if j < |text| {
      assert IsDigit(text[j]);
      DecimalGrows(text, j + 1, |text|);
    }
  }

  lemma {:induction false} DecimalGrows(s: string, i: nat, j: nat)
    requires i <= j <= |s| && forall k | 0 <= k < |s| :: IsDigit(s[k])
    ensures Decimal(s, 0, i) <= Decimal(s, 0, j)
  {
    if i < j {
      DecimalGrows(s, i, j - 1);
    }
  }

  predicate ErrorFree(items: seq<(Item, nat)>) {
    forall k | 0 <= k < |items| :: items[k].0.Ok?
  }

  /** From index `i`, `items` are tokens one after another with only whitespace before, between and after them. */
  predicate Tiled(source: string, i: nat, items: seq<(Item, nat)>)
    requires i <= |source|
    decreases |items|
  {
    if items == [] then forall k | i <= k < |source| :: IsWhitespace(source[k])
    else
      && i < items[0].1 <= |source|
      && TokenAt(source, i, items[0])
      && Tiled(source, items[0].1, items[1..])
  }

  /** The item is a token whose span ends where it left off and starts after whitespace only. */
  predicate TokenAt(source: string, i: nat, item: (Item, nat))
    requires i <= |source| && item.1 <= |source|
  {
    var start := SkipWhile(source, i, IsWhitespace);
    && item.0.Ok? && start < item.1
    && item.0.value.span == SpanOf(source, start, item.1)
    && MaximalMunch(source, start, item.1, item.0.value.kind)
  }

  /** Every token is preceded by whitespace only and is the maximal munch of its class. */
  lemma TokenIsMaximalMunch(source: string, i: nat)
    requires i <= |source| && Next(source, i).Yield? && Next(source, i).item.Ok?
    ensures i < Next(source, i).next <= |source|
    ensures TokenAt(source, i, (Next(source, i).item, Next(source, i).next))
  {
    NextAdvances(source, i);
    var start := SkipWhile(source, i, IsWhitespace);
    if IsDigit(source[start]) {
      FirstDigitFits(source, start);
    }
  }

  lemma TailErrorFree(items: seq<(Item, nat)>)
    requires items != [] && ErrorFree(items)
    ensures ErrorFree(items[1..])
  {
  }

  /** On error-free input the tokens and whitespace tile the source. */
  lemma {:induction false} TokensTile(source: string, i: nat)
    requires i <= |source| && ErrorFree(LexFrom(source, i))
    ensures Tiled(source, i, LexFrom(source, i))
    decreases |source| - i
  {
    hide Next, TokenAt;
    NextAdvances(source, i);
    var items := LexFrom(source, i);
    if Next(source, i).Yield? {
      var next := Next(source, i).next;
      assert items[1..] == LexFrom(source, next);
      TailErrorFree(items);
      assert items[0].0.Ok?;
      TokenIsMaximalMunch(source, i);
      TokensTile(source, next);
    }
  }

  // ---------------------------------------------------------------------------------
  // Order over every stream, with or without errors.
  // ---------------------------------------------------------------------------------

  /** An error on a digit is an overflow, which leaves that digit to the next item. */
  predicate Overflows(item: Item) {
    item.Err? && IsDigit(item.error.character)
  }

  function Begin(item: Item): nat {
    if item.Ok? then item.value.span.start else item.error.offset
  }

  function End(item: Item): nat {
    if item.Ok? then item.value.span.end
    else if Overflows(item) then item.error.offset
    else item.error.offset + Utf8Length(item.error.character)
  }

  /** The next item lies after what was lexed, is nonempty unless an overflow, and lexing moves to its end. */
  lemma NextLies(source: string, i: nat)
    requires i <= |source| && Next(source, i).Yield?
    ensures var item := Next(source, i).item;
            var next := Next(source, i).next;
            && i < next <= |source|
            && Offset(source, i) <= Begin(item) && End(item) == Offset(source, next)
            && (if Overflows(item) then Begin(item) == End(item) && next < |source| && IsDigit(source[next])
                else Begin(item) < End(item))
  {
    NextAdvances(source, i);
    var start := SkipWhile(source, i, IsWhitespace);
    var next := Next(source, i).next;
    OffsetMonotone(source, i, start);
    OffsetMonotone(source, start, next);
    if IsDigit(source[start]) {
      NumberLies(source, start);
    } else {
      hide LexNumber;
    }
  }

  lemma NumberLies(source: string, start: nat)
    requires start < |source| && IsDigit(source[start])
    ensures var step := LexNumber(source, start);
            && start < step.next <= |source| && End(step.item) == Offset(source, step.next)
            && (step.item.Ok? ==> Begin(step.item) == Offset(source, start))
            && (step.item.Err? ==> Overflows(step.item) && step.next < |source| && IsDigit(source[step.next])
                                   && Begin(step.item) == Offset(source, step.next))
  {
    hide Offset;
    FirstDigitFits(source, start);
  }

  /** Every item lies after `from` and after every earlier one; all but overflows are nonempty. */
  predicate OrderedItems(items: seq<(Item, nat)>, from: nat) {
    && (forall k | 0 <= k < |items| ::
          && from <= Begin(items[k].0) <= End(items[k].0)
          && (!Overflows(items[k].0) ==> Begin(items[k].0) < End(items[k].0)))
    && (forall j, k | 0 <= j < k < |items| :: End(items[j].0) <= Begin(items[k].0))
  }

  /**
    On every source: token spans are nonempty, ordered and disjoint over the whole stream,
    and every error lies between its neighbours.
  */
  lemma {:induction false} ItemsOrdered(source: string, i: nat)
    requires i <= |source|
    ensures OrderedItems(LexFrom(source, i), Offset(source, i))
    decreases |source| - i
  {
    hide Next, Offset, Begin, End, Overflows;
    if Next(source, i).Yield? {
      var items := LexFrom(source, i);
      NextLies(source, i);
      var next := Next(source, i).next;
      ItemsOrdered(source, next);
      assert items[1..] == LexFrom(source, next);
      OffsetMonotone(source, i, next);
      ItemsCons(items, Offset(source, i));
    }
  }

  lemma ItemsCons(items: seq<(Item, nat)>, from: nat)
    requires items != [] && from <= Begin(items[0].0) <= End(items[0].0)
    requires !Overflows(items[0].0) ==> Begin(items[0].0) < End(items[0].0)
    requires OrderedItems(items[1..], End(items[0].0))
    ensures OrderedItems(items, from)
  {
    hide Begin, End, Overflows;
    var rest := items[1..];
    assert forall k | 0 < k < |items| :: items[k] == rest[k - 1];
  }

  /**
    After an overflow there is always another item: a number that starts at the offending
    digit, or one that starts there and overflows in turn further on.
  */
  lemma {:induction false} OverflowResumes(source: string, i: nat, k: nat)
    requires i <= |source| && k < |LexFrom(source, i)| && Overflows(LexFrom(source, i)[k].0)
    ensures k + 1 < |LexFrom(source, i)|
    ensures var error, following := LexFrom(source, i)[k].0.error, LexFrom(source, i)[k + 1].0;
            if following.Ok? then following.value.kind.Integer? && following.value.span.start == error.offset
            else Overflows(following) && error.offset < following.error.offset
    decreases |source| - i
  {
    hide Next, Offset;
    NextAdvances(source, i);
    var next := Next(source, i).next;
    var items := LexFrom(source, i);
    assert items[1..] == LexFrom(source, next);
    if k > 0 {
      assert items[k] == items[1..][k - 1];
      OverflowResumes(source, next, k - 1);
      assert items[k + 1] == items[1..][k];
    } else {
      NextLies(source, i);
      ResumesAt(source, next);
      assert items[1] == LexFrom(source, next)[0];
    }
  }

  lemma ResumesAt(source: string, at: nat)
    requires at < |source| && IsDigit(source[at])
    ensures Next(source, at).Yield?
    ensures var item := Next(source, at).item;
            if item.Ok? then item.value.kind.Integer? && item.value.span.start == Offset(source, at)
            else Overflows(item) && Offset(source, at) < item.error.offset
  {
    NumberLies(source, at);
    OffsetMonotone(source, at, Next(source, at).next);
  }
}
