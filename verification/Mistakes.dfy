/** Which texts are not JSON, and how: for each code of the strict parser the texts that earn it, and where. A
    mistake stands inside lists and records that are spelled up to its place, or behind a complete value; what
    is in front of it is read as spelled, so that the mistake is what the parser meets. */
module Mistakes {
  import opened Utf16
  import opened Parsing
  import opened Numbers
  import opened Strings
  import opened Json
  import opened StrictJson
  import opened Spellings
  import opened Language
  import opened LanguageExact

  // ---------------------------------------------------------------------
  // Open lists and records
  // ---------------------------------------------------------------------

  /** Something open in front of a value: a list with the items read so far, or a record with its fields so far
      and the name of the next one. */
  datatype Frame =
    | InList(before: Text, items: seq<Item>)
    | InRecord(before: Text, fields: seq<Field>, nameBefore: Text, name: seq<Piece>, colonBefore: Text)

  /** Items, a comma behind each, then `tail`. */
  function ListSoFar(items: seq<Item>, tail: Text): Text {
    if items == [] then tail
    else items[0].before + Spelled(items[0].value, items[0].after + ([0x2C] + ListSoFar(items[1..], tail)))
  }

  /** Fields, a comma behind each, then `tail`. */
  function RecordSoFar(fields: seq<Field>, tail: Text): Text {
    if fields == [] then tail
    else fields[0].before + SpelledField(fields[0], fields[0].after + ([0x2C] + RecordSoFar(fields[1..], tail)))
  }

  function Named(name: seq<Piece>, tail: Text): Text { [0x22] + (PiecesText(name) + ([0x22] + tail)) }

  function Inside(frame: Frame, tail: Text): Text {
    match frame
    case InList(before, items) => before + ([0x5B] + ListSoFar(items, tail))
    case InRecord(before, fields, nameBefore, name, colonBefore) =>
      before + ([0x7B] + RecordSoFar(fields, nameBefore + Named(name, colonBefore + ([0x3A] + tail))))
  }

  /** `tail` inside all the frames, the first one outermost. */
  function InsideAll(frames: seq<Frame>, tail: Text): Text {
    if frames == [] then tail else Inside(frames[0], InsideAll(frames[1..], tail))
  }

  ghost predicate LegalRecord(fields: seq<Field>, round: Rounding) {
    LegalFields(fields, round) && NamesDiffer(fields)
  }

  predicate NameTaken(fields: seq<Field>, units: Text) {
    exists i :: 0 <= i < |fields| && LegalPieces(fields[i].name) && PiecesUnits(fields[i].name) == units
  }

  ghost predicate LegalFrame(frame: Frame, round: Rounding) {
    match frame
    case InList(before, items) => IsGap(before) && LegalItems(items, round)
    case InRecord(before, fields, nameBefore, name, colonBefore) =>
      && IsGap(before) && LegalRecord(fields, round) && IsGap(nameBefore) && IsGap(colonBefore)
      && LegalPieces(name) && !NameTaken(fields, PiecesUnits(name))
  }

  ghost predicate LegalFrames(frames: seq<Frame>, round: Rounding) {
    forall i :: 0 <= i < |frames| ==> LegalFrame(frames[i], round)
  }

  // ---------------------------------------------------------------------
  // Mistakes inside a string
  // ---------------------------------------------------------------------

  predicate IsHighUnit(u: CodeUnit) { 0xD800 <= u <= 0xDBFF }

  predicate IsLowUnit(u: CodeUnit) { 0xDC00 <= u <= 0xDFFF }

  /** The text begins with four hexadecimal digits. */
  predicate HexFirst(t: Text) { |t| >= 4 && IsHex4(t[..4]) }

  /** What stands behind the last good character; `rest` begins where the mistake is reported. */
  datatype TextMistake =
    | Unclosed
    | Control(rest: Text)
    | LoneHigh(rest: Text)
    | LoneLow(rest: Text)
    | CutEscape
    | BadEscape(rest: Text)
    | BadHex(rest: Text)
    | LowCode(rest: Text)
    | HighCodeAlone(hex: Text, rest: Text)
    | BadSecondHex(hex: Text, rest: Text)
    | SecondNotLow(hex: Text, rest: Text)

  function TextOf(m: TextMistake): Text {
    match m
    case Unclosed => []
    case Control(rest) => rest
    case LoneHigh(rest) => rest
    case LoneLow(rest) => rest
    case CutEscape => [0x5C]
    case BadEscape(rest) => rest
    case BadHex(rest) => [0x5C, 0x75] + rest
    case LowCode(rest) => [0x5C, 0x75] + rest
    case HighCodeAlone(hex, rest) => [0x5C, 0x75] + hex + rest
    case BadSecondHex(hex, rest) => [0x5C, 0x75] + hex + [0x5C, 0x75] + rest
    case SecondNotLow(hex, rest) => [0x5C, 0x75] + hex + [0x5C, 0x75] + rest
  }

  function TextRest(m: TextMistake): Text {
    if m.Unclosed? || m.CutEscape? then [] else m.rest
  }

  predicate LegalTextMistake(m: TextMistake) {
    match m
    case Unclosed => true
    case Control(rest) => rest != [] && rest[0] < 0x20
    case LoneHigh(rest) => rest != [] && IsHighUnit(rest[0]) && !(|rest| > 1 && IsLowUnit(rest[1]))
    case LoneLow(rest) => rest != [] && IsLowUnit(rest[0])
    case CutEscape => true
    case BadEscape(rest) => |rest| > 1 && rest[0] == 0x5C && !LegalPiece(Short(rest[1])) && rest[1] != 0x75
    case BadHex(rest) => !HexFirst(rest)
    case LowCode(rest) => HexFirst(rest) && IsLowUnit(HexValue(rest[..4]))
    case HighCodeAlone(hex, rest) => IsHex4(hex) && IsHighUnit(HexValue(hex)) && !([0x5C, 0x75] <= rest)
    case BadSecondHex(hex, rest) => IsHex4(hex) && IsHighUnit(HexValue(hex)) && !HexFirst(rest)
    case SecondNotLow(hex, rest) =>
      IsHex4(hex) && IsHighUnit(HexValue(hex)) && HexFirst(rest) && !IsLowUnit(HexValue(rest[..4]))
  }

  function TextCode(m: TextMistake): ErrorCode {
    match m
    case Unclosed => UnterminatedString
    case Control(_) => UnescapedControlCharacter
    case LoneHigh(_) => UnpairedHighSurrogate
    case LoneLow(_) => UnpairedLowSurrogate
    case CutEscape => InvalidEscape
    case BadEscape(_) => InvalidEscape
    case BadHex(_) => InvalidUnicodeEscape
    case LowCode(_) => UnpairedLowSurrogate
    case HighCodeAlone(_, _) => UnpairedHighSurrogate
    case BadSecondHex(_, _) => InvalidUnicodeEscape
    case SecondNotLow(_, _) => UnpairedHighSurrogate
  }

  // ---------------------------------------------------------------------
  // Mistakes inside a number
  // ---------------------------------------------------------------------

  predicate DigitFirst(t: Text) { t != [] && 0x30 <= t[0] <= 0x39 }

  datatype NumberMistake =
    | MinusAlone(rest: Text)
    | ZeroThenDigit(negative: bool, rest: Text)
    | NoFraction(negative: bool, whole: seq<Digit>, rest: Text)
    | NoExponent(negative: bool, whole: seq<Digit>, fraction: seq<Digit>, letter: CodeUnit, sign: Text, rest: Text)
    | TooLarge(figure: Figure, behind: Text)

  function Minus(negative: bool): Text { if negative then [0x2D] else [] }

  function NumberText(m: NumberMistake): Text {
    match m
    case MinusAlone(rest) => [0x2D] + rest
    case ZeroThenDigit(negative, rest) => Minus(negative) + ([0x30] + rest)
    case NoFraction(negative, whole, rest) => Minus(negative) + (Units(whole) + ([0x2E] + rest))
    case NoExponent(negative, whole, fraction, letter, sign, rest) =>
      Minus(negative) + (Units(whole) + (FractionUnits(fraction) + ([letter] + (sign + rest))))
    case TooLarge(figure, behind) => FigureText(figure, behind)
  }

  function NumberRest(m: NumberMistake): Text {
    if m.TooLarge? then FigureText(m.figure, m.behind) else m.rest
  }

  predicate LegalWhole(ds: seq<Digit>) { ds == [0] || (ds != [] && ds[0] != 0) }

  ghost predicate LegalNumberMistake(m: NumberMistake, round: Rounding) {
    match m
    case MinusAlone(rest) => !DigitFirst(rest)
    case ZeroThenDigit(_, rest) => DigitFirst(rest)
    case NoFraction(_, whole, rest) => LegalWhole(whole) && !DigitFirst(rest)
    case NoExponent(_, whole, _, letter, sign, rest) =>
      && LegalWhole(whole) && (letter == 0x65 || letter == 0x45) && !DigitFirst(rest)
      && (sign == [0x2B] || sign == [0x2D] || (sign == [] && (rest != [] ==> rest[0] != 0x2B && rest[0] != 0x2D)))
    case TooLarge(figure, behind) =>
      LegalFigure(figure) && Stops(figure, behind) && round(TokenValue(FigureToken(figure))).NonFinite?
  }

  function NumberCode(m: NumberMistake): ErrorCode {
    match m
    case ZeroThenDigit(_, _) => LeadingZero
    case TooLarge(_, _) => NonFiniteNumber
    case _ => InvalidNumber
  }

  // ---------------------------------------------------------------------
  // Mistakes
  // ---------------------------------------------------------------------

  /** Where a string begins: as a value, or as the next name of a record. */
  datatype Opening = AsValue(before: Text) | AsName(before: Text, fields: seq<Field>, nameBefore: Text)

  function Opened(o: Opening, tail: Text): Text {
    match o
    case AsValue(before) => before + ([0x22] + tail)
    case AsName(before, fields, nameBefore) => before + ([0x7B] + RecordSoFar(fields, nameBefore + ([0x22] + tail)))
  }

  ghost predicate LegalOpening(o: Opening, round: Rounding) {
    && IsGap(o.before)
    && (o.AsName? ==> LegalRecord(o.fields, round) && IsGap(o.nameBefore))
  }

  /** What can be wrong where a value is to stand; `rest` begins where the mistake is reported. */
  datatype Mistake =
    | NoValue(before: Text, rest: Text)
    | BadWord(before: Text, rest: Text)
    | InNumber(before: Text, number: NumberMistake)
    | InText(opening: Opening, pieces: seq<Piece>, text: TextMistake)
    | NoCommaInList(before: Text, items: seq<Item>, last: Item, rest: Text)
    | NoCommaInRecord(before: Text, fields: seq<Field>, end: Field, rest: Text)
    | NoName(before: Text, fields: seq<Field>, nameBefore: Text, rest: Text)
    | NameAgain(before: Text, fields: seq<Field>, nameBefore: Text, name: seq<Piece>, behind: Text)
    | NoColon(before: Text, fields: seq<Field>, nameBefore: Text, name: seq<Piece>, colonBefore: Text, rest: Text)

  function MistakeText(m: Mistake): Text {
    match m
    case NoValue(before, rest) => before + rest
    case BadWord(before, rest) => before + rest
    case InNumber(before, number) => before + NumberText(number)
    case InText(opening, pieces, text) => Opened(opening, PiecesText(pieces) + TextOf(text))
    case NoCommaInList(before, items, last, rest) =>
      before + ([0x5B] + ListSoFar(items, last.before + Spelled(last.value, last.after + rest)))
    case NoCommaInRecord(before, fields, end, rest) =>
      before + ([0x7B] + RecordSoFar(fields, end.before + SpelledField(end, end.after + rest)))
    case NoName(before, fields, nameBefore, rest) => before + ([0x7B] + RecordSoFar(fields, nameBefore + rest))
    case NameAgain(before, fields, nameBefore, name, behind) =>
      before + ([0x7B] + RecordSoFar(fields, nameBefore + Named(name, behind)))
    case NoColon(before, fields, nameBefore, name, colonBefore, rest) =>
      before + ([0x7B] + RecordSoFar(fields, nameBefore + Named(name, colonBefore + rest)))
  }

  function MistakeRest(m: Mistake): Text {
    match m
    case InNumber(_, number) => NumberRest(number)
    case InText(_, _, text) => TextRest(text)
    case NameAgain(_, _, _, name, behind) => Named(name, behind)
    case _ => m.rest
  }

  function MistakeCode(m: Mistake): ErrorCode {
    match m
    case NoValue(_, _) => UnexpectedToken
    case BadWord(_, _) => InvalidLiteral
    case InNumber(_, number) => NumberCode(number)
    case InText(_, _, text) => TextCode(text)
    case NoCommaInList(_, _, _, _) => ExpectedComma
    case NoCommaInRecord(_, _, _, _) => ExpectedComma
    case NoName(_, _, _, _) => ExpectedPropertyName
    case NameAgain(_, _, _, _, _) => DuplicateProperty
    case NoColon(_, _, _, _, _, _) => ExpectedColon
  }

  predicate BeginsWith(t: Text, u: CodeUnit) { t != [] && t[0] == u }

  /** No white space in front. */
  predicate Bare(t: Text) { t != [] ==> t[0] !in {0x09, 0x0A, 0x0D, 0x20} }

  /** No value begins like this. */
  predicate NoStart(t: Text) {
    Bare(t) && (t != [] ==> t[0] !in {0x22, 0x5B, 0x7B, 0x74, 0x66, 0x6E, 0x2D} && !DigitFirst(t))
  }

  ghost predicate LegalMistake(m: Mistake, round: Rounding) {
    match m
    case NoValue(before, rest) => IsGap(before) && NoStart(rest)
    case BadWord(before, rest) =>
      && IsGap(before)
      && ((BeginsWith(rest, 0x74) && !(Ascii("true") <= rest)) || (BeginsWith(rest, 0x66) && !(Ascii("false") <= rest))
          || (BeginsWith(rest, 0x6E) && !(Ascii("null") <= rest)))
    case InNumber(before, number) => IsGap(before) && LegalNumberMistake(number, round)
    case InText(opening, pieces, text) => LegalOpening(opening, round) && LegalPieces(pieces) && LegalTextMistake(text)
    case NoCommaInList(before, items, last, rest) =>
      && IsGap(before) && LegalItems(items, round) && LegalItem(last, round) && MayEnd(last.value, last.after + rest)
      && Bare(rest) && !BeginsWith(rest, 0x2C) && !BeginsWith(rest, 0x5D)
    case NoCommaInRecord(before, fields, end, rest) =>
      && IsGap(before) && LegalRecord(fields, round) && LegalField(end, round) && MayEnd(end.value, end.after + rest)
      && !NameTaken(fields, PiecesUnits(end.name))
      && Bare(rest) && !BeginsWith(rest, 0x2C) && !BeginsWith(rest, 0x7D)
    case NoName(before, fields, nameBefore, rest) =>
      && IsGap(before) && LegalRecord(fields, round) && IsGap(nameBefore)
      && Bare(rest) && !BeginsWith(rest, 0x22) && (fields == [] ==> !BeginsWith(rest, 0x7D))
    case NameAgain(before, fields, nameBefore, name, _) =>
      && IsGap(before) && LegalRecord(fields, round) && IsGap(nameBefore)
      && LegalPieces(name) && NameTaken(fields, PiecesUnits(name))
    case NoColon(before, fields, nameBefore, name, colonBefore, rest) =>
      && IsGap(before) && LegalRecord(fields, round) && IsGap(nameBefore) && IsGap(colonBefore)
      && LegalPieces(name) && !NameTaken(fields, PiecesUnits(name)) && Bare(rest) && !BeginsWith(rest, 0x3A)
  }

  /** A whole text that is wrong: a mistake inside open lists and records, or text behind a complete value. */
  datatype Wrong =
    | Within(frames: seq<Frame>, mistake: Mistake)
    | Behind(before: Text, value: Spelling, after: Text, rest: Text)

  function WrongText(w: Wrong): Text {
    match w
    case Within(frames, mistake) => InsideAll(frames, MistakeText(mistake))
    case Behind(before, value, after, rest) => before + Spelled(value, after + rest)
  }

  function WrongRest(w: Wrong): Text {
    match w
    case Within(_, mistake) => MistakeRest(mistake)
    case Behind(_, _, _, rest) => rest
  }

  function WrongCode(w: Wrong): ErrorCode {
    match w
    case Within(_, mistake) => MistakeCode(mistake)
    case Behind(_, _, _, _) => TrailingData
  }

  /** An empty list may close at once; in every other place a closing bracket is no value. */
  predicate MayStand(frames: seq<Frame>, m: Mistake) {
    frames != [] && frames[|frames| - 1].InList? && frames[|frames| - 1].items == [] && m.NoValue? ==>
      !BeginsWith(m.rest, 0x5D)
  }

  ghost predicate LegalWrong(w: Wrong, round: Rounding) {
    match w
    case Within(frames, mistake) =>
      LegalFrames(frames, round) && LegalMistake(mistake, round) && MayStand(frames, mistake)
    case Behind(before, value, after, rest) =>
      && IsGap(before) && Legal(value, round) && IsGap(after) && MayEnd(value, after + rest)
      && rest != [] && Bare(rest)
  }

  /** The text is wrong in a way that earns this code with `left` units to go. */
  ghost predicate Earns(text: Text, code: ErrorCode, left: nat, round: Rounding) {
    exists w :: LegalWrong(w, round) && WrongText(w) == text && WrongCode(w) == code && |WrongRest(w)| == left
  }

  // ---------------------------------------------------------------------
  // Mistakes in strings and numbers are reported
  // ---------------------------------------------------------------------

  /** Four units as the readers see them. */
  lemma {:induction false} HexFirstReads(t: Text)
    ensures HexFirst(t) <==> StartsWithHex4(t)
    ensures HexFirst(t) ==> Hex4(t) == HexValue(t[..4])
  {
    if |t| >= 4 {
      assert t == t[..4] + t[4..];
      Hex4Front(t[..4], t[4..]);
    }
  }

  lemma {:induction false} EscapeMistakeReported(m: TextMistake)
    requires LegalTextMistake(m) && (m.CutEscape? || m.BadEscape? || m.BadHex? || m.LowCode?)
    ensures var s := TextOf(m); s[0] == BACKSLASH && ReadEscape(s[1..]) == Failed(TextCode(m), |TextRest(m)|)
  {
    var s := TextOf(m);
    if m.BadHex? || m.LowCode? {
      HexFirstReads(m.rest);
      assert s[1..][1..] == m.rest;
    }
  }

  /** Behind the backslash of a high surrogate's code. */
  lemma {:induction false} HighCodeApart(hex: Text, second: Text)
    requires IsHex4(hex)
    ensures var s := [0x5C, 0x75] + hex + second;
            && s[0] == BACKSLASH && s[1..] != [] && s[1..][0] == LETTER_U
            && StartsWithHex4(s[1..][1..]) && Hex4(s[1..][1..]) == HexValue(hex) && s[1..][5..] == second
  {
    var s := [0x5C, 0x75] + hex + second;
    Hex4Front(hex, second);
    assert s[1..][1..] == hex + second;
  }

  lemma {:induction false} PairMistakeReported(m: TextMistake)
    requires LegalTextMistake(m) && (m.HighCodeAlone? || m.BadSecondHex? || m.SecondNotLow?)
    ensures var s := TextOf(m); s[0] == BACKSLASH && ReadEscape(s[1..]) == Failed(TextCode(m), |TextRest(m)|)
  {
    var second := if m.HighCodeAlone? then m.rest else [0x5C, 0x75] + m.rest;
    assert TextOf(m) == [0x5C, 0x75] + m.hex + second;
    HighCodeApart(m.hex, second);
    HexFirstReads(m.rest);
    if !m.HighCodeAlone? {
      assert second[2..] == m.rest;
    } else if |second| >= 2 {
      assert second[..2] == [second[0], second[1]];
    }
  }

  lemma {:induction false} TextMistakeReported(m: TextMistake, output: Text)
    requires LegalTextMistake(m)
    ensures ReadBody(TextOf(m), output) == Failed(TextCode(m), |TextRest(m)|)
  {
    if m.CutEscape? || m.BadEscape? || m.BadHex? || m.LowCode? {
      EscapeMistakeReported(m);
    } else if m.HighCodeAlone? || m.BadSecondHex? || m.SecondNotLow? {
      PairMistakeReported(m);
    }
  }

  /** Good characters are passed on the way to whatever follows. */
  lemma {:induction false} PiecesThen(ps: seq<Piece>, s: Text, output: Text)
    requires LegalPieces(ps) && ValidUnicode(output)
    ensures ReadBody(PiecesText(ps) + s, output) == ReadBody(s, output + PiecesUnits(ps))
  {
    if ps == [] {
      EmptyInFront(s);
      assert output + PiecesUnits(ps) == output;
    } else {
      var units := PieceUnits(ps[0]);
      Regroup(PieceText(ps[0]), PiecesText(ps[1..]), s);
      PieceReads(ps[0], PiecesText(ps[1..]) + s);
      CharacterIsValid(PieceText(ps[0]) + (PiecesText(ps[1..]) + s));
      ValidUnicodeConcat(output, units);
      PiecesThen(ps[1..], s, output + units);
      Regroup(output, units, PiecesUnits(ps[1..]));
    }
  }

  lemma {:induction false} StringMistakeReported(pieces: seq<Piece>, m: TextMistake)
    requires LegalPieces(pieces) && LegalTextMistake(m)
    ensures ReadString([0x22] + (PiecesText(pieces) + TextOf(m))) == Failed(TextCode(m), |TextRest(m)|)
  {
    var body := PiecesText(pieces) + TextOf(m);
    assert ([0x22] + body)[1..] == body;
    PiecesThen(pieces, TextOf(m), []);
    TextMistakeReported(m, [] + PiecesUnits(pieces));
  }

  lemma {:induction false} WholeThen(ds: seq<Digit>, rest: Text)
    requires LegalWhole(ds) && !DigitFirst(rest)
    ensures ReadWhole(Units(ds) + rest) == Read(ds, rest)
    ensures var s := Units(ds) + rest; s[0] == 0x30 + ds[0] as int
  {
    UnitsPrinted(ds);
    ReadWholeText(ds, rest);
  }

  /** The number behind its sign. */
  function UnsignedPart(m: NumberMistake): Text
    requires !m.MinusAlone? && !m.TooLarge?
  {
    match m
    case ZeroThenDigit(_, rest) => [0x30] + rest
    case NoFraction(_, whole, rest) => Units(whole) + ([0x2E] + rest)
    case NoExponent(_, whole, fraction, letter, sign, rest) =>
      Units(whole) + (FractionUnits(fraction) + ([letter] + (sign + rest)))
  }

  lemma {:induction false} UnsignedMistakeReported(m: NumberMistake, round: Rounding, negative: bool)
    requires LegalNumberMistake(m, round) && !m.MinusAlone? && !m.TooLarge?
    ensures ReadUnsigned(UnsignedPart(m), negative) == Failed(NumberCode(m), |NumberRest(m)|)
    ensures UnsignedPart(m) != [] && IsDigit(UnsignedPart(m)[0])
  {
    match m
    case ZeroThenDigit(_, rest) => assert ([0x30] + rest)[1..] == rest;
    case NoFraction(_, whole, rest) =>
      WholeThen(whole, [0x2E] + rest);
      assert ([0x2E] + rest)[1..] == rest;
    case NoExponent(_, whole, fraction, letter, sign, rest) =>
      var tail := [letter] + (sign + rest);
      assert fraction == [] ==> FractionUnits(fraction) + tail == tail;
      WholeThen(whole, FractionUnits(fraction) + tail);
      FractionReads(fraction, tail);
      ExponentCut(letter, sign, rest);
  }

  lemma {:induction false} ExponentCut(letter: CodeUnit, sign: Text, rest: Text)
    requires letter == 0x65 || letter == 0x45
    requires !DigitFirst(rest)
    requires sign == [0x2B] || sign == [0x2D] || (sign == [] && (rest != [] ==> rest[0] != 0x2B && rest[0] != 0x2D))
    ensures ReadExponent([letter] + (sign + rest)) == Failed(InvalidNumber, |rest|)
  {
    var s := [letter] + (sign + rest);
    ExponentIsSigned(s);
    assert s[1..] == sign + rest && (sign == [] ==> sign + rest == rest);
    assert sign != [] ==> s[2..] == rest;
  }

  lemma {:induction false} NumberMistakeReported(m: NumberMistake, round: Rounding)
    requires LegalNumberMistake(m, round)
    ensures var s := NumberText(m);
            && s != [] && (s[0] == 0x2D || IsDigit(s[0]))
            && ReadNumber(s, round) == Failed(NumberCode(m), |NumberRest(m)|)
  {
    var s := NumberText(m);
    TokenIsSigned(s);
    match m
    case MinusAlone(rest) => assert s[1..] == rest;
    case TooLarge(figure, behind) =>
      FigureReads(figure, behind);
      FigureStart(figure, behind);
    case _ =>
      UnsignedMistakeReported(m, round, m.negative);
      EmptyInFront(UnsignedPart(m));
      assert m.negative ==> s[1..] == UnsignedPart(m);
  }

  // ---------------------------------------------------------------------
  // What stands in front is read
  // ---------------------------------------------------------------------

  lemma {:induction false} BehindComma(after: Text, more: Text)
    requires IsGap(after)
    ensures SkipWhitespace(after + ([0x2C] + more)) == [0x2C] + more && ([0x2C] + more)[1..] == more
  {
    SkipGap(after, [0x2C] + more);
  }

  /** Items with a comma behind each are read and kept. */
  lemma {:induction false} ItemsInFront(items: seq<Item>, tail: Text, result: seq<JSON>, round: Rounding)
    requires LegalItems(items, round)
    ensures ReadElements(SkipWhitespace(ListSoFar(items, tail)), result, round) ==
            ReadElements(SkipWhitespace(tail), result + ItemMeanings(items, round), round)
    decreases |items|
  {
    if items == [] {
      assert result + ItemMeanings(items, round) == result;
    } else {
      var item, more := items[0], ListSoFar(items[1..], tail);
      OneItemRead(item, [0x2C] + more, result, round);
      BehindComma(item.after, more);
      ItemsInFront(items[1..], tail, result + [ItemMeaning(item, round)], round);
      Regrouped(result, ItemMeaning(item, round), ItemMeanings(items[1..], round));
    }
  }

  /** One item, and what stands behind it. */
  lemma {:induction false} OneItemRead(item: Item, next: Text, result: seq<JSON>, round: Rounding)
    requires LegalItem(item, round) && MayEnd(item.value, item.after + next) && Bare(next)
    ensures var all := result + [ItemMeaning(item, round)];
            ReadElements(SkipWhitespace(item.before + Spelled(item.value, item.after + next)), result, round) ==
            if StartsWith(next, CLOSE_ARRAY) then Read(Arr(all), next[1..])
            else if StartsWith(next, COMMA) then ReadElements(SkipWhitespace(next[1..]), all, round)
            else Failed(ExpectedComma, |next|)
  {
    var whole := Spelled(item.value, item.after + next);
    SpelledStart(item.value, item.after + next, round);
    SkipGap(item.before, whole);
    SkipGap(item.after, next);
    SpellingReads(item.value, item.after + next, round);
    ElementThen(whole, result, round, ItemMeaning(item, round), item.after + next);
  }

  lemma {:induction false} FieldsInFront(fields: seq<Field>, tail: Text, result: seq<Member>, round: Rounding)
    requires LegalFields(fields, round) && NamesNew(result, fields)
    ensures ReadMembers(SkipWhitespace(RecordSoFar(fields, tail)), result, round) ==
            ReadMembers(SkipWhitespace(tail), result + FieldMeanings(fields, round), round)
    decreases |fields|
  {
    if fields == [] {
      assert result + FieldMeanings(fields, round) == result;
    } else {
      var f, more := fields[0], RecordSoFar(fields[1..], tail);
      var m := FieldMeaning(f, round);
      FieldMayEnd(f, more);
      OneFieldRead(f, [0x2C] + more, result, round);
      BehindComma(f.after, more);
      NamesStayNew(result, fields, m);
      FieldsInFront(fields[1..], tail, result + [m], round);
      Regrouped(result, m, FieldMeanings(fields[1..], round));
    }
  }

  lemma {:induction false} FieldMayEnd(f: Field, more: Text)
    requires IsGap(f.after)
    ensures MayEnd(f.value, f.after + ([0x2C] + more))
  {
    GapThenMayEnd(f.value, f.after, [0x2C] + more);
  }

  /** One field, and what stands behind it. */
  lemma {:induction false} OneFieldRead(f: Field, next: Text, result: seq<Member>, round: Rounding)
    requires LegalField(f, round) && MayEnd(f.value, f.after + next) && Bare(next)
    requires forall i :: 0 <= i < |result| ==> result[i].key != PiecesUnits(f.name)
    ensures var all := result + [FieldMeaning(f, round)];
            ReadMembers(SkipWhitespace(f.before + SpelledField(f, f.after + next)), result, round) ==
            if StartsWith(next, CLOSE_OBJECT) then Read(Obj(all), next[1..])
            else if StartsWith(next, COMMA) then ReadMembers(SkipWhitespace(next[1..]), all, round)
            else Failed(ExpectedComma, |next|)
  {
    var whole := SpelledField(f, f.after + next);
    SkipGap(f.before, whole);
    SkipGap(f.after, next);
    FieldReads(f, result, f.after + next, round);
    MemberThen(whole, result, round, FieldMeaning(f, round), f.after + next);
  }

  lemma {:induction false} NameTakenIsKey(fields: seq<Field>, units: Text, round: Rounding)
    requires LegalFields(fields, round)
    ensures NameTaken(fields, units) <==> HasKey(FieldMeanings(fields, round), units)
  {
    var members := FieldMeanings(fields, round);
    MeaningsByIndex(fields, round);
    if NameTaken(fields, units) {
      var i :| 0 <= i < |fields| && LegalPieces(fields[i].name) && PiecesUnits(fields[i].name) == units;
      assert members[i] in members;
    }
    if HasKey(members, units) {
      var m :| m in members && m.key == units;
      var i :| 0 <= i < |members| && members[i] == m;
      assert PiecesUnits(fields[i].name) == units;
    }
  }

  lemma {:induction false} MeaningsByIndex(fields: seq<Field>, round: Rounding)
    requires LegalFields(fields, round)
    ensures |FieldMeanings(fields, round)| == |fields|
    ensures forall i :: 0 <= i < |fields| ==>
              LegalField(fields[i], round) && FieldMeanings(fields, round)[i] == FieldMeaning(fields[i], round)
  {
    if fields != [] {
      MeaningsByIndex(fields[1..], round);
      assert forall i :: 0 < i < |fields| ==> fields[i] == fields[1..][i - 1];
    }
  }

  // ---------------------------------------------------------------------
  // Inside an open list or record
  // ---------------------------------------------------------------------

  lemma {:induction false} ValueBehindGap(before: Text, s: Text, round: Rounding)
    requires IsGap(before) && Bare(s)
    ensures SkipWhitespace(before + s) == s && ReadValue(before + s, round) == ReadValue(s, round)
  {
    SkipGap(before, s);
    SkipGap([], s);
    EmptyInFront(s);
  }

  lemma {:induction false} ListOpens(before: Text, items: seq<Item>, tail: Text, round: Rounding)
    requires IsGap(before) && LegalItems(items, round)
    requires items == [] ==> !StartsWith(SkipWhitespace(tail), CLOSE_ARRAY)
    ensures ReadValue(before + ([0x5B] + ListSoFar(items, tail)), round) ==
            ReadElements(SkipWhitespace(tail), ItemMeanings(items, round), round)
  {
    var body := ListSoFar(items, tail);
    ValueBehindGap(before, [0x5B] + body, round);
    assert ([0x5B] + body)[1..] == body;
    ItemsInFront(items, tail, [], round);
    assert [] + ItemMeanings(items, round) == ItemMeanings(items, round);
    if items != [] {
      var next := [0x2C] + ListSoFar(items[1..], tail);
      SpelledStart(items[0].value, items[0].after + next, round);
      SkipGap(items[0].before, Spelled(items[0].value, items[0].after + next));
    }
  }

  lemma {:induction false} RecordOpens(before: Text, fields: seq<Field>, tail: Text, round: Rounding)
    requires IsGap(before) && LegalRecord(fields, round)
    requires fields == [] ==> !StartsWith(SkipWhitespace(tail), CLOSE_OBJECT)
    ensures ReadValue(before + ([0x7B] + RecordSoFar(fields, tail)), round) ==
            ReadMembers(SkipWhitespace(tail), FieldMeanings(fields, round), round)
  {
    var body := RecordSoFar(fields, tail);
    ValueBehindGap(before, [0x7B] + body, round);
    assert ([0x7B] + body)[1..] == body;
    FieldsInFront(fields, tail, [], round);
    assert [] + FieldMeanings(fields, round) == FieldMeanings(fields, round);
    if fields != [] {
      assert LegalField(fields[0], round);
      SkipGap(fields[0].before, SpelledField(fields[0], fields[0].after + ([0x2C] + RecordSoFar(fields[1..], tail))));
    }
  }

  /** A name that is new, and what stands behind it. */
  lemma {:induction false} NameRead(nameBefore: Text, name: seq<Piece>, s: Text, result: seq<Member>, round: Rounding)
    requires IsGap(nameBefore) && LegalPieces(name)
    ensures var t := Named(name, s);
            && SkipWhitespace(nameBefore + t) == t && StartsWith(t, QUOTE)
            && ReadString(t) == Read(PiecesUnits(name), s)
  {
    QuotedReads(name, s, round);
    SkipGap(nameBefore, Named(name, s));
  }

  /** What goes wrong where a value is to stand goes wrong for the list or record around it. */
  lemma {:induction false} FrameReports(frame: Frame, s: Text, round: Rounding)
    requires LegalFrame(frame, round) && ReadValue(s, round).Failed?
    requires frame.InList? && frame.items == [] ==> !StartsWith(SkipWhitespace(s), CLOSE_ARRAY)
    ensures ReadValue(Inside(frame, s), round) == ReadValue(s, round)
  {
    SkipTwice(s);
    assert ReadValue(SkipWhitespace(s), round) == ReadValue(s, round);
    match frame
    case InList(before, items) => ListOpens(before, items, s, round);
    case InRecord(before, fields, nameBefore, name, colonBefore) =>
      var result := FieldMeanings(fields, round);
      var behind := colonBefore + ([0x3A] + s);
      NameRead(nameBefore, name, behind, result, round);
      RecordOpens(before, fields, nameBefore + Named(name, behind), round);
      NameTakenIsKey(fields, PiecesUnits(name), round);
      NameThen(Named(name, behind), result, round, PiecesUnits(name), behind);
      SkipGap(colonBefore, [0x3A] + s);
      assert ([0x3A] + s)[1..] == s;
  }

  // ---------------------------------------------------------------------
  // Every mistake is reported
  // ---------------------------------------------------------------------

  lemma {:induction false} ListMistakeReported(m: Mistake, round: Rounding)
    requires LegalMistake(m, round) && m.NoCommaInList?
    ensures ReadValue(MistakeText(m), round) == Failed(MistakeCode(m), |MistakeRest(m)|)
  {
    var tail := m.last.before + Spelled(m.last.value, m.last.after + m.rest);
    SpelledStart(m.last.value, m.last.after + m.rest, round);
    SkipGap(m.last.before, Spelled(m.last.value, m.last.after + m.rest));
    ListOpens(m.before, m.items, tail, round);
    OneItemRead(m.last, m.rest, ItemMeanings(m.items, round), round);
  }

  lemma {:induction false} RecordMistakeReported(m: Mistake, round: Rounding)
    requires LegalMistake(m, round) && m.NoCommaInRecord?
    ensures ReadValue(MistakeText(m), round) == Failed(MistakeCode(m), |MistakeRest(m)|)
  {
    var tail := m.end.before + SpelledField(m.end, m.end.after + m.rest);
    SkipGap(m.end.before, SpelledField(m.end, m.end.after + m.rest));
    RecordOpens(m.before, m.fields, tail, round);
    NameTakenIsKey(m.fields, PiecesUnits(m.end.name), round);
    OtherNames(FieldMeanings(m.fields, round), PiecesUnits(m.end.name));
    OneFieldRead(m.end, m.rest, FieldMeanings(m.fields, round), round);
  }

  lemma {:induction false} OtherNames(members: seq<Member>, name: Text)
    ensures !HasKey(members, name) ==> forall i :: 0 <= i < |members| ==> members[i].key != name
  {
    forall i | 0 <= i < |members| && members[i].key == name ensures HasKey(members, name) {
      assert members[i] in members;
    }
  }

  lemma {:induction false} NameMistakeReported(m: Mistake, round: Rounding)
    requires LegalMistake(m, round) && (m.NoName? || m.NameAgain? || m.NoColon?)
    ensures ReadValue(MistakeText(m), round) == Failed(MistakeCode(m), |MistakeRest(m)|)
  {
    var result := FieldMeanings(m.fields, round);
    match m
    case NoName(before, fields, nameBefore, rest) =>
      SkipGap(nameBefore, rest);
      RecordOpens(before, fields, nameBefore + rest, round);
    case NameAgain(before, fields, nameBefore, name, behind) =>
      NameRead(nameBefore, name, behind, result, round);
      RecordOpens(before, fields, nameBefore + Named(name, behind), round);
      NameTakenIsKey(fields, PiecesUnits(name), round);
    case NoColon(before, fields, nameBefore, name, colonBefore, rest) =>
      NameRead(nameBefore, name, colonBefore + rest, result, round);
      RecordOpens(before, fields, nameBefore + Named(name, colonBefore + rest), round);
      NameTakenIsKey(fields, PiecesUnits(name), round);
      SkipGap(colonBefore, rest);
  }

  lemma {:induction false} OpenedReports(m: Mistake, round: Rounding)
    requires LegalMistake(m, round) && m.InText?
    ensures ReadValue(MistakeText(m), round) == Failed(MistakeCode(m), |MistakeRest(m)|)
  {
    var body := PiecesText(m.pieces) + TextOf(m.text);
    StringMistakeReported(m.pieces, m.text);
    match m.opening
    case AsValue(before) => ValueBehindGap(before, [0x22] + body, round);
    case AsName(before, fields, nameBefore) =>
      SkipGap(nameBefore, [0x22] + body);
      RecordOpens(before, fields, nameBefore + ([0x22] + body), round);
  }

  lemma {:induction false} WordMistakeReported(m: Mistake, round: Rounding)
    requires LegalMistake(m, round) && (m.BadWord? || m.NoValue?)
    ensures ReadValue(MistakeText(m), round) == Failed(MistakeCode(m), |MistakeRest(m)|)
  {
    ValueBehindGap(m.before, m.rest, round);
    WordsRead(Bool(true));
    WordsRead(Bool(false));
    WordsRead(Null);
  }

  lemma {:induction false} NumberDispatched(s: Text, round: Rounding)
    requires s != [] && (s[0] == 0x2D || IsDigit(s[0]))
    requires ReadNumber(s, round).Failed?
    ensures Bare(s) && ReadValue(s, round) == Failed(ReadNumber(s, round).code, ReadNumber(s, round).left)
  {
    SkipGap([], s);
    EmptyInFront(s);
  }

  lemma {:induction false} NumberInPlaceReported(before: Text, m: NumberMistake, round: Rounding)
    requires IsGap(before) && LegalNumberMistake(m, round)
    ensures ReadValue(before + NumberText(m), round) == Failed(NumberCode(m), |NumberRest(m)|)
  {
    NumberMistakeReported(m, round);
    NumberDispatched(NumberText(m), round);
    ValueBehindGap(before, NumberText(m), round);
  }

  lemma {:induction false} MistakeReported(m: Mistake, round: Rounding)
    requires LegalMistake(m, round)
    ensures ReadValue(MistakeText(m), round) == Failed(MistakeCode(m), |MistakeRest(m)|)
  {
    match m
    case InNumber(before, number) => NumberInPlaceReported(before, number, round);
    case InText(_, _, _) => OpenedReports(m, round);
    case NoCommaInList(_, _, _, _) => ListMistakeReported(m, round);
    case NoCommaInRecord(_, _, _, _) => RecordMistakeReported(m, round);
    case NoValue(_, _) => WordMistakeReported(m, round);
    case BadWord(_, _) => WordMistakeReported(m, round);
    case _ => NameMistakeReported(m, round);
  }

  /** A mistake's text begins with a closing bracket only where the bracket is the mistake. */
  lemma {:induction false} MistakeStart(m: Mistake, round: Rounding)
    requires LegalMistake(m, round)
    ensures StartsWith(SkipWhitespace(MistakeText(m)), CLOSE_ARRAY) ==> m.NoValue? && BeginsWith(m.rest, 0x5D)
  {
    match m
    case NoValue(before, rest) => SkipGap(before, rest);
    case BadWord(before, rest) => SkipGap(before, rest);
    case InNumber(before, number) =>
      NumberMistakeReported(number, round);
      SkipGap(before, NumberText(number));
    case InText(opening, pieces, text) => OpenedStart(opening, PiecesText(pieces) + TextOf(text));
    case NoCommaInList(before, items, last, rest) =>
      SkipGap(before, [0x5B] + ListSoFar(items, last.before + Spelled(last.value, last.after + rest)));
    case NoCommaInRecord(before, fields, end, rest) =>
      SkipGap(before, [0x7B] + RecordSoFar(fields, end.before + SpelledField(end, end.after + rest)));
    case NoName(before, fields, nameBefore, rest) => SkipGap(before, [0x7B] + RecordSoFar(fields, nameBefore + rest));
    case NameAgain(before, fields, nameBefore, name, behind) =>
      SkipGap(before, [0x7B] + RecordSoFar(fields, nameBefore + Named(name, behind)));
    case NoColon(before, fields, nameBefore, name, colonBefore, rest) =>
      SkipGap(before, [0x7B] + RecordSoFar(fields, nameBefore + Named(name, colonBefore + rest)));
  }

  lemma {:induction false} OpenedStart(o: Opening, tail: Text)
    requires IsGap(o.before)
    ensures !StartsWith(SkipWhitespace(Opened(o, tail)), CLOSE_ARRAY)
  {
    match o
    case AsValue(before) => SkipGap(before, [0x22] + tail);
    case AsName(before, fields, nameBefore) =>
      SkipGap(before, [0x7B] + RecordSoFar(fields, nameBefore + ([0x22] + tail)));
  }

  lemma {:induction false} InsideStart(frame: Frame, tail: Text)
    requires IsGap(frame.before)
    ensures !StartsWith(SkipWhitespace(Inside(frame, tail)), CLOSE_ARRAY)
  {
    match frame
    case InList(before, items) => SkipGap(before, [0x5B] + ListSoFar(items, tail));
    case InRecord(before, fields, nameBefore, name, colonBefore) =>
      SkipGap(before, [0x7B] + RecordSoFar(fields, nameBefore + Named(name, colonBefore + ([0x3A] + tail))));
  }

  lemma {:induction false} FramesReport(frames: seq<Frame>, m: Mistake, round: Rounding)
    requires LegalFrames(frames, round) && LegalMistake(m, round) && MayStand(frames, m)
    ensures ReadValue(InsideAll(frames, MistakeText(m)), round) == Failed(MistakeCode(m), |MistakeRest(m)|)
    decreases |frames|
  {
    if frames == [] {
      MistakeReported(m, round);
    } else {
      var inner := InsideAll(frames[1..], MistakeText(m));
      assert MayStand(frames[1..], m);
      FramesReport(frames[1..], m, round);
      if |frames| == 1 {
        MistakeStart(m, round);
      } else {
        assert LegalFrame(frames[1], round);
        InsideStart(frames[1], InsideAll(frames[1..][1..], MistakeText(m)));
      }
      FrameReports(frames[0], inner, round);
    }
  }

  /** A wrong text earns its code at its place. */
  lemma {:induction false} WrongIsReported(w: Wrong, round: Rounding)
    requires LegalWrong(w, round)
    ensures ParseStrict(WrongText(w), round) == Failed(WrongCode(w), |WrongRest(w)|)
  {
    match w
    case Within(frames, mistake) => FramesReport(frames, mistake, round);
    case Behind(before, value, after, rest) =>
      SpelledStart(value, after + rest, round);
      SkipFirst(before, Spelled(value, after + rest), round);
      SpellingReads(value, after + rest, round);
      SkipGap(after, rest);
  }
}
