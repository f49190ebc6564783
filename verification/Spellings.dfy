/** How strings and numbers may be written in strict JSON. A character of a string stands for itself or is
    escaped, by a letter or by hexadecimal digits in either case; a number may carry a fraction and an
    exponent, with either letter and any sign. Every such choice is read back by the readers, and they
    read nothing else. */
module Spellings {
  import opened Utf16
  import opened Parsing
  import opened Numbers
  import opened Strings

  // ---------------------------------------------------------------------
  // White space
  // ---------------------------------------------------------------------

  /** Tabs, line feeds, carriage returns and spaces. */
  predicate IsGap(t: Text) { forall i :: 0 <= i < |t| ==> t[i] in {0x09, 0x0A, 0x0D, 0x20} }

  predicate Visible(t: Text) { t == [] || !IsWhitespace(t[0]) }

  lemma {:induction false} SkipGap(gap: Text, rest: Text)
    requires IsGap(gap) && Visible(rest)
    ensures SkipWhitespace(gap + rest) == rest
  {
    if gap == [] {
      assert gap + rest == rest;
    } else {
      assert (gap + rest)[0] == gap[0] && (gap + rest)[1..] == gap[1..] + rest;
      SkipGap(gap[1..], rest);
    }
  }

  lemma {:induction false} GapSkipped(s: Text) returns (gap: Text)
    ensures IsGap(gap) && Visible(SkipWhitespace(s)) && s == gap + SkipWhitespace(s)
  {
    gap := [];
    if s != [] && IsWhitespace(s[0]) {
      var more := GapSkipped(s[1..]);
      gap := [s[0]] + more;
      assert s == [s[0]] + s[1..];
    }
  }

  lemma {:induction false} SkipTwice(s: Text)
    ensures SkipWhitespace(SkipWhitespace(s)) == SkipWhitespace(s)
  {
    var gap := GapSkipped(s);
  }

  // ---------------------------------------------------------------------
  // Strings
  // ---------------------------------------------------------------------

  /** One character of a string: itself, a surrogate pair, a short escape, or one or two hexadecimal escapes. */
  datatype Piece =
    | Itself(u: CodeUnit)
    | Pair(high: CodeUnit, low: CodeUnit)
    | Short(letter: CodeUnit)
    | Coded(hex: Text)
    | CodedPair(highHex: Text, lowHex: Text)

  predicate IsHexit(u: CodeUnit) { 0x30 <= u <= 0x39 || 0x41 <= u <= 0x46 || 0x61 <= u <= 0x66 }

  function HexitValue(u: CodeUnit): Nibble
    requires IsHexit(u)
  {
    if u <= 0x39 then u as int - 0x30 else if u <= 0x46 then u as int - 0x37 else u as int - 0x57
  }

  predicate IsHex4(t: Text) { |t| == 4 && forall i :: 0 <= i < 4 ==> IsHexit(t[i]) }

  function HexValue(t: Text): CodeUnit
    requires IsHex4(t)
  {
    ((HexitValue(t[0]) as int * 16 + HexitValue(t[1]) as int) * 16 + HexitValue(t[2]) as int) * 16
    + HexitValue(t[3]) as int
  }

  predicate LegalPiece(p: Piece) {
    match p
    case Itself(u) => u >= 0x20 && u != 0x22 && u != 0x5C && !(0xD800 <= u <= 0xDFFF)
    case Pair(high, low) => 0xD800 <= high <= 0xDBFF && 0xDC00 <= low <= 0xDFFF
    case Short(letter) => letter in {0x22, 0x5C, 0x2F, 0x62, 0x66, 0x6E, 0x72, 0x74}
    case Coded(hex) => IsHex4(hex) && !(0xD800 <= HexValue(hex) <= 0xDFFF)
    case CodedPair(high, low) =>
      IsHex4(high) && IsHex4(low) && 0xD800 <= HexValue(high) <= 0xDBFF && 0xDC00 <= HexValue(low) <= 0xDFFF
  }

  function PieceText(p: Piece): Text {
    match p
    case Itself(u) => [u]
    case Pair(high, low) => [high, low]
    case Short(letter) => [0x5C, letter]
    case Coded(hex) => [0x5C, 0x75] + hex
    case CodedPair(high, low) => [0x5C, 0x75] + high + [0x5C, 0x75] + low
  }

  /** What a letter behind a backslash stands for: b, f, n, r and t for control characters, the rest for themselves. */
  function ShortMeaning(letter: CodeUnit): CodeUnit {
    match letter
    case 0x62 => 0x08
    case 0x66 => 0x0C
    case 0x6E => 0x0A
    case 0x72 => 0x0D
    case 0x74 => 0x09
    case _ => letter
  }

  function PieceUnits(p: Piece): Text
    requires LegalPiece(p)
  {
    match p
    case Itself(u) => [u]
    case Pair(high, low) => [high, low]
    case Short(letter) => [ShortMeaning(letter)]
    case Coded(hex) => [HexValue(hex)]
    case CodedPair(high, low) => [HexValue(high), HexValue(low)]
  }

  predicate LegalPieces(ps: seq<Piece>) { forall i :: 0 <= i < |ps| ==> LegalPiece(ps[i]) }

  function PiecesText(ps: seq<Piece>): Text {
    if ps == [] then [] else PieceText(ps[0]) + PiecesText(ps[1..])
  }

  function PiecesUnits(ps: seq<Piece>): Text
    requires LegalPieces(ps)
  {
    if ps == [] then [] else PieceUnits(ps[0]) + PiecesUnits(ps[1..])
  }

  lemma {:induction false} HexitReads(u: CodeUnit)
    ensures IsHexit(u) <==> IsHex(u)
    ensures IsHexit(u) ==> HexitValue(u) == HexNibble(u)
  {
  }

  /** Four hexadecimal digits as the readers see them. */
  lemma {:induction false} Hex4Front(hex: Text, rest: Text)
    requires |hex| == 4
    ensures StartsWithHex4(hex + rest) <==> IsHex4(hex)
    ensures IsHex4(hex) ==> Hex4(hex + rest) == HexValue(hex)
  {
    HexitReads(hex[0]);
    HexitReads(hex[1]);
    HexitReads(hex[2]);
    HexitReads(hex[3]);
    assert forall i :: 0 <= i < 4 ==> (hex + rest)[i] == hex[i];
  }

  lemma {:induction false} PieceReads(p: Piece, rest: Text)
    requires LegalPiece(p)
    ensures var s := PieceText(p) + rest;
            s != [] && s[0] != QUOTE && ReadCharacter(s) == Read(PieceUnits(p), rest)
  {
    var s := PieceText(p) + rest;
    match p
    case Itself(u) => assert s[..1] == [u] && s[1..] == rest;
    case Pair(high, low) => assert s[..2] == [high, low] && s[2..] == rest;
    case Short(letter) => assert s[1..][1..] == rest;
    case Coded(hex) => CodedReads(hex, rest);
    case CodedPair(high, low) => CodedPairReads(high, low, rest);
  }

  lemma {:induction false} CodedReads(hex: Text, rest: Text)
    requires LegalPiece(Coded(hex))
    ensures var s := PieceText(Coded(hex)) + rest;
            s[0] == BACKSLASH && ReadEscape(s[1..]) == Read([HexValue(hex)], rest)
  {
    var s := PieceText(Coded(hex)) + rest;
    Hex4Front(hex, rest);
    assert s[1..][1..] == hex + rest && s[1..][5..] == rest;
  }

  lemma {:induction false} CodedPairReads(high: Text, low: Text, rest: Text)
    requires LegalPiece(CodedPair(high, low))
    ensures var s := PieceText(CodedPair(high, low)) + rest;
            s[0] == BACKSLASH && ReadEscape(s[1..]) == Read([HexValue(high), HexValue(low)], rest)
  {
    var second := [BACKSLASH, LETTER_U] + (low + rest);
    Hex4Front(high, second);
    Hex4Front(low, rest);
    CodedPairParts(high, low, rest);
  }

  lemma {:induction false} CodedPairParts(high: Text, low: Text, rest: Text)
    requires |high| == |low| == 4
    ensures var s := PieceText(CodedPair(high, low)) + rest;
            var second := [BACKSLASH, LETTER_U] + (low + rest);
            && s[0] == BACKSLASH && s[1..][0] == LETTER_U
            && s[1..][1..] == high + second && s[1..][5..] == second
            && second[2..] == low + rest && second[6..] == rest
  {
  }

  lemma {:induction false} ReadPiece(s: Text) returns (p: Piece)
    requires s != [] && s[0] != QUOTE && ReadCharacter(s).Read?
    ensures LegalPiece(p) && PieceUnits(p) == ReadCharacter(s).value
    ensures s == PieceText(p) + ReadCharacter(s).rest
  {
    if s[0] != BACKSLASH {
      p := if IsHigh(s[0]) then Pair(s[0], s[1]) else Itself(s[0]);
    } else {
      p := ReadEscapePiece(s);
    }
  }

  lemma {:induction false} ReadEscapePiece(s: Text) returns (p: Piece)
    requires s != [] && s[0] == BACKSLASH && ReadEscape(s[1..]).Read?
    ensures LegalPiece(p) && PieceUnits(p) == ReadEscape(s[1..]).value
    ensures s == PieceText(p) + ReadEscape(s[1..]).rest
  {
    var t := s[1..];
    if SimpleEscape(t[0]).0 {
      p := Short(t[0]);
    } else if !IsHigh(Hex4(t[1..])) {
      p := Coded(t[1..5]);
      assert t[1..] == t[1..5] + t[5..];
      Hex4Front(t[1..5], t[5..]);
    } else {
      p := CodedPair(t[1..5], t[7..11]);
      assert t[1..] == t[1..5] + t[5..] && t[5..][2..] == t[7..11] + t[11..];
      Hex4Front(t[1..5], t[5..]);
      Hex4Front(t[7..11], t[11..]);
      assert t[5..][6..] == t[11..];
    }
  }

  lemma {:induction false} PiecesRead(ps: seq<Piece>, rest: Text, output: Text)
    requires LegalPieces(ps) && ValidUnicode(output)
    ensures ReadBody(PiecesText(ps) + ([QUOTE] + rest), output) == Read(output + PiecesUnits(ps), rest)
  {
    if ps == [] {
      ReadClosingQuote(rest, output);
      assert PiecesText(ps) + ([QUOTE] + rest) == [QUOTE] + rest && output + PiecesUnits(ps) == output;
    } else {
      var tail := PiecesText(ps[1..]) + ([QUOTE] + rest);
      var units := PieceUnits(ps[0]);
      Regroup(PieceText(ps[0]), PiecesText(ps[1..]), [QUOTE] + rest);
      PieceReads(ps[0], tail);
      CharacterIsValid(PieceText(ps[0]) + tail);
      ValidUnicodeConcat(output, units);
      PiecesRead(ps[1..], rest, output + units);
      Regroup(output, units, PiecesUnits(ps[1..]));
    }
  }

  lemma {:induction false} ReadPieces(s: Text, output: Text) returns (ps: seq<Piece>)
    requires ReadBody(s, output).Read?
    ensures LegalPieces(ps) && s == PiecesText(ps) + ([QUOTE] + ReadBody(s, output).rest)
    ensures ReadBody(s, output).value == output + PiecesUnits(ps)
    decreases |s|
  {
    if s[0] == QUOTE {
      ps := [];
      assert s == [QUOTE] + s[1..] && output + PiecesUnits([]) == output;
    } else {
      var p := ReadPiece(s);
      var rest := ReadCharacter(s).rest;
      var more := ReadPieces(rest, output + PieceUnits(p));
      ps := [p] + more;
      assert ps[1..] == more;
      Regroup(PieceText(p), PiecesText(more), [QUOTE] + ReadBody(s, output).rest);
      Regroup(output, PieceUnits(p), PiecesUnits(more));
    }
  }

  // ---------------------------------------------------------------------
  // Numbers
  // ---------------------------------------------------------------------

  /** The exponent part: nothing, or a letter, perhaps a sign, and digits. */
  datatype Power = NoPower | Power(letter: CodeUnit, sign: Text, digits: seq<Digit>)

  datatype Figure = Figure(negative: bool, whole: seq<Digit>, fraction: seq<Digit>, power: Power)

  predicate LegalPower(p: Power) {
    p.Power? ==> (p.letter == 0x65 || p.letter == 0x45) && (p.sign == [] || p.sign == [0x2B] || p.sign == [0x2D])
                 && p.digits != []
  }

  /** Digits as code units. */
  function Units(ds: seq<Digit>): Text {
    seq(|ds|, i requires 0 <= i < |ds| => 0x30 + ds[i] as int)
  }

  function TenTo(n: nat): nat { if n == 0 then 1 else 10 * TenTo(n - 1) }

  /** What digits are worth, each at its power of ten. */
  function Decimal(ds: seq<Digit>): nat {
    if ds == [] then 0 else ds[0] * TenTo(|ds| - 1) + Decimal(ds[1..])
  }

  function PowerText(p: Power): Text {
    match p
    case NoPower => []
    case Power(letter, sign, digits) => [letter] + (sign + Units(digits))
  }

  /** A point and digits, or nothing. */
  function FractionUnits(ds: seq<Digit>): Text { if ds == [] then [] else [0x2E] + Units(ds) }

  function PowerValue(p: Power): int {
    match p
    case NoPower => 0
    case Power(_, sign, digits) =>
      var magnitude: int := Decimal(digits);
      if sign == [0x2D] then -magnitude else magnitude
  }

  function FigureToken(f: Figure): Token { Token(f.negative, f.whole, f.fraction, PowerValue(f.power)) }

  predicate LegalFigure(f: Figure) { PrintableToken(FigureToken(f)) && LegalPower(f.power) }

  /** The figure in front of `tail`. */
  function FigureText(f: Figure, tail: Text): Text {
    (if f.negative then [0x2D] else [])
    + (Units(f.whole) + (FractionUnits(f.fraction) + (PowerText(f.power) + tail)))
  }

  lemma {:induction false} UnitsPrinted(ds: seq<Digit>)
    ensures DigitText(ds) == Units(ds) && FractionText(ds) == FractionUnits(ds)
  {
    if ds != [] {
      UnitsPrinted(ds[1..]);
    }
  }

  lemma {:induction false} DecimalOfLonger(d: Digit, ds: seq<Digit>)
    ensures DigitsValue([d] + ds) == d * TenTo(|ds|) + DigitsValue(ds)
  {
    var all := [d] + ds;
    if ds == [] {
      assert all[..0] == [];
    } else {
      var front := ds[..|ds| - 1];
      DecimalOfLonger(d, front);
      assert all[..|all| - 1] == [d] + front;
      MovedUp(d as int, TenTo(|front|), DigitsValue(front), ds[|ds| - 1] as int);
    }
  }

  lemma {:induction false} MovedUp(d: int, ten: int, value: int, last: int)
    ensures (d * ten + value) * 10 + last == d * (10 * ten) + (value * 10 + last)
  {
  }

  /** The reader's way of adding digits up gives the same. */
  lemma {:induction false} DecimalIsRead(ds: seq<Digit>)
    ensures DigitsValue(ds) == Decimal(ds)
  {
    if ds != [] {
      DecimalIsRead(ds[1..]);
      DecimalOfLonger(ds[0], ds[1..]);
      assert ds == [ds[0]] + ds[1..];
    }
  }

  /** The digits of an exponent behind its sign. */
  function ReadPowerDigits(s: Text, negative: bool): Parsed<int> {
    var (ds, rest) :- ReadDigits(s);
    var magnitude: int := DigitsValue(ds);
    Read(if negative then -magnitude else magnitude, rest)
  }

  lemma {:induction false} ExponentIsSigned(s: Text)
    ensures ReadExponent(s) ==
            if !StartsWith(s, 0x65) && !StartsWith(s, 0x45) then Read(0, s)
            else if StartsWith(s[1..], 0x2D) then ReadPowerDigits(s[2..], true)
            else if StartsWith(s[1..], 0x2B) then ReadPowerDigits(s[2..], false)
            else ReadPowerDigits(s[1..], false)
  {
  }

  /** The figure is complete in front of this text: nothing there would be read as more of it. */
  predicate Stops(f: Figure, rest: Text) {
    rest != [] ==>
      && !(0x30 <= rest[0] <= 0x39)
      && (rest[0] == 0x2E ==> f.fraction != [] || f.power.Power?)
      && (rest[0] in {0x65, 0x45} ==> f.power.Power?)
  }

  lemma {:induction false} PowerReads(p: Power, rest: Text)
    requires LegalPower(p) && !StartsWithDigit(rest)
    requires p.NoPower? ==> !StartsWith(rest, 0x65) && !StartsWith(rest, 0x45)
    ensures ReadExponent(PowerText(p) + rest) == Read(PowerValue(p), rest)
  {
    var s := PowerText(p) + rest;
    if p.NoPower? {
      assert s == rest;
    } else {
      UnitsPrinted(p.digits);
      DecimalIsRead(p.digits);
      ReadDigitsText(p.digits, rest);
      PowerParts(p, rest);
      ExponentIsSigned(s);
      assert ReadPowerDigits(s[1 + |p.sign|..], p.sign == [0x2D]) == Read(PowerValue(p), rest);
    }
  }

  lemma {:induction false} PowerParts(p: Power, rest: Text)
    requires LegalPower(p) && p.Power?
    ensures var s := PowerText(p) + rest;
            && s[0] == p.letter && |s| > 1 + |p.sign|
            && s[1..] == p.sign + (Units(p.digits) + rest)
            && s[1 + |p.sign|..] == Units(p.digits) + rest
            && (p.sign == [] ==> IsDigit(s[1..][0])) && (p.sign != [] ==> s[1..][0] == p.sign[0])
  {
  }

  lemma {:induction false} FigureBoundaries(f: Figure, rest: Text)
    requires LegalFigure(f) && Stops(f, rest)
    ensures var afterFraction := PowerText(f.power) + rest;
            && !StartsWithDigit(afterFraction) && (f.fraction == [] ==> !StartsWith(afterFraction, 0x2E))
            && !StartsWithDigit(FractionUnits(f.fraction) + afterFraction)
  {
    var afterFraction := PowerText(f.power) + rest;
    assert f.power.NoPower? ==> afterFraction == rest;
    assert f.fraction == [] ==> FractionUnits(f.fraction) + afterFraction == afterFraction;
  }

  lemma {:induction false} FractionReads(ds: seq<Digit>, rest: Text)
    requires !StartsWithDigit(rest) && (ds == [] ==> !StartsWith(rest, 0x2E))
    ensures ReadFraction(FractionUnits(ds) + rest) == Read(ds, rest)
  {
    UnitsPrinted(ds);
    if ds == [] {
      EmptyInFront(rest);
    } else {
      FractionTail(ds, rest);
      ReadDigitsText(ds, rest);
    }
  }

  lemma {:induction false} FigureReads(f: Figure, rest: Text)
    requires LegalFigure(f) && Stops(f, rest)
    ensures ReadToken(FigureText(f, rest)) == Read(FigureToken(f), rest)
  {
    var afterFraction := PowerText(f.power) + rest;
    FigureStart(f, rest);
    FigureBoundaries(f, rest);
    UnitsPrinted(f.whole);
    ReadWholeText(f.whole, FractionUnits(f.fraction) + afterFraction);
    FractionReads(f.fraction, afterFraction);
    PowerReads(f.power, rest);
  }

  /** A number token behind its sign. */
  function ReadUnsigned(s: Text, negative: bool): Parsed<Token> {
    var (whole, afterWhole) :- ReadWhole(s);
    var (fraction, afterFraction) :- ReadFraction(afterWhole);
    var (exponent, rest) :- ReadExponent(afterFraction);
    Read(Token(negative, whole, fraction, exponent), rest)
  }

  lemma {:induction false} TokenIsSigned(s: Text)
    ensures ReadToken(s) == if StartsWith(s, 0x2D) then ReadUnsigned(s[1..], true) else ReadUnsigned(s, false)
  {
  }

  /** The figure without its sign. */
  function UnsignedText(f: Figure, tail: Text): Text {
    Units(f.whole) + (FractionUnits(f.fraction) + (PowerText(f.power) + tail))
  }

  lemma {:induction false} FigureStart(f: Figure, rest: Text)
    requires LegalFigure(f)
    ensures var s, unsigned := FigureText(f, rest), UnsignedText(f, rest);
            && s != [] && (s[0] == 0x2D || IsDigit(s[0])) && unsigned != [] && unsigned[0] == 0x30 + f.whole[0] as int
            && (if f.negative then s[0] == 0x2D && s[1..] == unsigned else s == unsigned)
  {
    EmptyInFront(UnsignedText(f, rest));
  }

  lemma {:induction false} DigitsSplit(s: Text)
    ensures s == Units(LeadingDigits(s)) + AfterDigits(s)
  {
    if StartsWithDigit(s) {
      DigitsSplit(s[1..]);
      assert s == [s[0]] + s[1..];
      assert Units(LeadingDigits(s)) == [s[0]] + Units(LeadingDigits(s[1..]));
    }
  }

  lemma {:induction false} LetterAndSignApart(s: Text, signed: bool)
    requires |s| >= if signed then 2 else 1
    ensures s == [s[0]] + ((if signed then [s[1]] else []) + s[if signed then 2 else 1..])
  {
  }

  lemma {:induction false} ReadPower(s: Text) returns (p: Power)
    requires ReadExponent(s).Read?
    ensures LegalPower(p) && PowerValue(p) == ReadExponent(s).value && s == PowerText(p) + ReadExponent(s).rest
    ensures p.Power? <==> StartsWith(s, 0x65) || StartsWith(s, 0x45)
  {
    if StartsWith(s, 0x65) || StartsWith(s, 0x45) {
      var signed := StartsWith(s[1..], 0x2D) || StartsWith(s[1..], 0x2B);
      var digits := s[if signed then 2 else 1..];
      DigitsSplit(digits);
      DecimalIsRead(LeadingDigits(digits));
      p := Power(s[0], if signed then [s[1]] else [], LeadingDigits(digits));
      LetterAndSignApart(s, signed);
      ExponentIsSigned(s);
      Regroup(p.sign, Units(p.digits), ReadExponent(s).rest);
      Regroup([s[0]], p.sign + Units(p.digits), ReadExponent(s).rest);
    } else {
      p := NoPower;
      assert [] + s == s;
    }
  }

  lemma {:induction false} EmptyInFront(s: Text)
    ensures [] + s == s
  {
  }

  lemma {:induction false} ReadFractionSplit(s: Text)
    requires ReadFraction(s).Read?
    ensures s == FractionUnits(ReadFraction(s).value) + ReadFraction(s).rest
  {
    if StartsWith(s, 0x2E) {
      DigitsSplit(s[1..]);
      Regroup([0x2E], Units(LeadingDigits(s[1..])), AfterDigits(s[1..]));
      assert s == [0x2E] + s[1..];
    } else {
      EmptyInFront(s);
    }
  }

  lemma {:induction false} ReadWholeSplit(s: Text)
    requires ReadWhole(s).Read?
    ensures var ds := ReadWhole(s).value;
            (ds == [0] || (ds != [] && ds[0] != 0)) && s == Units(ds) + ReadWhole(s).rest
  {
    if StartsWith(s, 0x30) {
      assert Units([0]) == [0x30];
      assert s == [0x30] + s[1..];
    } else {
      DigitsSplit(s);
    }
  }

  lemma {:induction false} NoDigitBehind(s: Text)
    ensures !StartsWithDigit(AfterDigits(s))
  {
    if StartsWithDigit(s) {
      NoDigitBehind(s[1..]);
    }
  }

  lemma {:induction false} WholeStops(s: Text)
    requires ReadWhole(s).Read?
    ensures !StartsWithDigit(ReadWhole(s).rest)
  {
    NoDigitBehind(s);
  }

  lemma {:induction false} FractionStops(s: Text)
    requires ReadFraction(s).Read? && !StartsWithDigit(s)
    ensures !StartsWithDigit(ReadFraction(s).rest)
    ensures ReadFraction(s).value == [] ==> !StartsWith(ReadFraction(s).rest, 0x2E)
  {
    if StartsWith(s, 0x2E) {
      NoDigitBehind(s[1..]);
    }
  }

  lemma {:induction false} ExponentStops(s: Text)
    requires ReadExponent(s).Read? && !StartsWithDigit(s)
    ensures !StartsWithDigit(ReadExponent(s).rest)
    ensures !StartsWith(s, 0x65) && !StartsWith(s, 0x45) ==> ReadExponent(s).rest == s
  {
    if StartsWith(s, 0x65) || StartsWith(s, 0x45) {
      NoDigitBehind(s[if StartsWith(s[1..], 0x2D) || StartsWith(s[1..], 0x2B) then 2 else 1..]);
    }
  }

  lemma {:induction false} ReadFigure(s: Text) returns (f: Figure)
    requires ReadToken(s).Read?
    ensures LegalFigure(f) && FigureToken(f) == ReadToken(s).value && s == FigureText(f, ReadToken(s).rest)
    ensures Stops(f, ReadToken(s).rest)
  {
    var negative := StartsWith(s, 0x2D);
    var unsigned := if negative then s[1..] else s;
    var whole := ReadWhole(unsigned);
    var fraction := ReadFraction(whole.rest);
    var power := ReadPower(fraction.rest);
    ReadWholeSplit(unsigned);
    ReadFractionSplit(whole.rest);
    f := Figure(negative, whole.value, fraction.value, power);
    SignApart(s);
    WholeStops(unsigned);
    FractionStops(whole.rest);
    ExponentStops(fraction.rest);
  }

  lemma {:induction false} SignApart(s: Text)
    ensures StartsWith(s, 0x2D) ==> s == [0x2D] + s[1..]
    ensures s == [] + s
  {
  }
}
