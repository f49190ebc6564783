/** JSON string tokens: `JSON.stringify` of a string, and the two readers that undo it. A printed token ends where
    its string ends, whatever follows, holds no surrogate alone, and is as short as any. */
module Strings {
  import opened Utf16
  import opened Parsing

  const QUOTE: CodeUnit := 0x22
  const BACKSLASH: CodeUnit := 0x5C
  const LETTER_U: CodeUnit := 0x75
  const COMMA: CodeUnit := 0x2C
  const OPEN_ARRAY: CodeUnit := 0x5B
  const CLOSE_ARRAY: CodeUnit := 0x5D

  // ---------------------------------------------------------------------
  // Printing (section 3.2.2.2 of RFC 8785)
  // ---------------------------------------------------------------------

  type Nibble = n: int | 0 <= n < 16

  function HexDigit(n: Nibble): CodeUnit {
    if n < 10 then 0x30 + n as int else 0x57 + n as int
  }

  function UnicodeEscape(u: CodeUnit): Text {
    [BACKSLASH, LETTER_U, HexDigit(u / 0x1000), HexDigit(u / 0x100 % 16), HexDigit(u / 16 % 16), HexDigit(u % 16)]
  }

  /** The letter of a two-character escape, or 0 when the unit has none. */
  function ShortEscape(u: CodeUnit): CodeUnit {
    if u == 0x08 then 0x62
    else if u == 0x09 then 0x74
    else if u == 0x0A then 0x6E
    else if u == 0x0C then 0x66
    else if u == 0x0D then 0x72
    else if u == QUOTE || u == BACKSLASH then u
    else 0
  }

  function EscapeUnit(u: CodeUnit): Text {
    if ShortEscape(u) != 0 then [BACKSLASH, ShortEscape(u)]
    else if u < 0x20 || IsHigh(u) || IsLow(u) then UnicodeEscape(u)
    else [u]
  }

  predicate StartsWithPair(t: Text) { |t| > 1 && IsHigh(t[0]) && IsLow(t[1]) }

  function EscapeBody(t: Text): Text {
    if t == [] then []
    else if StartsWithPair(t) then t[..2] + EscapeBody(t[2..])
    else EscapeUnit(t[0]) + EscapeBody(t[1..])
  }

  /** `JSON.stringify` of a string; a surrogate without its partner is escaped. */
  function Quote(t: Text): Text {
    [QUOTE] + EscapeBody(t) + [QUOTE]
  }

  // ---------------------------------------------------------------------
  // The strict parser's string grammar
  // ---------------------------------------------------------------------

  predicate IsHex(u: CodeUnit) { IsDigit(u) || 0x61 <= u <= 0x66 || 0x41 <= u <= 0x46 }

  function HexNibble(u: CodeUnit): Nibble
    requires IsHex(u)
  {
    if IsDigit(u) then u as int - 0x30 else if u >= 0x61 then u as int - 0x57 else u as int - 0x37
  }

  predicate StartsWithHex4(s: Text) {
    |s| >= 4 && IsHex(s[0]) && IsHex(s[1]) && IsHex(s[2]) && IsHex(s[3])
  }

  function Hex4(s: Text): CodeUnit
    requires StartsWithHex4(s)
  {
    HexNibble(s[0]) as int * 0x1000 + HexNibble(s[1]) as int * 0x100
    + HexNibble(s[2]) as int * 16 + HexNibble(s[3]) as int
  }

  /** The table of simple escapes: the unit a letter stands for, or none. */
  function SimpleEscape(letter: CodeUnit): (found: (bool, CodeUnit)) {
    if letter == QUOTE || letter == BACKSLASH || letter == 0x2F then (true, letter)
    else if letter == 0x62 then (true, 0x08)
    else if letter == 0x66 then (true, 0x0C)
    else if letter == 0x6E then (true, 0x0A)
    else if letter == 0x72 then (true, 0x0D)
    else if letter == 0x74 then (true, 0x09)
    else (false, 0)
  }

  /** One escape sequence, `s` standing behind the backslash: the code units it denotes. */
  function ReadEscape(s: Text): (p: Parsed<Text>)
    ensures p.Read? ==> |p.rest| < |s|
  {
    if s == [] then Failed(InvalidEscape, 0)
    else if SimpleEscape(s[0]).0 then Read([SimpleEscape(s[0]).1], s[1..])
    else if s[0] != LETTER_U then Failed(InvalidEscape, |s| + 1)
    else if !StartsWithHex4(s[1..]) then Failed(InvalidUnicodeEscape, |s| - 1)
    else
      var first := Hex4(s[1..]);
      var after := s[5..];
      if IsHigh(first) then
        if !(|after| >= 2 && after[0] == BACKSLASH && after[1] == LETTER_U) then
          Failed(UnpairedHighSurrogate, |after|)
        else if !StartsWithHex4(after[2..]) then Failed(InvalidUnicodeEscape, |after| - 2)
        else if !IsLow(Hex4(after[2..])) then Failed(UnpairedHighSurrogate, |after| - 2)
        else Read([first, Hex4(after[2..])], after[6..])
      else if IsLow(first) then Failed(UnpairedLowSurrogate, |s| - 1)
      else Read([first], after)
  }

  /** One character inside the quotes, written as itself or as an escape. */
  function ReadCharacter(s: Text): (p: Parsed<Text>)
    requires s != []
    ensures p.Read? ==> |p.rest| < |s|
  {
    if s[0] == BACKSLASH then ReadEscape(s[1..])
    else if s[0] < 0x20 then Failed(UnescapedControlCharacter, |s|)
    else if IsHigh(s[0]) then
      if StartsWithPair(s) then Read(s[..2], s[2..]) else Failed(UnpairedHighSurrogate, |s|)
    else if IsLow(s[0]) then Failed(UnpairedLowSurrogate, |s|)
    else Read(s[..1], s[1..])
  }

  /** Everything between the quotes, appended to `output`. */
  function ReadBody(s: Text, output: Text): (p: Parsed<Text>)
    ensures p.Read? ==> |p.rest| < |s| && ValidUnicode(p.value)
    decreases |s|
  {
    if s == [] then Failed(UnterminatedString, 0)
    else if s[0] == QUOTE then
      if ValidUnicode(output) then Read(output, s[1..]) else Thrown(CheckUnicode(output))
    else
      var (units, rest) :- ReadCharacter(s);
      ReadBody(rest, output + units)
  }

  function ReadString(s: Text): (p: Parsed<Text>)
    ensures p.Read? ==> |p.rest| < |s| && ValidUnicode(p.value)
  {
    if StartsWith(s, QUOTE) then ReadBody(s[1..], []) else Failed(ExpectedString, |s|)
  }

  lemma {:induction false} CharacterIsValid(s: Text)
    requires s != [] && ReadCharacter(s).Read?
    ensures ValidUnicode(ReadCharacter(s).value)
  {
    var units := ReadCharacter(s).value;
    assert units[1..] == [] || units[2..] == [];
  }

  /** The check on the finished string can never fail: every step before it keeps surrogates paired. */
  lemma {:induction false} FinalCheckNeverThrows(s: Text, output: Text)
    requires ValidUnicode(output)
    ensures !ReadBody(s, output).Thrown?
    decreases |s|
  {
    if s != [] && s[0] != QUOTE {
      var p := ReadCharacter(s);
      if p.Read? {
        CharacterIsValid(s);
        ValidUnicodeConcat(output, p.value);
        FinalCheckNeverThrows(p.rest, output + p.value);
      }
    }
  }

  // ---------------------------------------------------------------------
  // `JSON.parse`: the same grammar without any regard to surrogates
  // ---------------------------------------------------------------------

  datatype Lenient = Malformed | Parse(value: Text, rest: Text)

  /** The string grammar of RFC 8259, section 7. */
  function ParseBody(s: Text, output: Text): Lenient
    decreases |s|
  {
    if s == [] || s[0] < 0x20 then Malformed
    else if s[0] == QUOTE then Parse(output, s[1..])
    else if s[0] != BACKSLASH then ParseBody(s[1..], output + [s[0]])
    else if |s| == 1 then Malformed
    else if SimpleEscape(s[1]).0 then ParseBody(s[2..], output + [SimpleEscape(s[1]).1])
    else if s[1] == LETTER_U && StartsWithHex4(s[2..]) then ParseBody(s[6..], output + [Hex4(s[2..])])
    else Malformed
  }

  // ---------------------------------------------------------------------
  // Reading undoes printing
  // ---------------------------------------------------------------------

  lemma {:induction false} HexDigitNibble(n: Nibble)
    ensures IsHex(HexDigit(n)) && HexNibble(HexDigit(n)) == n
  {
  }

  lemma {:induction false} FourNibbles(u: CodeUnit)
    ensures u == u / 0x1000 * 0x1000 + u / 0x100 % 16 * 0x100 + u / 16 % 16 * 16 + u % 16
  {
    LastNibble(u, 1);
    LastNibble(u, 16);
    LastNibble(u, 0x100);
  }

  /** Taking one more nibble off what is left of `u`. */
  lemma {:induction false} LastNibble(u: nat, scale: nat)
    requires scale == 1 || scale == 16 || scale == 0x100
    ensures u / scale == u / (scale * 16) * 16 + u / scale % 16
  {
    if scale == 1 {
      assert u == u / 16 * 16 + u % 16;
    } else if scale == 16 {
      DivideTwice(u, 16, 16);
    } else {
      DivideTwice(u, 0x100, 16);
    }
  }

  lemma {:induction false} DivideTwice(u: nat, a: nat, b: nat)
    requires (a == 16 || a == 0x100) && b == 16
    ensures u / (a * b) == u / a / b
  {
  }

  lemma {:induction false} Hex4OfNibbles(a: Nibble, b: Nibble, c: Nibble, d: Nibble, rest: Text)
    ensures var s := [HexDigit(a), HexDigit(b), HexDigit(c), HexDigit(d)] + rest;
            StartsWithHex4(s) && Hex4(s) == a as int * 0x1000 + b as int * 0x100 + c as int * 16 + d as int
  {
    HexDigitNibble(a);
    HexDigitNibble(b);
    HexDigitNibble(c);
    HexDigitNibble(d);
  }

  lemma {:induction false} Hex4OfEscape(u: CodeUnit, rest: Text)
    ensures var s := UnicodeEscape(u) + rest;
            StartsWithHex4(s[2..]) && Hex4(s[2..]) == u && s[6..] == rest
  {
    var a: Nibble, b: Nibble, c: Nibble, d: Nibble := u / 0x1000, u / 0x100 % 16, u / 16 % 16, u % 16;
    FourNibbles(u);
    Hex4OfNibbles(a, b, c, d, rest);
    assert (UnicodeEscape(u) + rest)[2..] == [HexDigit(a), HexDigit(b), HexDigit(c), HexDigit(d)] + rest;
  }

  lemma {:induction false} ShortEscapeReads(u: CodeUnit)
    requires ShortEscape(u) != 0
    ensures SimpleEscape(ShortEscape(u)) == (true, u)
  {
  }

  lemma {:induction false} EscapeBodyStep(t: Text, rest: Text)
    requires t != []
    ensures StartsWithPair(t) ==> EscapeBody(t) + rest == t[..2] + (EscapeBody(t[2..]) + rest)
    ensures !StartsWithPair(t) ==> EscapeBody(t) + rest == EscapeUnit(t[0]) + (EscapeBody(t[1..]) + rest)
  {
  }

  /** The lenient reader steps over one escaped unit. */
  lemma {:induction false} ParseUnit(u: CodeUnit, rest: Text, output: Text)
    ensures ParseBody(EscapeUnit(u) + rest, output) == ParseBody(rest, output + [u])
  {
    var s := EscapeUnit(u) + rest;
    if ShortEscape(u) != 0 {
      ShortEscapeReads(u);
      assert s[2..] == rest;
    } else if u < 0x20 || IsHigh(u) || IsLow(u) {
      Hex4OfEscape(u, rest);
    } else {
      assert s[1..] == rest;
    }
  }

  lemma {:induction false} ParsePair(a: CodeUnit, b: CodeUnit, rest: Text, output: Text)
    requires IsHigh(a) && IsLow(b)
    ensures ParseBody([a, b] + rest, output) == ParseBody(rest, output + [a, b])
  {
    var s := [a, b] + rest;
    assert s[1..] == [b] + rest;
    assert s[1..][1..] == rest;
    assert output + [a] + [b] == output + [a, b];
  }

  /** Length of the first character of `t`. */
  function CharLength(t: Text): (k: nat)
    requires t != []
    ensures 0 < k <= |t|
  {
    if StartsWithPair(t) then 2 else 1
  }

  lemma {:induction false} ParseFirstPair(t: Text, tail: Text, output: Text)
    requires StartsWithPair(t)
    ensures ParseBody(EscapeBody(t) + tail, output) == ParseBody(EscapeBody(t[2..]) + tail, output + t[..2])
  {
    EscapeBodyStep(t, tail);
    ParsePair(t[0], t[1], EscapeBody(t[2..]) + tail, output);
    assert t[..2] == [t[0], t[1]];
  }

  lemma {:induction false} ParseFirstUnit(t: Text, tail: Text, output: Text)
    requires t != [] && !StartsWithPair(t)
    ensures ParseBody(EscapeBody(t) + tail, output) == ParseBody(EscapeBody(t[1..]) + tail, output + t[..1])
  {
    EscapeBodyStep(t, tail);
    ParseUnit(t[0], EscapeBody(t[1..]) + tail, output);
    assert t[..1] == [t[0]];
  }

  lemma {:induction false} ParseEnd(rest: Text, output: Text)
    ensures ParseBody([QUOTE] + rest, output) == Parse(output, rest)
  {
    assert ([QUOTE] + rest)[1..] == rest;
  }

  lemma {:induction false} FirstAndRest(output: Text, t: Text, k: nat)
    requires k <= |t|
    ensures output + t[..k] + t[k..] == output + t
  {
  }

  /** For every string, paired or not, reading a token back gives the string and stops at its closing quote. */
  lemma {:induction false} ParseUndoesQuote(t: Text, rest: Text, output: Text)
    ensures ParseBody(EscapeBody(t) + ([QUOTE] + rest), output) == Parse(output + t, rest)
  {
    if t == [] {
      assert EscapeBody(t) + ([QUOTE] + rest) == [QUOTE] + rest && output + t == output;
      ParseEnd(rest, output);
    } else {
      var k := CharLength(t);
      if StartsWithPair(t) {
        ParseFirstPair(t, [QUOTE] + rest, output);
      } else {
        ParseFirstUnit(t, [QUOTE] + rest, output);
      }
      ParseUndoesQuote(t[k..], rest, output + t[..k]);
      FirstAndRest(output, t, k);
    }
  }

  /** A printed token is self-delimiting: none is a proper prefix of another, and equal tokens quote equal strings. */
  lemma {:induction false} QuoteSelfDelimiting(a: Text, b: Text, x: Text, y: Text)
    requires Quote(a) + x == Quote(b) + y
    ensures a == b && x == y
  {
    QuoteTail(a, x);
    QuoteTail(b, y);
    ParseUndoesQuote(a, x, []);
    ParseUndoesQuote(b, y, []);
    assert [] + a == a && [] + b == b;
  }

  lemma {:induction false} QuoteTail(t: Text, rest: Text)
    ensures var s := Quote(t) + rest;
            s != [] && s[0] == QUOTE && s[1..] == EscapeBody(t) + ([QUOTE] + rest)
  {
  }

  lemma {:induction false} ReadClosingQuote(rest: Text, output: Text)
    requires ValidUnicode(output)
    ensures ReadBody([QUOTE] + rest, output) == Read(output, rest)
  {
    assert ([QUOTE] + rest)[1..] == rest;
  }

  // ---------------------------------------------------------------------
  // No shorter token will do
  // ---------------------------------------------------------------------

  lemma {:induction false} EscapeConcat(a: Text, b: Text)
    requires ValidUnicode(a)
    ensures EscapeBody(a + b) == EscapeBody(a) + EscapeBody(b)
  {
    if a == [] {
      assert a + b == b;
    } else {
      var k := CharLength(a);
      assert (a + b)[k..] == a[k..] + b && (a + b)[..k] == a[..k];
      EscapeConcat(a[k..], b);
    }
  }

  /** However one character is written, its canonical form is no longer. */
  lemma {:induction false} CharacterShortest(s: Text)
    requires s != [] && s[0] != QUOTE && ReadCharacter(s).Read?
    ensures |EscapeBody(ReadCharacter(s).value)| <= |s| - |ReadCharacter(s).rest|
  {
    var units := ReadCharacter(s).value;
    if |units| == 1 {
      assert units[1..] == [];
      assert EscapeBody(units) == EscapeUnit(units[0]) + [];
      assert |EscapeUnit(units[0])| <= 6;
    } else {
      assert units[..2] == units && units[2..] == [];
      assert EscapeBody(units) == units + [];
    }
  }

  lemma {:induction false} BodyShortest(s: Text, output: Text, value: Text)
    requires ReadBody(s, output).Read? && ReadBody(s, output).value == output + value
    ensures |EscapeBody(value)| + 1 <= |s| - |ReadBody(s, output).rest|
    decreases |s|
  {
    if s[0] == QUOTE {
      assert |output + value| == |output| + |value|;
    } else {
      var p := ReadCharacter(s);
      ReadBodyExtends(p.rest, output + p.value);
      var more := ReadBody(s, output).value[|output + p.value|..];
      assert output + value == (output + p.value) + more;
      Regroup(output, p.value, more);
      SameTail(output, value, p.value + more);
      CharacterShortest(s);
      CharacterIsValid(s);
      EscapeConcat(p.value, more);
      BodyShortest(p.rest, output + p.value, more);
    }
  }

  lemma {:induction false} SameTail(a: Text, b: Text, c: Text)
    requires a + b == a + c
    ensures b == c
  {
    assert (a + b)[|a|..] == b && (a + c)[|a|..] == c;
  }

  lemma {:induction false} ReadBodyExtends(s: Text, output: Text)
    requires ReadBody(s, output).Read?
    ensures output <= ReadBody(s, output).value
    decreases |s|
  {
    if s[0] != QUOTE {
      ReadBodyExtends(ReadCharacter(s).rest, output + ReadCharacter(s).value);
    }
  }

  /** Section 3.2.2.2 of RFC 8785 by what it achieves: no token the strict parser reads as this string is shorter. */
  lemma {:induction false} QuoteShortest(s: Text)
    requires ReadString(s).Read?
    ensures |Quote(ReadString(s).value)| <= |s| - |ReadString(s).rest|
  {
    var value := ReadString(s).value;
    assert [] + value == value;
    BodyShortest(s[1..], [], value);
  }

  // ---------------------------------------------------------------------
  // Shape of a token
  // ---------------------------------------------------------------------

  lemma {:induction false} EscapeBodyValid(t: Text)
    ensures ValidUnicode(EscapeBody(t))
  {
    if t == [] {
    } else if StartsWithPair(t) {
      EscapeBodyValid(t[2..]);
      assert t[..2][2..] == [];
      ValidUnicodeConcat(t[..2], EscapeBody(t[2..]));
    } else {
      EscapeBodyValid(t[1..]);
      EscapeUnitValid(t[0]);
      ValidUnicodeConcat(EscapeUnit(t[0]), EscapeBody(t[1..]));
    }
  }

  lemma {:induction false} EscapeUnitValid(u: CodeUnit)
    ensures ValidUnicode(EscapeUnit(u))
  {
    NoSurrogatesValid(EscapeUnit(u));
  }

  /** `JSON.stringify` never emits an unpaired surrogate. */
  lemma {:induction false} QuoteValid(t: Text)
    ensures ValidUnicode(Quote(t))
  {
    EscapeBodyValid(t);
    NoSurrogatesValid([QUOTE]);
    ValidUnicodeConcat([QUOTE], EscapeBody(t));
    ValidUnicodeConcat([QUOTE] + EscapeBody(t), [QUOTE]);
  }

  /** Text without quotes, backslashes, controls or surrogates is printed as it is. */
  predicate Plain(t: Text) {
    forall i :: 0 <= i < |t| ==> 0x20 <= t[i] < 0x80 && t[i] != QUOTE && t[i] != BACKSLASH
  }

  lemma {:induction false} PlainIsVerbatim(t: Text)
    requires Plain(t)
    ensures EscapeBody(t) == t
  {
    if t != [] {
      assert Plain(t[1..]) by {
        forall i | 0 <= i < |t[1..]| ensures t[1..][i] == t[i + 1] {
        }
      }
      assert EscapeUnit(t[0]) == [t[0]];
      PlainIsVerbatim(t[1..]);
      assert t == [t[0]] + t[1..];
    }
  }
}
