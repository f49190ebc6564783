/** Outcome of reading one construct from the front of the remaining text. */
module Parsing {
  import opened Utf16

  /** The codes the strict parser reports. */
  datatype ErrorCode =
    | ExpectedString
    | InvalidEscape
    | InvalidUnicodeEscape
    | UnpairedHighSurrogate
    | UnpairedLowSurrogate
    | UnescapedControlCharacter
    | UnterminatedString
    | LeadingZero
    | InvalidNumber
    | NonFiniteNumber
    | ExpectedComma
    | ExpectedColon
    | ExpectedPropertyName
    | DuplicateProperty
    | InvalidLiteral
    | UnexpectedToken
    | TrailingData

  /** `Failed(code, left)` is an error at the position where `left` code units remain;
      `Thrown` is the surrogate check's own exception, which carries no position. */
  datatype Parsed<+T> =
    | Read(value: T, rest: Text)
    | Failed(code: ErrorCode, left: nat)
    | Thrown(reason: Surrogates)
  {
    predicate IsFailure() { !Read? }

    function PropagateFailure<U>(): Parsed<U>
      requires !Read?
    {
      match this
      case Failed(code, left) => Failed(code, left)
      case Thrown(reason) => Thrown(reason)
    }

    function Extract(): (T, Text)
      requires Read?
    {
      (value, rest)
    }
  }

  predicate StartsWith(s: Text, u: CodeUnit) { s != [] && s[0] == u }

  predicate IsDigit(u: CodeUnit) { 0x30 <= u <= 0x39 }

  predicate StartsWithDigit(s: Text) { s != [] && IsDigit(s[0]) }

  predicate IsWhitespace(u: CodeUnit) { u == 0x09 || u == 0x0A || u == 0x0D || u == 0x20 }

  function SkipWhitespace(s: Text): (r: Text)
    ensures |r| <= |s|
  {
    if s != [] && IsWhitespace(s[0]) then SkipWhitespace(s[1..]) else s
  }
}
