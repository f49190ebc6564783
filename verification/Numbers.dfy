/** JSON numbers: the ECMAScript layout that prints them and the grammar that reads them. Both come down to which
    digit stands at which decimal place; the digits themselves and their rounding belong to the engine. */
module Numbers {
  import opened Utf16
  import opened Parsing

  type Digit = d: int | 0 <= d < 10

  /** A finite number is 0.d1d2...dk times ten to the power `point`, where d1...dk are the
      shortest digits the engine selects; zero has no digits. NaN and the infinities are `NonFinite`. */
  datatype Numeral = NonFinite | Finite(negative: bool, digits: seq<Digit>, point: int)

  predicate Normalized(n: Numeral) {
    n.Finite? ==>
      if n.digits == [] then n.point == 0
      else n.digits[0] != 0 && n.digits[|n.digits| - 1] != 0
  }

  type Num = n: Numeral | Normalized(n) witness NonFinite

  /** -0 and 0 are the same number. */
  function UnsignedZero(n: Num): Num {
    if n.Finite? && n.digits == [] then n.(negative := false) else n
  }

  // ---------------------------------------------------------------------
  // Digit strings
  // ---------------------------------------------------------------------

  function DigitUnit(d: Digit): CodeUnit { 0x30 + d as int }

  function UnitDigit(u: CodeUnit): Digit
    requires IsDigit(u)
  {
    u as int - 0x30
  }

  function DigitText(ds: seq<Digit>): (t: Text)
    ensures |t| == |ds|
  {
    if ds == [] then [] else [DigitUnit(ds[0])] + DigitText(ds[1..])
  }

  function Zeros(n: nat): (ds: seq<Digit>)
    ensures |ds| == n
    ensures forall i :: 0 <= i < n ==> ds[i] == 0
  {
    seq(n, _ => 0)
  }

  function NatDigits(n: nat): (ds: seq<Digit>)
    ensures ds != []
  {
    if n < 10 then [n] else NatDigits(n / 10) + [n % 10]
  }

  function DigitsValue(ds: seq<Digit>): nat {
    if ds == [] then 0 else DigitsValue(ds[..|ds| - 1]) * 10 + ds[|ds| - 1]
  }

  lemma {:induction false} NatDigitsValue(n: nat)
    ensures DigitsValue(NatDigits(n)) == n
  {
    var ds := NatDigits(n);
    if n < 10 {
      assert ds[..0] == [];
    } else {
      NatDigitsValue(n / 10);
      assert ds[..|ds| - 1] == NatDigits(n / 10);
    }
  }

  /** The digits at the front of `s`, and what follows them. */
  function LeadingDigits(s: Text): (ds: seq<Digit>)
    ensures StartsWithDigit(s) <==> ds != []
  {
    if StartsWithDigit(s) then [UnitDigit(s[0])] + LeadingDigits(s[1..]) else []
  }

  function AfterDigits(s: Text): (rest: Text)
    ensures |rest| <= |s|
    ensures StartsWithDigit(s) ==> |rest| < |s|
  {
    if StartsWithDigit(s) then AfterDigits(s[1..]) else s
  }

  lemma {:induction false} DigitsStop(ds: seq<Digit>, rest: Text)
    requires !StartsWithDigit(rest)
    ensures LeadingDigits(DigitText(ds) + rest) == ds
    ensures AfterDigits(DigitText(ds) + rest) == rest
  {
    var s := DigitText(ds) + rest;
    if ds == [] {
      assert s == rest;
    } else {
      assert s[0] == DigitUnit(ds[0]);
      assert s[1..] == DigitText(ds[1..]) + rest;
      DigitsStop(ds[1..], rest);
    }
  }

  // ---------------------------------------------------------------------
  // Tokens
  // ---------------------------------------------------------------------

  /** The parts of a number token; an absent fraction is empty, an absent exponent is 0. */
  datatype Token = Token(negative: bool, whole: seq<Digit>, fraction: seq<Digit>, exponent: int)

  function StripLeading(ds: seq<Digit>): (r: seq<Digit>)
    ensures |r| <= |ds|
    ensures r != [] ==> r[0] != 0
  {
    if ds != [] && ds[0] == 0 then StripLeading(ds[1..]) else ds
  }

  function StripTrailing(ds: seq<Digit>): (r: seq<Digit>)
    ensures |r| <= |ds|
    ensures r != [] ==> r[|r| - 1] != 0 && r[0] == ds[0]
  {
    if ds != [] && ds[|ds| - 1] == 0 then StripTrailing(ds[..|ds| - 1]) else ds
  }

  /** The exact decimal a token denotes. */
  function TokenValue(t: Token): (n: Num)
    ensures n.Finite?
  {
    var written := t.whole + t.fraction;
    var led := StripLeading(written);
    var digits := StripTrailing(led);
    if digits == [] then Finite(t.negative, [], 0)
    else Finite(t.negative, digits, |t.whole| + t.exponent - (|written| - |led|))
  }

  /** `Number(raw)`: the engine maps the exact decimal to its nearest double, `NonFinite` on overflow. */
  type Rounding = Num -> Num

  /** What ECMAScript promises of it: a number that is a double already stays, zero is a double. */
  ghost predicate IsRounding(round: Rounding) {
    && (forall n: Num :: round(round(n)) == round(n))
    && round(Finite(false, [], 0)) == Finite(false, [], 0)
  }

  /** Arithmetic without limits: every number stays, none is too large. */
  function Exact(n: Num): Num { n }

  function ExponentText(e: int): Text {
    if e == 0 then []
    else [0x65, if e < 0 then 0x2D else 0x2B] + DigitText(NatDigits(if e < 0 then -e else e))
  }

  function FractionText(ds: seq<Digit>): Text {
    if ds == [] then [] else [0x2E] + DigitText(ds)
  }

  function TokenText(t: Token): Text {
    (if t.negative then [0x2D] else [])
    + (DigitText(t.whole) + (FractionText(t.fraction) + ExponentText(t.exponent)))
  }

  /** The four layouts of section 3.2.2.3 of RFC 8785 (ECMAScript Number::toString). */
  function Layout(n: Num): Token
    requires n.Finite?
  {
    var k := |n.digits|;
    if k == 0 then Token(false, [0], [], 0)
    else if k <= n.point <= 21 then Token(n.negative, n.digits + Zeros(n.point - k), [], 0)
    else if 0 < n.point <= 21 then Token(n.negative, n.digits[..n.point], n.digits[n.point..], 0)
    else if -6 < n.point <= 0 then Token(n.negative, [0], Zeros(-n.point) + n.digits, 0)
    else Token(n.negative, n.digits[..1], n.digits[1..], n.point - 1)
  }

  /** `JSON.stringify` of a finite number. */
  function PrintNumber(n: Num): Text
    requires n.Finite?
  {
    TokenText(Layout(n))
  }

  // ---------------------------------------------------------------------
  // Reading
  // ---------------------------------------------------------------------

  function ReadWhole(s: Text): (p: Parsed<seq<Digit>>)
    ensures p.Read? ==> |p.rest| < |s|
  {
    if StartsWith(s, 0x30) then
      if StartsWithDigit(s[1..]) then Failed(LeadingZero, |s| - 1) else Read([0], s[1..])
    else if StartsWithDigit(s) then
      Read(LeadingDigits(s), AfterDigits(s))
    else
      Failed(InvalidNumber, |s|)
  }

  function ReadDigits(s: Text): (p: Parsed<seq<Digit>>)
    ensures p.Read? ==> |p.rest| < |s| && p.value != []
  {
    if StartsWithDigit(s) then Read(LeadingDigits(s), AfterDigits(s)) else Failed(InvalidNumber, |s|)
  }

  function ReadFraction(s: Text): (p: Parsed<seq<Digit>>)
    ensures p.Read? ==> |p.rest| <= |s|
  {
    if StartsWith(s, 0x2E) then ReadDigits(s[1..]) else Read([], s)
  }

  function ReadExponent(s: Text): (p: Parsed<int>)
    ensures p.Read? ==> |p.rest| <= |s|
  {
    if StartsWith(s, 0x65) || StartsWith(s, 0x45) then
      var negative := StartsWith(s[1..], 0x2D);
      var signed := negative || StartsWith(s[1..], 0x2B);
      var (ds, rest) :- ReadDigits(s[if signed then 2 else 1..]);
      var magnitude: int := DigitsValue(ds);
      Read(if negative then -magnitude else magnitude, rest)
    else
      Read(0, s)
  }

  function ReadToken(s: Text): (p: Parsed<Token>)
    ensures p.Read? ==> |p.rest| < |s|
  {
    var negative := StartsWith(s, 0x2D);
    var (whole, afterWhole) :- ReadWhole(if negative then s[1..] else s);
    var (fraction, afterFraction) :- ReadFraction(afterWhole);
    var (exponent, rest) :- ReadExponent(afterFraction);
    Read(Token(negative, whole, fraction, exponent), rest)
  }

  function ReadNumber(s: Text, round: Rounding): (p: Parsed<Num>)
    ensures p.Read? ==> |p.rest| < |s|
  {
    var (token, rest) :- ReadToken(s);
    var value := round(TokenValue(token));
    if value.NonFinite? then Failed(NonFiniteNumber, |s|) else Read(value, rest)
  }

  // ---------------------------------------------------------------------
  // Reading undoes printing
  // ---------------------------------------------------------------------

  /** No code unit that could extend a number token. */
  predicate EndsNumber(rest: Text) {
    rest != [] ==> !IsDigit(rest[0]) && rest[0] != 0x2E && rest[0] != 0x65 && rest[0] != 0x45
  }

  predicate PrintableToken(t: Token) {
    t.whole == [0] || (t.whole != [] && t.whole[0] != 0)
  }

  lemma {:induction false} ReadDigitsText(ds: seq<Digit>, rest: Text)
    requires ds != [] && !StartsWithDigit(rest)
    ensures ReadDigits(DigitText(ds) + rest) == Read(ds, rest)
  {
    DigitsStop(ds, rest);
    assert (DigitText(ds) + rest)[0] == DigitUnit(ds[0]);
  }

  lemma {:induction false} FractionTail(ds: seq<Digit>, rest: Text)
    requires ds != []
    ensures var s := FractionText(ds) + rest; s[0] == 0x2E && s[1..] == DigitText(ds) + rest
  {
  }

  lemma {:induction false} ReadFractionText(ds: seq<Digit>, rest: Text)
    requires !StartsWithDigit(rest) && !StartsWith(rest, 0x2E)
    ensures ReadFraction(FractionText(ds) + rest) == Read(ds, rest)
  {
    if ds == [] {
      assert FractionText(ds) + rest == rest;
    } else {
      FractionTail(ds, rest);
      ReadDigitsText(ds, rest);
    }
  }

  lemma {:induction false} ReadWholeText(ds: seq<Digit>, rest: Text)
    requires ds == [0] || (ds != [] && ds[0] != 0)
    requires !StartsWithDigit(rest)
    ensures ReadWhole(DigitText(ds) + rest) == Read(ds, rest)
  {
    var s := DigitText(ds) + rest;
    assert s[0] == DigitUnit(ds[0]);
    DigitsStop(ds, rest);
    if ds == [0] {
      assert s[1..] == rest;
    }
  }

  lemma {:induction false} StripLeadingZeros(n: nat, ds: seq<Digit>)
    requires ds != [] && ds[0] != 0
    ensures StripLeading(Zeros(n) + ds) == ds
  {
    if n == 0 {
      assert Zeros(0) + ds == ds;
    } else {
      assert (Zeros(n) + ds)[1..] == Zeros(n - 1) + ds;
      StripLeadingZeros(n - 1, ds);
    }
  }

  lemma {:induction false} StripTrailingZeros(ds: seq<Digit>, n: nat)
    requires ds != [] && ds[|ds| - 1] != 0
    ensures StripTrailing(ds + Zeros(n)) == ds
  {
    var all := ds + Zeros(n);
    if n == 0 {
      assert all == ds;
    } else {
      assert all[..|all| - 1] == ds + Zeros(n - 1);
      StripTrailingZeros(ds, n - 1);
    }
  }

  lemma {:induction false} PaddedTokenValue(t: Token, before: nat, ds: seq<Digit>, after: nat)
    requires ds != [] && ds[0] != 0 && ds[|ds| - 1] != 0
    requires t.whole + t.fraction == Zeros(before) + (ds + Zeros(after))
    ensures TokenValue(t) == Finite(t.negative, ds, |t.whole| + t.exponent - before)
  {
    StripLeadingZeros(before, ds + Zeros(after));
    StripTrailingZeros(ds, after);
  }

  /** Each layout denotes the number it lays out. */
  lemma {:induction false} LayoutValue(n: Num)
    requires n.Finite?
    ensures PrintableToken(Layout(n))
    ensures TokenValue(Layout(n)) == UnsignedZero(n)
  {
    if n.digits == [] {
      ZeroValue();
    } else {
      var before := if -6 < n.point <= 0 then 1 - n.point else 0;
      var after := if |n.digits| <= n.point <= 21 then n.point - |n.digits| else 0;
      LayoutDigits(n, before, after);
      LayoutPoint(n, before);
      PaddedTokenValue(Layout(n), before, n.digits, after);
    }
  }

  lemma {:induction false} ZeroValue()
    ensures TokenValue(Token(false, [0], [], 0)) == Finite(false, [], 0)
  {
    assert [0] + [] == [0];
    assert [0][1..] == [];
  }

  lemma {:induction false} LayoutPoint(n: Num, before: nat)
    requires n.Finite? && n.digits != []
    requires before == if -6 < n.point <= 0 then 1 - n.point else 0
    ensures var t := Layout(n);
            PrintableToken(t) && t.negative == n.negative && |t.whole| + t.exponent - before == n.point
  {
  }

  lemma {:induction false} EmptyBehind(ds: seq<Digit>)
    ensures ds + [] == ds && ds + Zeros(0) == ds
  {
  }

  lemma {:induction false} OneMoreZero(k: nat, ds: seq<Digit>)
    ensures [0] + (Zeros(k) + ds) == Zeros(k + 1) + ds
  {
  }

  lemma {:induction false} LayoutDigits(n: Num, before: nat, after: nat)
    requires n.Finite? && n.digits != []
    requires before == if -6 < n.point <= 0 then 1 - n.point else 0
    requires after == if |n.digits| <= n.point <= 21 then n.point - |n.digits| else 0
    ensures Layout(n).whole + Layout(n).fraction == Zeros(before) + (n.digits + Zeros(after))
  {
    if |n.digits| <= n.point <= 21 {
      EmptyBehind(n.digits + Zeros(after));
      NoZerosInFront(n.digits + Zeros(after));
    } else {
      EmptyBehind(n.digits);
      if -6 < n.point <= 0 {
        OneMoreZero(-n.point, n.digits);
      } else {
        var k := if 0 < n.point <= 21 then n.point else 1;
        SplitDigits(n.digits, k);
        NoZerosInFront(n.digits);
      }
    }
  }

  lemma {:induction false} SplitDigits(ds: seq<Digit>, k: nat)
    requires k <= |ds|
    ensures ds[..k] + ds[k..] == ds
  {
  }

  lemma {:induction false} NoZerosInFront(ds: seq<Digit>)
    ensures Zeros(0) + ds == ds
  {
  }

  // ---------------------------------------------------------------------
  // No other layout will do
  // ---------------------------------------------------------------------

  /** How the token of a number must look: an exponent exactly from 1e21 on and below 1e-6, one digit before the
      point if there is one, no needless zero in front or behind, no sign on zero. */
  predicate ProperLayout(t: Token, n: Num)
    requires n.Finite?
  {
    && PrintableToken(t)
    && (t.exponent == 0 <==> n.digits == [] || -6 < n.point <= 21)
    && (t.exponent != 0 ==> |t.whole| == 1 && t.whole[0] != 0)
    && (t.fraction != [] ==> t.fraction[|t.fraction| - 1] != 0)
    && (n.digits == [] ==> !t.negative)
  }

  lemma {:induction false} LeadingStripped(ds: seq<Digit>)
    ensures ds == Zeros(|ds| - |StripLeading(ds)|) + StripLeading(ds)
  {
    if ds != [] && ds[0] == 0 {
      LeadingStripped(ds[1..]);
      assert ds == [0] + ds[1..];
    } else {
      NoZerosInFront(ds);
    }
  }

  lemma {:induction false} TrailingStripped(ds: seq<Digit>)
    ensures ds == StripTrailing(ds) + Zeros(|ds| - |StripTrailing(ds)|)
  {
    if ds != [] && ds[|ds| - 1] == 0 {
      TrailingStripped(ds[..|ds| - 1]);
      assert ds == ds[..|ds| - 1] + [0];
    } else {
      assert ds + Zeros(0) == ds;
    }
  }

  lemma {:induction false} NothingToStrip(ds: seq<Digit>)
    ensures ds == [] || ds[0] != 0 ==> StripLeading(ds) == ds
    ensures ds == [] || ds[|ds| - 1] != 0 ==> StripTrailing(ds) == ds
  {
  }

  lemma {:induction false} ZerosBeginWithZero(ds: seq<Digit>)
    requires ds == Zeros(|ds|)
    ensures ds != [] ==> ds[0] == 0
  {
  }

  lemma {:induction false} AllZeros(ds: seq<Digit>)
    requires StripTrailing(StripLeading(ds)) == []
    ensures ds == Zeros(|ds|)
  {
    LeadingStripped(ds);
    TrailingStripped(StripLeading(ds));
    ZerosBeginWithZero(StripLeading(ds));
  }

  lemma {:induction false} EndsOfConcat(a: seq<Digit>, b: seq<Digit>)
    ensures a != [] ==> (a + b)[0] == a[0]
    ensures b != [] ==> (a + b)[|a + b| - 1] == b[|b| - 1]
    ensures (a + b)[..|a|] == a && (a + b)[|a|..] == b
  {
  }

  lemma {:induction false} JustZero(t: Token)
    requires t.whole == [0] && t.fraction == []
    ensures TokenValue(t).digits == []
  {
    assert t.whole + t.fraction == [0];
    assert [0][1..] == [];
  }

  lemma {:induction false} ZeroLayout(t: Token)
    requires ProperLayout(t, Finite(false, [], 0)) && TokenValue(t) == Finite(false, [], 0)
    ensures t == Token(false, [0], [], 0)
  {
    var written := t.whole + t.fraction;
    AllZeros(written);
    EndsOfConcat(t.whole, t.fraction);
  }

  /** The token of a nonzero number whose integer part does not begin with zero. */
  lemma {:induction false} LayoutFromOne(t: Token, n: Num)
    requires n.Finite? && n.digits != [] && ProperLayout(t, n) && TokenValue(t) == n && t.whole[0] != 0
    ensures t == Layout(n)
  {
    EndsOfConcat(t.whole, t.fraction);
    NothingToStrip(t.whole + t.fraction);
    assert n.point == |t.whole| + t.exponent;
    if t.fraction == [] {
      assert t.whole + t.fraction == t.whole;
      TrailingStripped(t.whole);
      IntegerLayout(t, n);
    } else {
      assert n.digits == t.whole + t.fraction;
    }
  }

  lemma {:induction false} IntegerLayout(t: Token, n: Num)
    requires n.Finite? && n.digits != [] && ProperLayout(t, n) && t.fraction == [] && t.negative == n.negative
    requires n.point == |t.whole| + t.exponent && |t.whole| >= |n.digits|
    requires t.whole == n.digits + Zeros(|t.whole| - |n.digits|)
    ensures t == Layout(n)
  {
    EndsOfConcat(n.digits, Zeros(|t.whole| - |n.digits|));
  }

  /** Digits behind a zero: some more zeros, then the digits that are left when all zeros are stripped. */
  lemma {:induction false} StrippedBehindZero(fraction: seq<Digit>)
    requires fraction != [] && fraction[|fraction| - 1] != 0
    ensures var led := StripLeading([0] + fraction);
            |led| <= |fraction| && StripTrailing(led) == led && fraction == Zeros(|fraction| - |led|) + led
  {
    var led := StripLeading(fraction);
    assert ([0] + fraction)[1..] == fraction;
    LeadingStripped(fraction);
    LastStays(Zeros(|fraction| - |led|), led);
    NothingToStrip(led);
  }

  lemma {:induction false} LastStays(zeros: seq<Digit>, led: seq<Digit>)
    requires zeros == Zeros(|zeros|) && zeros + led != [] && (zeros + led)[|zeros + led| - 1] != 0
    ensures led != [] && led[|led| - 1] == (zeros + led)[|zeros + led| - 1]
  {
    NothingAdded(zeros);
    EndsOfConcat(zeros, led);
  }

  lemma {:induction false} NothingAdded(ds: seq<Digit>)
    ensures ds + [] == ds
  {
  }

  /** The token of a nonzero number below one, written without exponent. */
  lemma {:induction false} LayoutFromZero(t: Token, n: Num)
    requires n.Finite? && n.digits != [] && ProperLayout(t, n) && TokenValue(t) == n && t.whole == [0]
    ensures t == Layout(n)
  {
    if t.fraction == [] {
      JustZero(t);
    } else {
      StrippedBehindZero(t.fraction);
    }
  }

  /** Number::toString has no choice: a token is the layout of a number exactly when it denotes the number and
      is properly laid out. */
  lemma {:induction false} LayoutIsUnique(t: Token, n: Num)
    requires n.Finite?
    ensures t == Layout(n) <==> TokenValue(t) == UnsignedZero(n) && ProperLayout(t, n)
  {
    LayoutValue(n);
    LayoutIsProper(n);
    if TokenValue(t) == UnsignedZero(n) && ProperLayout(t, n) {
      if n.digits == [] {
        ZeroLayout(t);
      } else if t.whole == [0] {
        LayoutFromZero(t, n);
      } else {
        LayoutFromOne(t, n);
      }
    }
  }

  lemma {:induction false} LayoutIsProper(n: Num)
    requires n.Finite?
    ensures ProperLayout(Layout(n), n)
  {
  }

  // ---------------------------------------------------------------------
  // What a token is worth
  // ---------------------------------------------------------------------

  /** The digit that 0.d1d2...dk times ten to the power `point` has at ten to the power `place`. */
  function DigitAt(ds: seq<Digit>, point: int, place: int): Digit {
    var i := point - 1 - place;
    if 0 <= i < |ds| then ds[i] else 0
  }

  /** Place by place the same digits. */
  ghost predicate SamePlaces(a: seq<Digit>, p: int, b: seq<Digit>, q: int) {
    forall place :: DigitAt(a, p, place) == DigitAt(b, q, place)
  }

  lemma {:induction false} PlacesOfPadded(before: nat, ds: seq<Digit>, after: nat, point: int)
    ensures SamePlaces(Zeros(before) + (ds + Zeros(after)), point, ds, point - before)
  {
    var all := Zeros(before) + (ds + Zeros(after));
    forall place ensures DigitAt(all, point, place) == DigitAt(ds, point - before, place) {
      var i := point - 1 - place;
      if 0 <= i < |all| {
        assert all[i] == if before <= i < before + |ds| then ds[i - before] else 0;
      }
    }
  }

  /** The highest digit of one number is no higher than the other's. */
  lemma {:induction false} NotHigher(a: seq<Digit>, p: int, b: seq<Digit>, q: int)
    requires SamePlaces(a, p, b, q) && a != [] && a[0] != 0
    ensures b != [] && p <= q
  {
    assert DigitAt(a, p, p - 1) == DigitAt(b, q, p - 1);
  }

  lemma {:induction false} NotLower(a: seq<Digit>, p: int, b: seq<Digit>, q: int)
    requires SamePlaces(a, p, b, q) && a != [] && a[|a| - 1] != 0
    ensures b != [] && p - |a| >= q - |b|
  {
    assert DigitAt(a, p, p - |a|) == DigitAt(b, q, p - |a|);
  }

  /** Normalized numbers with the same digits at all places are the same. */
  lemma {:induction false} PlacesDecide(n: Num, m: Num)
    requires n.Finite? && m.Finite? && n.negative == m.negative && SamePlaces(n.digits, n.point, m.digits, m.point)
    ensures n == m
  {
    if n.digits != [] {
      NotHigher(n.digits, n.point, m.digits, m.point);
    }
    if m.digits != [] {
      NotHigher(m.digits, m.point, n.digits, n.point);
      NotLower(n.digits, n.point, m.digits, m.point);
      NotLower(m.digits, m.point, n.digits, n.point);
      forall i | 0 <= i < |n.digits| ensures n.digits[i] == m.digits[i] {
        assert DigitAt(n.digits, n.point, n.point - 1 - i) == DigitAt(m.digits, m.point, n.point - 1 - i);
      }
    }
  }

  lemma {:induction false} SamePlacesThrough(a: seq<Digit>, p: int, b: seq<Digit>, q: int, c: seq<Digit>, r: int)
    requires SamePlaces(a, p, b, q)
    ensures SamePlaces(b, q, c, r) <==> SamePlaces(a, p, c, r)
  {
    forall place ensures DigitAt(a, p, place) == DigitAt(b, q, place) {
    }
  }

  lemma {:induction false} ValueOfStripped(t: Token, digits: seq<Digit>, point: int)
    requires digits == StripTrailing(StripLeading(t.whole + t.fraction))
    requires point == |t.whole| + t.exponent - (|t.whole + t.fraction| - |StripLeading(t.whole + t.fraction)|)
    ensures var v := TokenValue(t); v.digits == digits && SamePlaces(digits, point, v.digits, v.point)
  {
  }

  lemma {:induction false} ValueHasPlaces(t: Token)
    ensures var v := TokenValue(t); SamePlaces(t.whole + t.fraction, |t.whole| + t.exponent, v.digits, v.point)
  {
    var written, point := t.whole + t.fraction, |t.whole| + t.exponent;
    var led := StripLeading(written);
    var digits := StripTrailing(led);
    LeadingStripped(written);
    TrailingStripped(led);
    var before := |written| - |led|;
    PlacesOfPadded(before, digits, |led| - |digits|, point);
    assert SamePlaces(written, point, digits, point - before);
    ValueOfStripped(t, digits, point - before);
  }

  /** The number a token is read as has the token's sign and, at every place, the digit written there. */
  lemma {:induction false} TokenDenotes(t: Token, n: Num)
    ensures n == TokenValue(t) <==>
            n.Finite? && n.negative == t.negative
            && SamePlaces(n.digits, n.point, t.whole + t.fraction, |t.whole| + t.exponent)
  {
    var written, point := t.whole + t.fraction, |t.whole| + t.exponent;
    var v := TokenValue(t);
    ValueHasPlaces(t);
    assert SamePlaces(v.digits, v.point, written, point);
    if n.Finite? && n.negative == t.negative && SamePlaces(n.digits, n.point, written, point) {
      SamePlacesThrough(written, point, v.digits, v.point, n.digits, n.point);
      assert SamePlaces(written, point, n.digits, n.point);
      PlacesDecide(n, v);
    }
  }

  /** Digits without a leading zero are the digits of their value. */
  lemma {:induction false} DigitsOfValue(ds: seq<Digit>)
    requires ds != [] && ds[0] != 0
    ensures DigitsValue(ds) > 0 && ds == NatDigits(DigitsValue(ds))
    decreases |ds|
  {
    var front, last := ds[..|ds| - 1], ds[|ds| - 1];
    if front == [] {
      assert DigitsValue(front) == 0 && ds == [last];
    } else {
      DigitsOfValue(front);
      assert ds == front + [last];
    }
  }

  /** Printable characters of the ASCII range. */
  ghost predicate Printable(t: Text) {
    forall i :: 0 <= i < |t| ==> 0x20 <= t[i] < 0x80
  }

  lemma {:induction false} DigitTextPrintable(ds: seq<Digit>)
    ensures Printable(DigitText(ds))
  {
    if ds != [] {
      DigitTextPrintable(ds[1..]);
    }
  }

  lemma {:induction false} PrintableConcat(a: Text, b: Text)
    requires Printable(a) && Printable(b)
    ensures Printable(a + b)
  {
  }

  lemma {:induction false} PrintNumberPrintable(n: Num)
    requires n.Finite?
    ensures Printable(PrintNumber(n))
  {
    TokenPrintable(Layout(n));
  }

  lemma {:induction false} TokenPrintable(t: Token)
    ensures Printable(TokenText(t))
  {
    var exponent := NatDigits(if t.exponent < 0 then -t.exponent else t.exponent);
    var sign: Text := if t.negative then [0x2D] else [];
    var tail := FractionText(t.fraction) + ExponentText(t.exponent);
    DigitTextPrintable(t.whole);
    DigitTextPrintable(t.fraction);
    DigitTextPrintable(exponent);
    PrintableConcat([0x2E], DigitText(t.fraction));
    PrintableConcat([0x65, if t.exponent < 0 then 0x2D else 0x2B], DigitText(exponent));
    PrintableConcat(FractionText(t.fraction), ExponentText(t.exponent));
    PrintableConcat(DigitText(t.whole), tail);
    PrintableConcat(sign, DigitText(t.whole) + tail);
  }
}
