/** UTF-8 bytes of a text, and canonical bytes: what every digest and signature covers. Different values never
    share their bytes, and bytes tell the text again. */
module Utf8 {
  import opened Utf16
  import opened Numbers
  import opened Strings
  import opened Json
  import opened RoundTrip

  type Byte = b: int | 0 <= b < 0x100
  type Bytes = seq<Byte>

  const REPLACEMENT: CodeUnit := 0xFFFD

  function PairScalar(high: CodeUnit, low: CodeUnit): int {
    0x10000 + (high as int - 0xD800) * 0x400 + (low as int - 0xDC00)
  }

  /** Section 3 of RFC 3629: the bytes of one Unicode scalar value. */
  function EncodeScalar(c: int): Bytes
    requires 0 <= c < 0x110000
  {
    if c < 0x80 then [c]
    else if c < 0x800 then [0xC0 + c / 0x40, 0x80 + c % 0x40]
    else if c < 0x10000 then [0xE0 + c / 0x1000, 0x80 + c / 0x40 % 0x40, 0x80 + c % 0x40]
    else [0xF0 + c / 0x40000, 0x80 + c / 0x1000 % 0x40, 0x80 + c / 0x40 % 0x40, 0x80 + c % 0x40]
  }

  /** `Buffer.from(text, 'utf8')`: an unpaired surrogate is written as the replacement character. */
  function Encode(t: Text): Bytes {
    if t == [] then []
    else if StartsWithPair(t) then EncodeScalar(PairScalar(t[0], t[1])) + Encode(t[2..])
    else EncodeScalar(Replaced(t[0])) + Encode(t[1..])
  }

  function Replaced(u: CodeUnit): CodeUnit {
    if IsHigh(u) || IsLow(u) then REPLACEMENT else u
  }

  /** The text with every unpaired surrogate replaced. */
  function Repaired(t: Text): Text {
    if t == [] then []
    else if StartsWithPair(t) then t[..2] + Repaired(t[2..])
    else [Replaced(t[0])] + Repaired(t[1..])
  }

  // ---------------------------------------------------------------------
  // Decoding
  // ---------------------------------------------------------------------

  predicate Continues(b: Byte) { 0x80 <= b < 0xC0 }

  /** Length and value of the well-formed sequence at the front of `bs`; length 0 if there is none. */
  function DecodeScalar(bs: Bytes): (r: (nat, int))
    ensures r.0 <= |bs|
    ensures r.0 > 0 ==> 0 <= r.1 < 0x110000 && !(0xD800 <= r.1 < 0xE000)
  {
    if bs == [] then (0, 0)
    else if bs[0] < 0x80 then (1, bs[0])
    else if 0xC2 <= bs[0] < 0xE0 && |bs| >= 2 && Continues(bs[1]) then
      (2, (bs[0] as int - 0xC0) * 0x40 + (bs[1] as int - 0x80))
    else if 0xE0 <= bs[0] < 0xF0 && |bs| >= 3 && Continues(bs[1]) && Continues(bs[2]) then
      var c := (bs[0] as int - 0xE0) * 0x1000 + (bs[1] as int - 0x80) * 0x40 + (bs[2] as int - 0x80);
      if c < 0x800 || 0xD800 <= c < 0xE000 then (0, 0) else (3, c)
    else if 0xF0 <= bs[0] < 0xF5 && |bs| >= 4 && Continues(bs[1]) && Continues(bs[2]) && Continues(bs[3]) then
      var c := (bs[0] as int - 0xF0) * 0x40000 + (bs[1] as int - 0x80) * 0x1000
               + (bs[2] as int - 0x80) * 0x40 + (bs[3] as int - 0x80);
      if c < 0x10000 || c >= 0x110000 then (0, 0) else (4, c)
    else (0, 0)
  }

  /** The code units of a scalar value. */
  function ScalarText(c: int): Text
    requires 0 <= c < 0x110000
  {
    if c < 0x10000 then [c] else [0xD800 + (c - 0x10000) / 0x400, 0xDC00 + (c - 0x10000) % 0x400]
  }

  datatype Decoded = IllFormed | Decoded(text: Text)

  function Decode(bs: Bytes): Decoded {
    if bs == [] then Decoded([])
    else
      var (n, c) := DecodeScalar(bs);
      if n == 0 then IllFormed
      else match Decode(bs[n..])
        case IllFormed => IllFormed
        case Decoded(tail) => Decoded(ScalarText(c) + tail)
  }

  lemma {:induction false} SixBitGroups(c: int)
    requires 0 <= c < 0x110000
    ensures c == c / 0x40 * 0x40 + c % 0x40
    ensures c == c / 0x1000 * 0x1000 + c / 0x40 % 0x40 * 0x40 + c % 0x40
    ensures c == c / 0x40000 * 0x40000 + c / 0x1000 % 0x40 * 0x1000 + c / 0x40 % 0x40 * 0x40 + c % 0x40
  {
    DivideBy64(c, 0x40);
    DivideBy64(c, 0x1000);
  }

  lemma {:induction false} DivideBy64(c: nat, a: nat)
    requires a == 0x40 || a == 0x1000
    ensures c / (a * 0x40) == c / a / 0x40
    ensures c / a == c / (a * 0x40) * 0x40 + c / a % 0x40
  {
  }

  lemma {:induction false} TwoBytes(bs: Bytes, high: int, low: int)
    requires 2 <= high < 0x20 && 0 <= low < 0x40
    requires |bs| >= 2 && bs[0] == 0xC0 + high && bs[1] == 0x80 + low
    ensures DecodeScalar(bs) == (2, high * 0x40 + low)
  {
  }

  lemma {:induction false} ThreeBytes(bs: Bytes, c: int, high: int, middle: int, low: int)
    requires 0 <= high < 0x10 && 0 <= middle < 0x40 && 0 <= low < 0x40
    requires c == high * 0x1000 + middle * 0x40 + low && c >= 0x800 && !(0xD800 <= c < 0xE000)
    requires |bs| >= 3 && bs[0] == 0xE0 + high && bs[1] == 0x80 + middle && bs[2] == 0x80 + low
    ensures DecodeScalar(bs) == (3, c)
  {
  }

  lemma {:induction false} FourBytes(bs: Bytes, c: int, top: int, high: int, middle: int, low: int)
    requires 0 <= top < 5 && 0 <= high < 0x40 && 0 <= middle < 0x40 && 0 <= low < 0x40
    requires c == top * 0x40000 + high * 0x1000 + middle * 0x40 + low && 0x10000 <= c < 0x110000
    requires |bs| >= 4 && bs[0] == 0xF0 + top && bs[1] == 0x80 + high && bs[2] == 0x80 + middle && bs[3] == 0x80 + low
    ensures DecodeScalar(bs) == (4, c)
  {
  }

  lemma {:induction false} ScalarRoundTrip(c: int, rest: Bytes)
    requires 0 <= c < 0x110000 && !(0xD800 <= c < 0xE000)
    ensures DecodeScalar(EncodeScalar(c) + rest) == (|EncodeScalar(c)|, c)
    ensures (EncodeScalar(c) + rest)[|EncodeScalar(c)|..] == rest
  {
    var bs := EncodeScalar(c) + rest;
    SixBitGroups(c);
    if c < 0x80 {
    } else if c < 0x800 {
      TwoBytes(bs, c / 0x40, c % 0x40);
    } else if c < 0x10000 {
      ThreeBytes(bs, c, c / 0x1000, c / 0x40 % 0x40, c % 0x40);
    } else {
      FourBytes(bs, c, c / 0x40000, c / 0x1000 % 0x40, c / 0x40 % 0x40, c % 0x40);
    }
  }

  lemma {:induction false} DecodeStep(c: int, rest: Bytes)
    requires 0 <= c < 0x110000 && !(0xD800 <= c < 0xE000)
    ensures Decode(EncodeScalar(c) + rest) ==
            match Decode(rest)
            case IllFormed => IllFormed
            case Decoded(tail) => Decoded(ScalarText(c) + tail)
  {
    ScalarRoundTrip(c, rest);
  }

  // ---------------------------------------------------------------------
  // The bytes of a text, bit group by bit group
  // ---------------------------------------------------------------------

  /** The byte sequences of the table in section 3 of RFC 3629, each as short as its number allows. */
  ghost predicate IsUtf8(bs: Bytes, c: int) {
    || (|bs| == 1 && c == bs[0] && c < 0x80)
    || (|bs| == 2 && c >= 0x80 && 0xC0 <= bs[0] <= 0xDF && 0x80 <= bs[1] <= 0xBF
        && c == (bs[0] as int - 0xC0) * 0x40 + (bs[1] as int - 0x80))
    || (|bs| == 3 && c >= 0x800 && 0xE0 <= bs[0] <= 0xEF && 0x80 <= bs[1] <= 0xBF && 0x80 <= bs[2] <= 0xBF
        && c == (bs[0] as int - 0xE0) * 0x1000 + (bs[1] as int - 0x80) * 0x40 + (bs[2] as int - 0x80))
    || (|bs| == 4 && c >= 0x10000 && 0xF0 <= bs[0] <= 0xF7 && 0x80 <= bs[1] <= 0xBF && 0x80 <= bs[2] <= 0xBF
        && 0x80 <= bs[3] <= 0xBF
        && c == (bs[0] as int - 0xF0) * 0x40000 + (bs[1] as int - 0x80) * 0x1000 + (bs[2] as int - 0x80) * 0x40
                + (bs[3] as int - 0x80))
  }

  /** The code point at the front of a text: of a pair, of the replacement character for half a pair, of a unit. */
  ghost predicate FirstCodePoint(t: Text, units: nat, c: int) {
    && t != []
    && if |t| > 1 && 0xD800 <= t[0] <= 0xDBFF && 0xDC00 <= t[1] <= 0xDFFF then
         units == 2 && c == 0x10000 + (t[0] as int - 0xD800) * 0x400 + (t[1] as int - 0xDC00)
       else units == 1 && c == if 0xD800 <= t[0] <= 0xDFFF then 0xFFFD else t[0] as int
  }

  /** The bytes are those of the code points of the text, one after the other. */
  ghost predicate IsUtf8Text(bs: Bytes, t: Text)
    decreases |t|
  {
    if t == [] then bs == []
    else
      exists n: nat, units: nat, c: int ::
        && n <= |bs| && 0 < units <= |t| && FirstCodePoint(t, units, c) && IsUtf8(bs[..n], c)
        && IsUtf8Text(bs[n..], t[units..])
  }

  lemma {:induction false} SameGroups(a: int, b: int, x: int, y: int)
    requires 0 <= x < 0x40 && 0 <= y < 0x40 && a * 0x40 + x == b * 0x40 + y
    ensures a == b && x == y
  {
  }

  /** The number tells the length and, group by group from the right, the bytes. */
  lemma {:induction false} Utf8Unique(a: Bytes, b: Bytes, c: int)
    requires IsUtf8(a, c) && IsUtf8(b, c)
    ensures a == b
  {
    assert |a| == |b|;
    if |a| == 2 {
      SameGroups(a[0] as int - 0xC0, b[0] as int - 0xC0, a[1] as int - 0x80, b[1] as int - 0x80);
    } else if |a| == 3 {
      var x := (a[0] as int - 0xE0) * 0x40 + (a[1] as int - 0x80);
      var y := (b[0] as int - 0xE0) * 0x40 + (b[1] as int - 0x80);
      SameGroups(x, y, a[2] as int - 0x80, b[2] as int - 0x80);
      SameGroups(a[0] as int - 0xE0, b[0] as int - 0xE0, a[1] as int - 0x80, b[1] as int - 0x80);
    } else if |a| == 4 {
      FourUnique(a, b, c);
    }
  }

  lemma {:induction false} FourUnique(a: Bytes, b: Bytes, c: int)
    requires |a| == |b| == 4 && IsUtf8(a, c) && IsUtf8(b, c)
    ensures a == b
  {
    var p := (a[0] as int - 0xF0) * 0x40 + (a[1] as int - 0x80);
    var q := (b[0] as int - 0xF0) * 0x40 + (b[1] as int - 0x80);
    var x, y := p * 0x40 + (a[2] as int - 0x80), q * 0x40 + (b[2] as int - 0x80);
    SameGroups(x, y, a[3] as int - 0x80, b[3] as int - 0x80);
    SameGroups(p, q, a[2] as int - 0x80, b[2] as int - 0x80);
    SameGroups(a[0] as int - 0xF0, b[0] as int - 0xF0, a[1] as int - 0x80, b[1] as int - 0x80);
  }

  lemma {:induction false} ScalarIsUtf8(c: int, bs: Bytes)
    requires 0 <= c < 0x110000
    ensures EncodeScalar(c) == bs <==> IsUtf8(bs, c)
  {
    SixBitGroups(c);
    assert IsUtf8(EncodeScalar(c), c);
    if IsUtf8(bs, c) {
      Utf8Unique(bs, EncodeScalar(c), c);
    }
  }

  lemma {:induction false} EncodeFront(t: Text) returns (units: nat, c: int)
    requires t != []
    ensures units == CharLength(t) && 0 <= c < 0x110000
    ensures forall n: nat, d: int :: FirstCodePoint(t, n, d) <==> n == units && d == c
    ensures Encode(t) == EncodeScalar(c) + Encode(t[units..])
  {
    units := if StartsWithPair(t) then 2 else 1;
    c := if units == 2 then PairScalar(t[0], t[1]) else Replaced(t[0]);
  }

  lemma {:induction false} Utf8Front(t: Text, units: nat, c: int, head: Bytes, rest: Bytes)
    requires t != [] && 0 < units <= |t| && FirstCodePoint(t, units, c)
    requires IsUtf8(head, c) && IsUtf8Text(rest, t[units..])
    ensures IsUtf8Text(head + rest, t)
  {
    var bs, n := head + rest, |head|;
    assert bs[..n] == head && bs[n..] == rest;
  }

  lemma {:induction false} EncodingIsUtf8(t: Text)
    ensures IsUtf8Text(Encode(t), t)
    decreases |t|
  {
    if t != [] {
      var units, c := EncodeFront(t);
      ScalarIsUtf8(c, EncodeScalar(c));
      EncodingIsUtf8(t[units..]);
      Utf8Front(t, units, c, EncodeScalar(c), Encode(t[units..]));
    }
  }

  lemma {:induction false} Utf8Splits(bs: Bytes, t: Text) returns (n: nat, units: nat, c: int)
    requires t != [] && IsUtf8Text(bs, t)
    ensures n <= |bs| && 0 < units <= |t| && FirstCodePoint(t, units, c) && IsUtf8(bs[..n], c)
    ensures IsUtf8Text(bs[n..], t[units..])
  {
    n, units, c :| n <= |bs| && 0 < units <= |t| && FirstCodePoint(t, units, c) && IsUtf8(bs[..n], c)
                   && IsUtf8Text(bs[n..], t[units..]);
  }

  lemma {:induction false} Utf8IsEncoding(t: Text, bs: Bytes)
    requires IsUtf8Text(bs, t)
    ensures bs == Encode(t)
    decreases |t|
  {
    if t != [] {
      var n, units, c := Utf8Splits(bs, t);
      var others, d := EncodeFront(t);
      ScalarIsUtf8(d, bs[..n]);
      Utf8IsEncoding(t[units..], bs[n..]);
      assert bs == bs[..n] + bs[n..];
    }
  }

  /** Encoding a text gives exactly the bytes of its code points. */
  lemma {:induction false} EncodedExactly(t: Text, bs: Bytes)
    ensures Encode(t) == bs <==> IsUtf8Text(bs, t)
  {
    EncodingIsUtf8(t);
    if IsUtf8Text(bs, t) {
      Utf8IsEncoding(t, bs);
    }
  }

  /** Decoding the bytes of any text gives the text with its unpaired surrogates replaced. */
  lemma {:induction false} DecodeEncode(t: Text)
    ensures Decode(Encode(t)) == Decoded(Repaired(t))
  {
    if t == [] {
    } else if StartsWithPair(t) {
      var c := PairScalar(t[0], t[1]);
      DecodeEncode(t[2..]);
      DecodeStep(c, Encode(t[2..]));
      assert ScalarText(c) == t[..2];
    } else {
      DecodeEncode(t[1..]);
      DecodeStep(Replaced(t[0]), Encode(t[1..]));
    }
  }

  lemma {:induction false} RepairedKeepsValid(t: Text)
    ensures Repaired(t) == t <==> ValidUnicode(t)
    ensures |Repaired(t)| == |t|
  {
    if t == [] {
    } else if StartsWithPair(t) {
      RepairedKeepsValid(t[2..]);
      assert t == t[..2] + t[2..];
      assert Repaired(t)[2..] == Repaired(t[2..]);
    } else {
      RepairedKeepsValid(t[1..]);
      assert t == [t[0]] + t[1..];
      assert Repaired(t)[1..] == Repaired(t[1..]);
      assert Repaired(t)[0] == Replaced(t[0]);
    }
  }

  /** Bytes decode back to the text exactly when it has no unpaired surrogate. */
  lemma {:induction false} DecodeInvertsEncode(t: Text)
    ensures Decode(Encode(t)) == Decoded(t) <==> ValidUnicode(t)
  {
    DecodeEncode(t);
    RepairedKeepsValid(t);
  }

  lemma {:induction false} RepairingKeepsBytes(t: Text)
    ensures Encode(Repaired(t)) == Encode(t)
  {
    var r := Repaired(t);
    if t == [] {
    } else if StartsWithPair(t) {
      RepairingKeepsBytes(t[2..]);
      assert r[0] == t[0] && r[1] == t[1] && r[2..] == Repaired(t[2..]);
    } else {
      RepairingKeepsBytes(t[1..]);
      assert r[0] == Replaced(t[0]) && r[1..] == Repaired(t[1..]);
    }
  }

  /** Without the surrogate check different texts collapse: they share their bytes exactly when they
      differ in nothing but which unpaired surrogates they hold. */
  lemma {:induction false} UncheckedTextsCollapse(a: Text, b: Text)
    ensures Encode(a) == Encode(b) <==> Repaired(a) == Repaired(b)
  {
    DecodeEncode(a);
    DecodeEncode(b);
    RepairingKeepsBytes(a);
    RepairingKeepsBytes(b);
  }

  // ---------------------------------------------------------------------
  // Pieces of a text
  // ---------------------------------------------------------------------

  /** A surrogate pair that begins at the end of `a` and ends at the start of `b`. */
  predicate PairAcross(a: Text, b: Text) {
    a != [] && b != [] && IsHigh(a[|a| - 1]) && IsLow(b[0])
  }

  lemma {:induction false} SeamKeepsFirst(a: Text, b: Text)
    requires a != [] && !(|a| == 1 && PairAcross(a, b))
    ensures StartsWithPair(a + b) <==> StartsWithPair(a)
    ensures (a + b)[0] == a[0] && (StartsWithPair(a) ==> (a + b)[1] == a[1])
    ensures (a + b)[CharLength(a)..] == a[CharLength(a)..] + b
    ensures PairAcross(a[CharLength(a)..], b) <==> PairAcross(a, b)
  {
    var rest := a[CharLength(a)..];
    assert rest != [] ==> rest[|rest| - 1] == a[|a| - 1];
  }

  lemma {:induction false} EncodeSeamless(a: Text, b: Text)
    requires !PairAcross(a, b)
    ensures Encode(a + b) == Encode(a) + Encode(b)
  {
    if a == [] {
      assert a + b == b;
    } else {
      SeamKeepsFirst(a, b);
      EncodeSeamless(a[CharLength(a)..], b);
    }
  }

  /** A pair put together at the seam takes four bytes where its halves took three each. */
  lemma {:induction false} EncodeJoined(a: Text, b: Text)
    requires PairAcross(a, b)
    ensures |Encode(a + b)| == |Encode(a)| + |Encode(b)| - 2
  {
    if |a| == 1 {
      assert a[1..] == [] && (a + b)[2..] == b[1..];
    } else {
      SeamKeepsFirst(a, b);
      EncodeJoined(a[CharLength(a)..], b);
    }
  }

  /** The bytes of a concatenation are the concatenated bytes exactly where no pair spans the seam. */
  lemma {:induction false} EncodeConcat(a: Text, b: Text)
    ensures Encode(a + b) == Encode(a) + Encode(b) <==> !PairAcross(a, b)
  {
    if PairAcross(a, b) {
      EncodeJoined(a, b);
    } else {
      EncodeSeamless(a, b);
    }
  }

  lemma {:induction false} ValidHasNoSeam(a: Text, b: Text)
    requires ValidUnicode(a)
    ensures !PairAcross(a, b)
  {
    if a != [] {
      var rest := a[CharLength(a)..];
      ValidHasNoSeam(rest, b);
      assert rest != [] ==> rest[|rest| - 1] == a[|a| - 1];
    }
  }

  // ---------------------------------------------------------------------
  // Canonical text has no unpaired surrogates
  // ---------------------------------------------------------------------

  lemma {:induction false} CanonicalTextValid(v: JSON)
    requires Canonicalize(v).Canon?
    ensures ValidUnicode(Canonicalize(v).text)
    decreases Size(v), 1
  {
    match v
    case Number(n) =>
      PrintNumberPrintable(n);
      NoSurrogatesValid(PrintNumber(n));
    case Str(text) => QuoteValid(text);
    case Arr(items) =>
      ItemsTextValid(items);
      BracketsValid(OPEN_ARRAY, CanonicalizeItems(items).text, CLOSE_ARRAY);
    case Obj(members) =>
      SortKeepsSize(members);
      MembersTextValid(SortMembers(members));
      BracketsValid(OPEN_OBJECT, CanonicalizeMembers(SortMembers(members)).text, CLOSE_OBJECT);
    case Null => NoSurrogatesValid(NULL);
    case Bool(b) => NoSurrogatesValid(if b then TRUE else FALSE);
    case Unsupported =>
  }

  lemma {:induction false} JoinValid(a: Text, middle: CodeUnit, b: Text)
    requires ValidUnicode(a) && ValidUnicode(b) && !IsHigh(middle) && !IsLow(middle)
    ensures ValidUnicode(a + ([middle] + b))
  {
    NoSurrogatesValid([middle]);
    ValidUnicodeConcat([middle], b);
    ValidUnicodeConcat(a, [middle] + b);
  }

  lemma {:induction false} BracketsValid(open: CodeUnit, body: Text, close: CodeUnit)
    requires ValidUnicode(body) && !IsHigh(open) && !IsLow(open) && !IsHigh(close) && !IsLow(close)
    ensures ValidUnicode([open] + body + [close])
  {
    NoSurrogatesValid([open]);
    NoSurrogatesValid([close]);
    ValidUnicodeConcat([open], body);
    ValidUnicodeConcat([open] + body, [close]);
  }

  lemma {:induction false} ItemsTextValid(items: seq<JSON>)
    requires CanonicalizeItems(items).Canon?
    ensures ValidUnicode(CanonicalizeItems(items).text)
    decreases ItemsSize(items), 0
  {
    if items != [] {
      CanonicalTextValid(items[0]);
      if |items| > 1 {
        ItemsTextValid(items[1..]);
        JoinValid(Canonicalize(items[0]).text, COMMA, CanonicalizeItems(items[1..]).text);
      }
    }
  }

  lemma {:induction false} MembersTextValid(members: seq<Member>)
    requires CanonicalizeMembers(members).Canon?
    ensures ValidUnicode(CanonicalizeMembers(members).text)
    decreases MembersSize(members), 0
  {
    if members != [] {
      var m := members[0];
      CanonicalTextValid(m.value);
      QuoteValid(m.key);
      JoinValid(Quote(m.key), COLON, Canonicalize(m.value).text);
      if |members| > 1 {
        MembersTextValid(members[1..]);
        JoinValid(CanonicalizeMember(m).text, COMMA, CanonicalizeMembers(members[1..]).text);
      }
    }
  }

  // ---------------------------------------------------------------------
  // Canonical bytes
  // ---------------------------------------------------------------------

  datatype CanonicalBytes = CanonBytes(bytes: Bytes) | RejectedBytes(why: Rejection)

  function CanonicalizeBytes(v: JSON): CanonicalBytes {
    match Canonicalize(v)
    case Canon(text) => CanonBytes(Encode(text))
    case Rejected(why) => RejectedBytes(why)
  }

  /** Canonical bytes are unique: shared exactly by values equal up to member order and sign of zero. */
  lemma {:induction false} CanonicalBytesDecideSame(a: JSON, b: JSON)
    requires WellFormed(a) && WellFormed(b) && Accepted(a) && Accepted(b)
    ensures CanonicalizeBytes(a).CanonBytes? && CanonicalizeBytes(b).CanonBytes?
    ensures CanonicalizeBytes(a).bytes == CanonicalizeBytes(b).bytes <==> Same(a, b)
  {
    CanonicalTextDecidesSame(a, b);
    CanonicalTextValid(a);
    CanonicalTextValid(b);
    DecodeInvertsEncode(Canonicalize(a).text);
    DecodeInvertsEncode(Canonicalize(b).text);
  }
}
