/** JavaScript strings as sequences of UTF-16 code units: the comparator that orders object members, and the
    check that rejects unpaired surrogates and names the first. */
module Utf16 {

  type CodeUnit = u: int | 0 <= u < 0x10000
  type Text = seq<CodeUnit>

  predicate IsHigh(u: CodeUnit) { 0xD800 <= u <= 0xDBFF }

  predicate IsLow(u: CodeUnit) { 0xDC00 <= u <= 0xDFFF }

  lemma {:induction false} Regroup(a: Text, b: Text, c: Text)
    ensures (a + b) + c == a + (b + c)
  {
  }

  // ---------------------------------------------------------------------
  // Lexicographic order on code units
  // ---------------------------------------------------------------------

  /** The number `compareUtf16` returns. */
  function Compare(left: Text, right: Text): int {
    if left == [] || right == [] then |left| - |right|
    else if left[0] != right[0] then left[0] - right[0]
    else Compare(left[1..], right[1..])
  }

  ghost predicate FirstDifference(left: Text, right: Text, k: nat) {
    k < |left| && k < |right| && left[..k] == right[..k] && left[k] < right[k]
  }

  /** Section 3.2.3 of RFC 8785, stated without reference to any algorithm:
      a proper prefix comes first, otherwise the first difference decides. */
  ghost predicate Precedes(left: Text, right: Text) {
    left < right || exists k: nat :: FirstDifference(left, right, k)
  }

  lemma {:induction false} CompareSkipsCommonPrefix(left: Text, right: Text, k: nat)
    requires k <= |left| && k <= |right|
    requires left[..k] == right[..k]
    ensures Compare(left, right) == Compare(left[k..], right[k..])
  {
    if k == 0 {
      assert left[0..] == left && right[0..] == right;
    } else {
      assert left[0] == left[..k][0] == right[..k][0] == right[0];
      assert left[1..][..k - 1] == left[..k][1..];
      assert right[1..][..k - 1] == right[..k][1..];
      CompareSkipsCommonPrefix(left[1..], right[1..], k - 1);
      assert left[1..][k - 1..] == left[k..] && right[1..][k - 1..] == right[k..];
    }
  }

  /** The sign of the comparison is lexicographic order, and it is zero on equal strings only. */
  lemma {:induction false} CompareIsLexicographic(left: Text, right: Text)
    ensures Compare(left, right) < 0 <==> Precedes(left, right)
    ensures Compare(left, right) == 0 <==> left == right
    ensures Compare(left, right) > 0 <==> Precedes(right, left)
    ensures Compare(left, right) == -Compare(right, left)
  {
    if left == [] || right == [] {
    } else if left[0] != right[0] {
      HeadsDiffer(left, right);
    } else {
      var l, r := left[1..], right[1..];
      CompareIsLexicographic(l, r);
      assert left == [left[0]] + l && right == [left[0]] + r;
      PrecedesUnderHead(left[0], l, r);
      PrecedesUnderHead(left[0], r, l);
    }
  }

  lemma {:induction false} HeadOfTake(t: Text, k: nat)
    ensures 0 < k <= |t| ==> t[..k][0] == t[0]
  {
  }

  lemma {:induction false} HeadsDiffer(left: Text, right: Text)
    requires left != [] && right != [] && left[0] != right[0]
    ensures Precedes(left, right) <==> left[0] < right[0]
    ensures Precedes(right, left) <==> right[0] < left[0]
  {
    assert left[..0] == right[..0];
    assert left[0] < right[0] ==> FirstDifference(left, right, 0);
    assert right[0] < left[0] ==> FirstDifference(right, left, 0);
    forall k: nat | FirstDifference(left, right, k) || FirstDifference(right, left, k) ensures k == 0 {
      HeadOfTake(left, k);
      HeadOfTake(right, k);
    }
  }

  lemma {:induction false} DifferenceUnderHead(u: CodeUnit, l: Text, r: Text, k: nat)
    ensures FirstDifference([u] + l, [u] + r, k + 1) <==> FirstDifference(l, r, k)
  {
    var left, right := [u] + l, [u] + r;
    if k < |l| && k < |r| {
      assert left[..k + 1] == [u] + l[..k] && right[..k + 1] == [u] + r[..k];
      assert l[..k] == left[..k + 1][1..] && r[..k] == right[..k + 1][1..];
    }
  }

  lemma {:induction false} PrefixUnderHead(u: CodeUnit, l: Text, r: Text)
    ensures [u] + l < [u] + r <==> l < r
  {
    assert l == ([u] + l)[1..] && r == ([u] + r)[1..];
  }

  lemma {:induction false} PrecedesUnderHead(u: CodeUnit, l: Text, r: Text)
    ensures Precedes([u] + l, [u] + r) <==> Precedes(l, r)
  {
    PrefixUnderHead(u, l, r);
    if k: nat :| FirstDifference(l, r, k) {
      DifferenceUnderHead(u, l, r, k);
    }
    if k: nat :| FirstDifference([u] + l, [u] + r, k) {
      assert k > 0;
      DifferenceUnderHead(u, l, r, k - 1);
    }
  }

  lemma {:induction false} CompareTransitive(a: Text, b: Text, c: Text)
    requires Compare(a, b) <= 0 && Compare(b, c) <= 0
    ensures Compare(a, c) <= 0
  {
    if a != [] && b != [] && c != [] && a[0] == b[0] == c[0] {
      CompareTransitive(a[1..], b[1..], c[1..]);
    }
  }

  /** The loop of the comparator. */
  method CompareUtf16(left: Text, right: Text) returns (difference: int)
    ensures difference == Compare(left, right)
    ensures difference < 0 <==> Precedes(left, right)
    ensures difference == 0 <==> left == right
  {
    CompareIsLexicographic(left, right);
    var length := if |left| <= |right| then |left| else |right|;
    for index := 0 to length
      invariant left[..index] == right[..index]
    {
      difference := left[index] as int - right[index] as int;
      if difference != 0 {
        CompareSkipsCommonPrefix(left, right, index);
        return;
      }
      assert left[..index + 1] == left[..index] + [left[index]];
      assert right[..index + 1] == right[..index] + [right[index]];
    }
    CompareSkipsCommonPrefix(left, right, length);
    return |left| - |right|;
  }

  // ---------------------------------------------------------------------
  // Unpaired surrogates
  // ---------------------------------------------------------------------

  datatype Surrogates = Paired | UnpairedHigh | UnpairedLow

  /** What the left-to-right surrogate check finds first. */
  function CheckUnicode(text: Text): Surrogates {
    if text == [] then Paired
    else if IsHigh(text[0]) then
      if |text| > 1 && IsLow(text[1]) then CheckUnicode(text[2..]) else UnpairedHigh
    else if IsLow(text[0]) then UnpairedLow
    else CheckUnicode(text[1..])
  }

  predicate ValidUnicode(text: Text) { CheckUnicode(text).Paired? }

  /** Well-formedness said by position: each surrogate has its partner beside it. */
  predicate PairedAt(text: Text, i: nat)
    requires i < |text|
  {
    && (0xD800 <= text[i] <= 0xDBFF ==> i + 1 < |text| && 0xDC00 <= text[i + 1] <= 0xDFFF)
    && (0xDC00 <= text[i] <= 0xDFFF ==> i > 0 && 0xD800 <= text[i - 1] <= 0xDBFF)
  }

  ghost predicate SurrogatesPaired(text: Text) {
    forall i :: 0 <= i < |text| ==> PairedAt(text, i)
  }

  /** Dropping a first piece that ends no pair leaves the pairing of the rest as it was. */
  lemma {:induction false} PairedAfter(text: Text, k: nat)
    requires k <= |text|
    requires k > 0 ==> !IsHigh(text[k - 1])
    requires k < |text| && IsLow(text[k]) ==> k == 0
    ensures SurrogatesPaired(text[k..]) <==> forall i :: k <= i < |text| ==> PairedAt(text, i)
  {
    var tail := text[k..];
    forall i | k <= i < |text| ensures PairedAt(tail, i - k) <==> PairedAt(text, i) {
      assert tail[i - k] == text[i];
      assert i > k ==> tail[i - k - 1] == text[i - 1];
      assert i + 1 < |text| ==> tail[i - k + 1] == text[i + 1];
    }
    if SurrogatesPaired(tail) {
      forall i | k <= i < |text| ensures PairedAt(text, i) {
        assert PairedAt(tail, i - k);
      }
    }
    if forall i :: k <= i < |text| ==> PairedAt(text, i) {
      forall i | 0 <= i < |tail| ensures PairedAt(tail, i) {
        assert PairedAt(text, i + k);
      }
    }
  }

  lemma {:induction false} ValidUnicodeMeansPaired(text: Text)
    ensures ValidUnicode(text) <==> SurrogatesPaired(text)
  {
    if text == [] {
    } else if IsHigh(text[0]) {
      assert PairedAt(text, 0) <==> |text| > 1 && IsLow(text[1]);
      if PairedAt(text, 0) {
        assert PairedAt(text, 1);
        ValidUnicodeMeansPaired(text[2..]);
        if |text| > 2 && IsLow(text[2]) {
          assert !PairedAt(text, 2) && !PairedAt(text[2..], 0);
        } else {
          PairedAfter(text, 2);
        }
      }
    } else if IsLow(text[0]) {
      assert !PairedAt(text, 0);
    } else {
      assert PairedAt(text, 0);
      ValidUnicodeMeansPaired(text[1..]);
      if |text| > 1 && IsLow(text[1]) {
        assert !PairedAt(text, 1) && !PairedAt(text[1..], 0);
      } else {
        PairedAfter(text, 1);
      }
    }
  }

  lemma {:induction false} ValidUnicodeConcat(a: Text, b: Text)
    requires ValidUnicode(a)
    ensures CheckUnicode(a + b) == CheckUnicode(b)
  {
    if a == [] {
      assert a + b == b;
    } else if IsHigh(a[0]) {
      assert (a + b)[2..] == a[2..] + b;
      ValidUnicodeConcat(a[2..], b);
    } else {
      assert (a + b)[1..] == a[1..] + b;
      ValidUnicodeConcat(a[1..], b);
    }
  }

  lemma {:induction false} NoSurrogatesValid(t: Text)
    requires forall i :: 0 <= i < |t| ==> !IsHigh(t[i]) && !IsLow(t[i])
    ensures ValidUnicode(t)
  {
    if t != [] {
      NoSurrogatesValid(t[1..]);
    }
  }

  predicate IsAscii(s: string) {
    forall i :: 0 <= i < |s| ==> 0x20 <= s[i] as int < 0x80
  }

  /** A name written in printable ASCII. */
  function Ascii(s: string): (t: Text)
    requires IsAscii(s)
    ensures |t| == |s|
    ensures forall i :: 0 <= i < |s| ==> t[i] == s[i] as int
  {
    seq(|s|, i requires 0 <= i < |s| => s[i] as int)
  }

  lemma {:induction false} AsciiValid(s: string)
    requires IsAscii(s)
    ensures ValidUnicode(Ascii(s))
  {
    NoSurrogatesValid(Ascii(s));
  }

  /** The first unit without its partner beside it, and which kind it is. */
  ghost predicate FirstUnpaired(text: Text, i: nat, found: Surrogates) {
    && i < |text| && !PairedAt(text, i) && (forall j :: 0 <= j < i ==> PairedAt(text, j))
    && found == if text[i] <= 0xDBFF then UnpairedHigh else UnpairedLow
  }

  /** One step of the check: past a pair, or past a unit that is no surrogate. */
  lemma {:induction false} UnpairedFurtherOn(text: Text, k: nat)
    requires 0 < k <= |text| && !IsHigh(text[k - 1]) && (forall i :: 0 <= i < k ==> PairedAt(text, i))
    ensures forall i :: 0 <= i < |text| - k ==> (PairedAt(text[k..], i) <==> PairedAt(text, k + i))
  {
    var tail := text[k..];
    forall i | 0 <= i < |tail| ensures PairedAt(tail, i) <==> PairedAt(text, k + i) {
      assert tail[i] == text[k + i];
      assert i > 0 ==> tail[i - 1] == text[k + i - 1];
      assert i + 1 < |tail| ==> tail[i + 1] == text[k + i + 1];
    }
  }

  /** The check names the first surrogate that stands alone. */
  lemma {:induction false} CheckFindsFirst(text: Text, found: Surrogates)
    requires found != Paired
    ensures CheckUnicode(text) == found <==> exists i :: FirstUnpaired(text, i, found)
  {
    if CheckUnicode(text) != Paired {
      var i := FirstAlone(text);
      assert forall j, other :: FirstUnpaired(text, j, other) ==> j == i;
    } else {
      ValidUnicodeMeansPaired(text);
    }
  }

  lemma {:induction false} FirstAlone(text: Text) returns (i: nat)
    requires CheckUnicode(text) != Paired
    ensures FirstUnpaired(text, i, CheckUnicode(text))
    decreases |text|, 0
  {
    if IsHigh(text[0]) && |text| > 1 && IsLow(text[1]) {
      assert PairedAt(text, 0) && PairedAt(text, 1);
      i := FirstBehind(text, 2);
    } else if IsHigh(text[0]) || IsLow(text[0]) {
      i := 0;
    } else {
      assert PairedAt(text, 0);
      i := FirstBehind(text, 1);
    }
  }

  lemma {:induction false} FirstBehind(text: Text, k: nat) returns (i: nat)
    requires 0 < k <= |text| && !IsHigh(text[k - 1]) && (forall j :: 0 <= j < k ==> PairedAt(text, j))
    requires CheckUnicode(text[k..]) != Paired
    ensures FirstUnpaired(text, i, CheckUnicode(text[k..]))
    decreases |text| - k, 1
  {
    UnpairedFurtherOn(text, k);
    var there := FirstAlone(text[k..]);
    i := k + there;
    forall j | 0 <= j < i ensures PairedAt(text, j) {
      if j >= k {
        assert PairedAt(text[k..], j - k) <==> PairedAt(text, k + (j - k));
      }
    }
  }

  /** The surrogate-check loop; it steps over a pair by bumping the loop index once more. */
  method AssertValidUnicode(value: Text) returns (found: Surrogates)
    ensures found == CheckUnicode(value)
    ensures found == Paired <==> SurrogatesPaired(value)
    ensures found != Paired <==> exists i :: FirstUnpaired(value, i, found)
  {
    ValidUnicodeMeansPaired(value);
    if CheckUnicode(value) != Paired {
      CheckFindsFirst(value, CheckUnicode(value));
    }
    var index := 0;
    while index < |value|
      invariant 0 <= index <= |value|
      invariant CheckUnicode(value[index..]) == CheckUnicode(value)
    {
      var code := value[index];
      if IsHigh(code) {
        if !(index + 1 < |value| && IsLow(value[index + 1])) {
          return UnpairedHigh;
        }
        assert value[index..][2..] == value[index + 2..];
        index := index + 1;
      } else if IsLow(code) {
        return UnpairedLow;
      } else {
        assert value[index..][1..] == value[index + 1..];
      }
      index := index + 1;
    }
    return Paired;
  }
}
