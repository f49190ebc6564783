/** Normal forms of the conformance runner and the list checks of its validator: which lists of codes, proofs and
    fixtures either one takes for the same, and where the two disagree. */
module Conformance {
  import opened Utf16
  import opened Sorting
  import opened Strings
  import opened Objects

  // ---------------------------------------------------------------------
  // Lists of strings and their JSON text
  // ---------------------------------------------------------------------

  predicate TextLeq(a: Text, b: Text) { Compare(a, b) <= 0 }

  /** `[...values].sort()`. */
  function SortTexts(values: seq<Text>): seq<Text> { Sort(values, TextLeq) }

  function JoinQuoted(values: seq<Text>): Text {
    if values == [] then []
    else if |values| == 1 then Quote(values[0])
    else Quote(values[0]) + ([COMMA] + JoinQuoted(values[1..]))
  }

  /** `JSON.stringify` of a list of strings. */
  function Stringify(values: seq<Text>): Text { [OPEN_ARRAY] + (JoinQuoted(values) + [CLOSE_ARRAY]) }

  lemma {:induction false} TextLeqOrders()
    ensures Ordering(TextLeq)
  {
    forall a: Text, b: Text ensures TextLeq(a, b) || TextLeq(b, a) {
      CompareIsLexicographic(a, b);
    }
    forall a: Text, b: Text, c: Text | TextLeq(a, b) && TextLeq(b, c) ensures TextLeq(a, c) {
      CompareTransitive(a, b, c);
    }
  }

  lemma {:induction false} NoRepeatsToldApart(s: seq<Text>)
    requires NoRepeats(s)
    ensures ToldApart(s, TextLeq)
  {
    forall i, j | 0 <= i < |s| && 0 <= j < |s| && i != j ensures !(TextLeq(s[i], s[j]) && TextLeq(s[j], s[i])) {
      CompareIsLexicographic(s[i], s[j]);
      assert s[i] != s[j];
    }
  }

  lemma {:induction false} AfterQuote(values: seq<Text>, tail: Text)
    requires values != []
    ensures JoinQuoted(values) + tail == Quote(values[0]) + BehindFirst(values, tail)
  {
  }

  /** The joined text behind its first token. */
  function BehindFirst(values: seq<Text>, tail: Text): Text
    requires values != []
  {
    if |values| == 1 then tail else [COMMA] + (JoinQuoted(values[1..]) + tail)
  }

  lemma {:induction false} BehindFirstAgree(a: seq<Text>, b: seq<Text>)
    requires a != [] && b != [] && BehindFirst(a, [CLOSE_ARRAY]) == BehindFirst(b, [CLOSE_ARRAY])
    ensures |a| == 1 <==> |b| == 1
    ensures |a| > 1 ==> JoinQuoted(a[1..]) + [CLOSE_ARRAY] == JoinQuoted(b[1..]) + [CLOSE_ARRAY]
  {
    var x, y := BehindFirst(a, [CLOSE_ARRAY]), BehindFirst(b, [CLOSE_ARRAY]);
    assert x[0] == y[0];
    assert |a| > 1 ==> x[1..] == JoinQuoted(a[1..]) + [CLOSE_ARRAY];
    assert |b| > 1 ==> y[1..] == JoinQuoted(b[1..]) + [CLOSE_ARRAY];
  }

  lemma {:induction false} JoinedInjective(a: seq<Text>, b: seq<Text>)
    requires JoinQuoted(a) + [CLOSE_ARRAY] == JoinQuoted(b) + [CLOSE_ARRAY]
    ensures a == b
  {
    FirstOfJoin(a);
    FirstOfJoin(b);
    if a != [] {
      AfterQuote(a, [CLOSE_ARRAY]);
      AfterQuote(b, [CLOSE_ARRAY]);
      QuoteSelfDelimiting(a[0], b[0], BehindFirst(a, [CLOSE_ARRAY]), BehindFirst(b, [CLOSE_ARRAY]));
      BehindFirstAgree(a, b);
      if |a| > 1 {
        JoinedInjective(a[1..], b[1..]);
      }
      assert a == [a[0]] + a[1..] && b == [b[0]] + b[1..];
    }
  }

  lemma {:induction false} FirstOfJoin(values: seq<Text>)
    ensures (JoinQuoted(values) + [CLOSE_ARRAY])[0] == if values == [] then CLOSE_ARRAY else QUOTE
  {
    if values != [] {
      AfterQuote(values, [CLOSE_ARRAY]);
    }
  }

  /** Comparing JSON texts compares the lists, for strings of any content. */
  lemma {:induction false} StringifyInjective(a: seq<Text>, b: seq<Text>)
    ensures Stringify(a) == Stringify(b) <==> a == b
  {
    if Stringify(a) == Stringify(b) {
      assert Stringify(a)[1..] == JoinQuoted(a) + [CLOSE_ARRAY] && Stringify(b)[1..] == JoinQuoted(b) + [CLOSE_ARRAY];
      JoinedInjective(a, b);
    }
  }

  // ---------------------------------------------------------------------
  // Set comparisons through sorted JSON text
  // ---------------------------------------------------------------------

  lemma {:induction false} NoRepeatsPermutation(a: seq<Text>, b: seq<Text>)
    requires NoRepeats(a) && NoRepeats(b)
    ensures Permutation(a, b) <==> Elements(a) == Elements(b)
  {
    NoRepeatsCounts(a);
    NoRepeatsCounts(b);
    if Permutation(a, b) {
      PermutationMembers(a, b);
    }
  }

  /** Sorted lists are equal exactly when the lists hold the same elements as often. */
  lemma {:induction false} SortedEqualMeansPermutation(a: seq<Text>, b: seq<Text>)
    requires NoRepeats(a)
    ensures SortTexts(a) == SortTexts(b) <==> Permutation(a, b)
  {
    SortPermutes(a, TextLeq);
    SortPermutes(b, TextLeq);
    if Permutation(a, b) {
      TextLeqOrders();
      NoRepeatsToldApart(a);
      SortForgetsArrangement(a, b, TextLeq);
    }
  }

  /** `exactKeys` and the coverage check: sorted JSON texts agree. */
  predicate SameSorted(actual: seq<Text>, expected: seq<Text>) {
    Stringify(SortTexts(actual)) == Stringify(SortTexts(expected))
  }

  /** On duplicate-free lists the comparison decides set equality. */
  lemma {:induction false} SameSortedDecidesSets(actual: seq<Text>, expected: seq<Text>)
    requires NoRepeats(actual) && NoRepeats(expected)
    ensures SameSorted(actual, expected) <==> Elements(actual) == Elements(expected)
  {
    StringifyInjective(SortTexts(actual), SortTexts(expected));
    SortedEqualMeansPermutation(actual, expected);
    NoRepeatsPermutation(actual, expected);
  }

  // ---------------------------------------------------------------------
  // sortedCodes and assertSortedUnique
  // ---------------------------------------------------------------------

  /** `[...new Set(values)]`: first occurrences in order. */
  function Dedupe(values: seq<Text>): seq<Text> {
    if values == [] then []
    else
      var earlier, last := Dedupe(values[..|values| - 1]), values[|values| - 1];
      if last in earlier then earlier else earlier + [last]
  }

  lemma {:induction false} RepeatsStay(front: seq<Text>, last: Text)
    ensures NoRepeats(front + [last]) <==> NoRepeats(front) && last !in front
  {
    var values := front + [last];
    assert forall i :: 0 <= i < |front| ==> values[i] == front[i];
    assert values[|front|] == last;
    if NoRepeats(values) {
      forall i, j | 0 <= i < j < |front| ensures front[i] != front[j] {
        assert values[i] != values[j];
      }
      forall i | 0 <= i < |front| ensures front[i] != last {
        assert values[i] != values[|front|];
      }
    }
  }

  lemma {:induction false} DedupeKeepsElements(values: seq<Text>)
    ensures NoRepeats(Dedupe(values)) && Elements(Dedupe(values)) == Elements(values)
    ensures |Dedupe(values)| <= |values|
    ensures NoRepeats(values) ==> Dedupe(values) == values
  {
    if values != [] {
      var front, last := values[..|values| - 1], values[|values| - 1];
      DedupeKeepsElements(front);
      assert values == front + [last];
      RepeatsStay(front, last);
      RepeatsStay(Dedupe(front), last);
      assert Elements(values) == Elements(front) + {last};
      assert Elements(Dedupe(front) + [last]) == Elements(Dedupe(front)) + {last};
      assert last in Dedupe(front) <==> last in Elements(Dedupe(front));
    }
  }

  datatype ReportedIssue = ReportedIssue(code: Text, message: Text, path: Text)

  function Codes(items: seq<ReportedIssue>): (r: seq<Text>)
    ensures |r| == |items|
    ensures forall i :: 0 <= i < |r| ==> r[i] == items[i].code
  {
    seq(|items|, i requires 0 <= i < |items| => items[i].code)
  }

  function NormalCodes(codes: seq<Text>): seq<Text> { SortTexts(Dedupe(codes)) }

  /** `sortedCodes`. */
  function SortedCodes(items: seq<ReportedIssue>): seq<Text> { NormalCodes(Codes(items)) }

  /** Two issue lists report alike exactly when they report the same set of codes. */
  lemma {:induction false} SortedCodesDecidesCodeSet(a: seq<ReportedIssue>, b: seq<ReportedIssue>)
    ensures SortedCodes(a) == SortedCodes(b) <==> Elements(Codes(a)) == Elements(Codes(b))
  {
    DedupeKeepsElements(Codes(a));
    DedupeKeepsElements(Codes(b));
    SortedEqualMeansPermutation(Dedupe(Codes(a)), Dedupe(Codes(b)));
    NoRepeatsPermutation(Dedupe(Codes(a)), Dedupe(Codes(b)));
  }

  /** Strictly ascending by code units. */
  ghost predicate Ascending(values: seq<Text>) {
    forall i, j :: 0 <= i < j < |values| ==> Precedes(values[i], values[j])
  }

  /** The output is the set of codes in strictly ascending order, and the only such list. */
  lemma {:induction false} SortedCodesAscend(items: seq<ReportedIssue>, codes: seq<Text>)
    ensures codes == SortedCodes(items) <==>
            Ascending(codes) && forall c :: c in codes <==> exists i :: 0 <= i < |items| && items[i].code == c
  {
    forall c ensures c in Codes(items) <==> exists i :: 0 <= i < |items| && items[i].code == c {
      if i :| 0 <= i < |items| && items[i].code == c {
        assert Codes(items)[i] == c;
      }
    }
    AscendingCodes(items, codes);
    assert forall c :: (c in Elements(codes) <==> c in codes) && (c in Elements(Codes(items)) <==> c in Codes(items));
  }

  lemma {:induction false} AscendingCodes(items: seq<ReportedIssue>, codes: seq<Text>)
    ensures codes == SortedCodes(items) <==> Ascending(codes) && Elements(codes) == Elements(Codes(items))
  {
    var distinct := Dedupe(Codes(items));
    var sorted := SortTexts(distinct);
    DedupeKeepsElements(Codes(items));
    TextLeqOrders();
    NoRepeatsToldApart(distinct);
    SortPermutes(distinct, TextLeq);
    SortOrders(distinct, TextLeq);
    ToldApartPermutes(distinct, sorted, TextLeq);
    PermutationMembers(sorted, distinct);
    AscendingIsOrdered(sorted);
    assert Elements(sorted) == Elements(distinct);
    if Ascending(codes) && Elements(codes) == Elements(distinct) {
      AscendingDistinct(codes);
      AscendingIsOrdered(codes);
      NoRepeatsPermutation(distinct, codes);
      ToldApartPermutes(distinct, codes, TextLeq);
      OrderedArrangementUnique(codes, sorted, TextLeq);
    }
  }

  lemma {:induction false} AscendingIsOrdered(values: seq<Text>)
    requires ToldApart(values, TextLeq) || Ascending(values)
    ensures Ascending(values) <==> Ordered(values, TextLeq)
  {
    forall i, j | 0 <= i < j < |values| ensures Precedes(values[i], values[j]) <==> TextLeq(values[i], values[j]) {
      CompareIsLexicographic(values[i], values[j]);
      CompareIsLexicographic(values[j], values[i]);
    }
  }

  lemma {:induction false} AscendingDistinct(values: seq<Text>)
    requires Ascending(values)
    ensures NoRepeats(values)
  {
    forall i, j | 0 <= i < j < |values| ensures values[i] != values[j] {
      CompareIsLexicographic(values[i], values[j]);
    }
  }

  /** `assertUnique`: a set of the values has as many elements as the list. */
  predicate AssertUnique(values: seq<Text>) { |Elements(values)| == |values| }

  lemma {:induction false} UniqueMeansNoRepeats(values: seq<Text>)
    ensures |Elements(values)| <= |values|
    ensures AssertUnique(values) <==> NoRepeats(values)
  {
    CountedOnce(values);
    if NoRepeats(values) {
      NoRepeatsCounts(values);
    }
  }

  predicate AssertSortedUnique(values: seq<Text>) {
    AssertUnique(values) && Stringify(values) == Stringify(SortTexts(values))
  }

  /** The code lists the validator accepts are the strictly ascending ones, and exactly those that the runner's
      normalizer leaves as they are. */
  lemma {:induction false} AcceptedCodesAreNormal(values: seq<Text>)
    ensures AssertSortedUnique(values) <==> Ascending(values)
    ensures AssertSortedUnique(values) <==> NormalCodes(values) == values
  {
    AcceptedIsSorted(values);
    TextLeqOrders();
    if AssertSortedUnique(values) {
      NoRepeatsToldApart(values);
      SortOrders(values, TextLeq);
      AscendingIsOrdered(values);
    }
    if Ascending(values) {
      AscendingDistinct(values);
      AscendingIsOrdered(values);
      SortFixesOrdered(values, TextLeq);
    }
  }

  lemma {:induction false} AcceptedIsSorted(values: seq<Text>)
    ensures AssertSortedUnique(values) <==> NoRepeats(values) && SortTexts(values) == values
    ensures AssertSortedUnique(values) <==> NormalCodes(values) == values
  {
    UniqueMeansNoRepeats(values);
    DedupeKeepsElements(values);
    StringifyInjective(values, SortTexts(values));
    if NormalCodes(values) == values {
      SortPermutes(Dedupe(values), TextLeq);
      NoRepeatsCounts(Dedupe(values));
      assert |Elements(values)| == |values|;
    }
  }

  // ---------------------------------------------------------------------
  // Fixture coverage
  // ---------------------------------------------------------------------

  const JSON_SUFFIX: Text := Ascii(".json")
  const MANIFEST: Text := Ascii("manifest.json")
  const VALID_DIRECTORY: Text := Ascii("test-vectors/valid/")
  const INVALID_DIRECTORY: Text := Ascii("test-vectors/invalid/")

  /** A directory entry the check looks at. */
  predicate IsFixture(name: Text) {
    |name| >= |JSON_SUFFIX| && name[|name| - |JSON_SUFFIX|..] == JSON_SUFFIX && name != MANIFEST
  }

  function FixturePaths(directory: Text, names: seq<Text>): seq<Text> {
    if names == [] then []
    else
      var front, last := FixturePaths(directory, names[..|names| - 1]), names[|names| - 1];
      if IsFixture(last) then front + [directory + last] else front
  }

  /** The loop over one directory, pushing onto the paths found so far. */
  method AddFixtures(paths: seq<Text>, directory: Text, names: seq<Text>) returns (r: seq<Text>)
    ensures r == paths + FixturePaths(directory, names)
  {
    r := paths;
    for i := 0 to |names|
      invariant r == paths + FixturePaths(directory, names[..i])
    {
      assert names[..i + 1][..i] == names[..i];
      if IsFixture(names[i]) {
        r := r + [directory + names[i]];
      }
    }
    assert names[..|names|] == names;
  }

  /** The loop over the manifest entries, adding each path to the set, which keeps insertion order. */
  method ListedPaths(entries: seq<Text>) returns (listed: seq<Text>)
    ensures listed == Dedupe(entries)
  {
    listed := [];
    for i := 0 to |entries|
      invariant listed == Dedupe(entries[..i])
    {
      assert entries[..i + 1][..i] == entries[..i];
      if entries[i] !in listed {
        listed := listed + [entries[i]];
      }
    }
    assert entries[..|entries|] == entries;
  }

  lemma {:induction false} FixturePathsDistinct(directory: Text, names: seq<Text>)
    requires NoRepeats(names)
    ensures NoRepeats(FixturePaths(directory, names))
    ensures forall p :: p in FixturePaths(directory, names) <==>
              directory <= p && p[|directory|..] in names && IsFixture(p[|directory|..])
  {
    if names != [] {
      var front, last := names[..|names| - 1], names[|names| - 1];
      FixturePathsDistinct(directory, front);
      assert names == front + [last];
      assert (directory + last)[|directory|..] == last;
      assert last !in front;
      forall p | directory <= p && p[|directory|..] == last ensures p == directory + last {
      }
    }
  }

  /** The name of a fixture: it ends in `.json` and is not the manifest's. */
  ghost predicate NamesFixture(name: Text) {
    && |name| >= 5 && name[|name| - 5..] == Ascii(".json")
    && name != Ascii("manifest.json")
  }

  /** The fixtures on disk: what the two directory listings hold. */
  ghost predicate OnDisk(path: Text, valid: seq<Text>, invalid: seq<Text>) {
    exists name ::
      && NamesFixture(name)
      && ((name in valid && path == Ascii("test-vectors/valid/") + name)
          || (name in invalid && path == Ascii("test-vectors/invalid/") + name))
  }

  lemma {:induction false} FixturesAreNamed(directory: Text, names: seq<Text>)
    requires NoRepeats(names)
    ensures forall p :: p in FixturePaths(directory, names) <==>
              exists name :: NamesFixture(name) && name in names && p == directory + name
  {
    FixturePathsDistinct(directory, names);
    forall name ensures IsFixture(name) <==> NamesFixture(name) {
    }
    forall p | p in FixturePaths(directory, names)
      ensures exists name :: NamesFixture(name) && name in names && p == directory + name
    {
      var name := p[|directory|..];
      assert p == directory + name && NamesFixture(name);
    }
    forall name | NamesFixture(name) && name in names ensures directory + name in FixturePaths(directory, names) {
      assert (directory + name)[|directory|..] == name;
    }
  }

  /** The coverage check passes exactly when the manifest lists every fixture on disk and nothing else. */
  method CheckCoverage(entries: seq<Text>, valid: seq<Text>, invalid: seq<Text>) returns (ok: bool)
    requires NoRepeats(valid) && NoRepeats(invalid)
    ensures ok <==> forall p :: p in entries <==> OnDisk(p, valid, invalid)
  {
    var listed := ListedPaths(entries);
    var actual := AddFixtures([], VALID_DIRECTORY, valid);
    actual := AddFixtures(actual, INVALID_DIRECTORY, invalid);
    ok := Stringify(SortTexts(listed)) == Stringify(SortTexts(actual));
    DedupeKeepsElements(entries);
    ActualPaths(valid, invalid);
    assert [] + FixturePaths(VALID_DIRECTORY, valid) == FixturePaths(VALID_DIRECTORY, valid);
    SameSortedDecidesSets(listed, actual);
    assert forall p :: p in entries <==> p in Elements(entries);
    assert forall p :: p in actual <==> p in Elements(actual);
  }

  lemma {:induction false} ActualPaths(valid: seq<Text>, invalid: seq<Text>)
    requires NoRepeats(valid) && NoRepeats(invalid)
    ensures var actual := FixturePaths(VALID_DIRECTORY, valid) + FixturePaths(INVALID_DIRECTORY, invalid);
            NoRepeats(actual) && forall p :: p in actual <==> OnDisk(p, valid, invalid)
  {
    var a, b := FixturePaths(VALID_DIRECTORY, valid), FixturePaths(INVALID_DIRECTORY, invalid);
    FixturePathsDistinct(VALID_DIRECTORY, valid);
    FixturePathsDistinct(INVALID_DIRECTORY, invalid);
    FixturesAreNamed(VALID_DIRECTORY, valid);
    FixturesAreNamed(INVALID_DIRECTORY, invalid);
    assert VALID_DIRECTORY[13] == 0x76 && INVALID_DIRECTORY[13] == 0x69;
    forall i, j | 0 <= i < |a| && 0 <= j < |b| ensures a[i] != b[j] {
      assert a[i] in a && b[j] in b;
      assert a[i][13] == VALID_DIRECTORY[13] && b[j][13] == INVALID_DIRECTORY[13];
    }
  }

  // ---------------------------------------------------------------------
  // normalizeProofs
  // ---------------------------------------------------------------------

  datatype ProofDigest = ProofDigest(algorithm: Text, value: Text)

  /** A valid proof as the verifier reports it; `extra` stands for the members the normalizer drops. */
  datatype Proof = Proof(proofId: Text, issuerRef: Text, targetType: Text, targetId: Option<Text>,
                         digest: Option<ProofDigest>, extra: Text)

  datatype NormalProof = NormalProof(proofId: Text, issuerRef: Text, targetType: Text, targetId: Option<Text>,
                                     targetDigest: Option<ProofDigest>)

  function NormalizeProof(p: Proof): NormalProof {
    NormalProof(p.proofId, p.issuerRef, p.targetType, p.targetId, p.digest)
  }

  function NormalizeEach(proofs: seq<Proof>): (r: seq<NormalProof>)
    ensures |r| == |proofs|
    ensures forall i :: 0 <= i < |r| ==> r[i] == NormalizeProof(proofs[i])
  {
    if proofs == [] then [] else [NormalizeProof(proofs[0])] + NormalizeEach(proofs[1..])
  }

  /** The comparator on proofs that a comparator on their identifiers gives. */
  function ById(leq: (Text, Text) -> bool): (NormalProof, NormalProof) -> bool {
    (a: NormalProof, b: NormalProof) => leq(a.proofId, b.proofId)
  }

  /** `normalizeProofs`, for whatever order `localeCompare` puts on identifiers. */
  function NormalizeProofs(proofs: seq<Proof>, leq: (Text, Text) -> bool): seq<NormalProof> {
    Sort(NormalizeEach(proofs), ById(leq))
  }

  ghost predicate IdsToldApart(proofs: seq<Proof>, leq: (Text, Text) -> bool) {
    forall i, j :: 0 <= i < |proofs| && 0 <= j < |proofs| && i != j ==>
      !(leq(proofs[i].proofId, proofs[j].proofId) && leq(proofs[j].proofId, proofs[i].proofId))
  }

  lemma {:induction false} NormalizeWithout(proofs: seq<Proof>, k: nat)
    requires k < |proofs|
    ensures NormalizeEach(proofs[..k] + proofs[k + 1..]) == NormalizeEach(proofs)[..k] + NormalizeEach(proofs)[k + 1..]
  {
  }

  lemma {:induction false} NormalizeEachCounts(proofs: seq<Proof>, others: seq<Proof>)
    requires Permutation(proofs, others)
    ensures Permutation(NormalizeEach(proofs), NormalizeEach(others))
  {
    PermutationMembers(proofs, others);
    if proofs != [] {
      assert proofs[0] in others;
      var k :| 0 <= k < |others| && others[k] == proofs[0];
      var rest := others[..k] + others[k + 1..];
      RemoveFromBoth(proofs, others, k);
      NormalizeEachCounts(proofs[1..], rest);
      NormalizeWithout(others, k);
      assert NormalizeEach(proofs)[1..] == NormalizeEach(proofs[1..]);
      AddToBoth(NormalizeEach(proofs), NormalizeEach(others), k);
    }
  }

  lemma {:induction false} ByIdOrders(leq: (Text, Text) -> bool)
    requires Ordering(leq)
    ensures Ordering(ById(leq))
  {
    var order := ById(leq);
    forall a: NormalProof, b: NormalProof ensures order(a, b) || order(b, a) {
      assert leq(a.proofId, b.proofId) || leq(b.proofId, a.proofId);
    }
    forall a: NormalProof, b: NormalProof, c: NormalProof | order(a, b) && order(b, c) ensures order(a, c) {
      assert leq(a.proofId, b.proofId) && leq(b.proofId, c.proofId);
    }
  }

  /** The order in which proofs were reported does not matter when the comparator tells their identifiers apart. */
  lemma {:induction false} ProofOrderIrrelevant(proofs: seq<Proof>, others: seq<Proof>, leq: (Text, Text) -> bool)
    requires Ordering(leq) && IdsToldApart(proofs, leq) && Permutation(proofs, others)
    ensures NormalizeProofs(proofs, leq) == NormalizeProofs(others, leq)
  {
    ByIdOrders(leq);
    NormalizeEachCounts(proofs, others);
    SortForgetsArrangement(NormalizeEach(proofs), NormalizeEach(others), ById(leq));
  }

  /** The runner reports, for each proof once, its identifier, issuer, target type, target and target digest, ordered
      by identifier; proofs whose identifiers tie stay in the order they came in. */
  lemma {:induction false} ProofsExactly(proofs: seq<Proof>, leq: (Text, Text) -> bool) returns (order: seq<nat>)
    requires Ordering(leq)
    ensures IsArrangement(order, |proofs|) && |NormalizeProofs(proofs, leq)| == |proofs|
    ensures forall i :: 0 <= i < |proofs| ==>
              NormalizeProofs(proofs, leq)[i] ==
              var p := proofs[order[i]]; NormalProof(p.proofId, p.issuerRef, p.targetType, p.targetId, p.digest)
    ensures forall i, j :: 0 <= i < j < |proofs| ==>
              && leq(proofs[order[i]].proofId, proofs[order[j]].proofId)
              && (leq(proofs[order[j]].proofId, proofs[order[i]].proofId) ==> order[i] < order[j])
  {
    var ns := NormalizeEach(proofs);
    order := SortArranges(ns, ById(leq));
    ByIdOrders(leq);
    SortOrders(ns, ById(leq));
    forall i, j | 0 <= i < j < |proofs|
      ensures leq(proofs[order[i]].proofId, proofs[order[j]].proofId)
      ensures leq(proofs[order[j]].proofId, proofs[order[i]].proofId) ==> order[i] < order[j]
    {
      assert ById(leq)(NormalizeProofs(proofs, leq)[i], NormalizeProofs(proofs, leq)[j]);
      assert ById(leq)(ns[order[j]], ns[order[i]]) <==> leq(proofs[order[j]].proofId, proofs[order[i]].proofId);
    }
  }

  function Ids(proofs: seq<NormalProof>): (r: seq<Text>)
    ensures |r| == |proofs|
    ensures forall i :: 0 <= i < |r| ==> r[i] == proofs[i].proofId
  {
    seq(|proofs|, i requires 0 <= i < |proofs| => proofs[i].proofId)
  }

  /** The validator's own order check on expected proofs. */
  predicate IdsInOrder(ids: seq<Text>) { Stringify(ids) == Stringify(SortTexts(ids)) }

  /** The runner's order passes the validator's check exactly when the two comparators agree on the identifiers. */
  lemma {:induction false} OrdersMustAgree(proofs: seq<Proof>, leq: (Text, Text) -> bool)
    requires Ordering(leq) && IdsToldApart(proofs, leq)
    ensures IdsInOrder(Ids(NormalizeProofs(proofs, leq))) <==>
            forall i, j :: 0 <= i < |proofs| && 0 <= j < |proofs| && leq(proofs[i].proofId, proofs[j].proofId) ==>
              TextLeq(proofs[i].proofId, proofs[j].proofId)
  {
    var ns := NormalizeEach(proofs);
    var sorted := NormalizeProofs(proofs, leq);
    var ids := Ids(sorted);
    ByIdOrders(leq);
    SortPermutes(ns, ById(leq));
    SortOrders(ns, ById(leq));
    PermutationMembers(sorted, ns);
    StringifyInjective(ids, SortTexts(ids));
    TextLeqOrders();
    SortOrders(ids, TextLeq);
    if IdsInOrder(ids) {
      forall i, j | 0 <= i < |proofs| && 0 <= j < |proofs| && leq(proofs[i].proofId, proofs[j].proofId)
        ensures TextLeq(proofs[i].proofId, proofs[j].proofId)
      {
        CompareIsLexicographic(proofs[i].proofId, proofs[i].proofId);
        AgreeOnPair(ns, leq, sorted, i, j);
      }
    }
    if forall i, j :: 0 <= i < |proofs| && 0 <= j < |proofs| && leq(proofs[i].proofId, proofs[j].proofId) ==>
         TextLeq(proofs[i].proofId, proofs[j].proofId) {
      forall p, q | 0 <= p < q < |ids| ensures TextLeq(ids[p], ids[q]) {
        assert sorted[p] in ns && sorted[q] in ns;
        var i :| 0 <= i < |ns| && ns[i] == sorted[p];
        var j :| 0 <= j < |ns| && ns[j] == sorted[q];
        assert ById(leq)(sorted[p], sorted[q]);
      }
      SortFixesOrdered(ids, TextLeq);
    }
  }

  /** Where both orders sort a list, they agree on any two of its identifiers. */
  lemma {:induction false} AgreeOnPair(ns: seq<NormalProof>, leq: (Text, Text) -> bool,
                                          sorted: seq<NormalProof>, i: nat, j: nat)
    requires ToldApart(ns, ById(leq)) && Permutation(sorted, ns)
    requires Ordered(sorted, ById(leq)) && Ordered(Ids(sorted), TextLeq)
    requires i < |ns| && j < |ns| && leq(ns[i].proofId, ns[j].proofId)
    requires TextLeq(ns[i].proofId, ns[i].proofId)
    ensures TextLeq(ns[i].proofId, ns[j].proofId)
  {
    PermutationMembers(sorted, ns);
    assert ns[i] in sorted && ns[j] in sorted;
    var p :| 0 <= p < |sorted| && sorted[p] == ns[i];
    var q :| 0 <= q < |sorted| && sorted[q] == ns[j];
    if p < q {
      assert TextLeq(Ids(sorted)[p], Ids(sorted)[q]);
    } else if q < p {
      assert ById(leq)(sorted[q], sorted[p]);
    }
  }
}
