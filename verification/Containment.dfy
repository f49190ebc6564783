/** A value's canonical bytes hold the canonical bytes of everything inside it: elements and member values stand
    in the text as they are, and plain text stands in the bytes as it is. */
module Containment {
  import opened Utf16
  import opened Strings
  import opened Json
  import opened Utf8

  /** `part` occurs in `whole` as one run. */
  ghost predicate Within<T>(part: seq<T>, whole: seq<T>) {
    exists i :: 0 <= i <= |whole| - |part| && OccursAt(part, whole, i)
  }

  ghost predicate OccursAt<T>(part: seq<T>, whole: seq<T>, i: nat)
    requires i + |part| <= |whole|
  {
    whole[i..i + |part|] == part
  }

  lemma {:induction false} WithinMiddle<T>(before: seq<T>, part: seq<T>, after: seq<T>)
    ensures Within(part, before + part + after)
  {
    assert OccursAt(part, before + part + after, |before|);
  }

  lemma {:induction false} WithinTransitive<T>(a: seq<T>, b: seq<T>, c: seq<T>)
    requires Within(a, b) && Within(b, c)
    ensures Within(a, c)
  {
    var i :| 0 <= i <= |b| - |a| && OccursAt(a, b, i);
    var j :| 0 <= j <= |c| - |b| && OccursAt(b, c, j);
    forall x | 0 <= x < |a| ensures c[j + i..j + i + |a|][x] == a[x] {
      assert c[j..j + |b|][i + x] == b[i + x] && b[i..i + |a|][x] == a[x];
    }
    assert OccursAt(a, c, j + i);
  }

  lemma {:induction false} WithinConcat<T>(part: seq<T>, a: seq<T>, b: seq<T>)
    ensures Within(part, a) ==> Within(part, a + b)
    ensures Within(part, b) ==> Within(part, a + b)
  {
    assert a + b == [] + a + b && a + b == a + b + [];
    WithinMiddle([], a, b);
    WithinMiddle(a, b, []);
    if Within(part, a) {
      WithinTransitive(part, a, a + b);
    }
    if Within(part, b) {
      WithinTransitive(part, b, a + b);
    }
  }

  lemma {:induction false} ItemTextWithin(items: seq<JSON>, k: nat)
    requires CanonicalizeItems(items).Canon? && k < |items|
    ensures Canonicalize(items[k]).Canon?
    ensures Within(Canonicalize(items[k]).text, CanonicalizeItems(items).text)
  {
    var first := Canonicalize(items[0]).text;
    if |items| == 1 {
      WithinMiddle([], first, []);
      assert [] + first + [] == first;
    } else {
      var more := CanonicalizeItems(items[1..]).text;
      if k == 0 {
        WithinMiddle([], first, [COMMA] + more);
        assert [] + first + ([COMMA] + more) == first + ([COMMA] + more);
      } else {
        ItemTextWithin(items[1..], k - 1);
        WithinConcat(Canonicalize(items[k]).text, [COMMA], more);
        WithinConcat(Canonicalize(items[k]).text, first, [COMMA] + more);
      }
    }
  }

  lemma {:induction false} MemberValueWithin(m: Member)
    requires CanonicalizeMember(m).Canon?
    ensures Within(Canonicalize(m.value).text, CanonicalizeMember(m).text)
  {
    var value := Canonicalize(m.value).text;
    WithinMiddle(Quote(m.key) + [COLON], value, []);
    ColonBetween(Quote(m.key), value);
  }

  lemma {:induction false} ColonBetween(key: Text, value: Text)
    ensures key + [COLON] + value + [] == key + ([COLON] + value)
  {
  }

  lemma {:induction false} MemberTextWithin(members: seq<Member>, k: nat)
    requires CanonicalizeMembers(members).Canon? && k < |members|
    ensures Canonicalize(members[k].value).Canon?
    ensures Within(Canonicalize(members[k].value).text, CanonicalizeMembers(members).text)
  {
    var first := CanonicalizeMember(members[0]).text;
    if k == 0 {
      MemberValueWithin(members[0]);
    }
    if |members| > 1 {
      var more := CanonicalizeMembers(members[1..]).text;
      if k == 0 {
        WithinConcat(Canonicalize(members[0].value).text, first, [COMMA] + more);
      } else {
        MemberTextWithin(members[1..], k - 1);
        WithinConcat(Canonicalize(members[k].value).text, [COMMA], more);
        WithinConcat(Canonicalize(members[k].value).text, first, [COMMA] + more);
      }
    }
  }

  lemma {:induction false} BracketsWithin(open: CodeUnit, body: Text, close: CodeUnit)
    ensures Within(body, [open] + body + [close])
  {
    WithinMiddle([open], body, [close]);
  }

  /** The text of an element is inside the text of its array. */
  lemma {:induction false} ElementWithinArray(items: seq<JSON>, k: nat)
    requires Canonicalize(Arr(items)).Canon? && k < |items|
    ensures Canonicalize(items[k]).Canon?
    ensures Within(Canonicalize(items[k]).text, Canonicalize(Arr(items)).text)
  {
    var body := CanonicalizeItems(items).text;
    ItemTextWithin(items, k);
    BracketsWithin(OPEN_ARRAY, body, CLOSE_ARRAY);
    WithinTransitive(Canonicalize(items[k]).text, body, Canonicalize(Arr(items)).text);
  }

  /** The text of a member's value is inside the text of its object, wherever sorting puts it. */
  lemma {:induction false} ValueWithinObject(members: seq<Member>, m: Member)
    requires Canonicalize(Obj(members)).Canon? && m in members
    ensures Canonicalize(m.value).Canon?
    ensures Within(Canonicalize(m.value).text, Canonicalize(Obj(members)).text)
  {
    var sorted := SortMembers(members);
    var body := CanonicalizeMembers(sorted).text;
    SortMembership(members);
    var k :| 0 <= k < |sorted| && sorted[k] == m;
    MemberTextWithin(sorted, k);
    BracketsWithin(OPEN_OBJECT, body, CLOSE_OBJECT);
    WithinTransitive(Canonicalize(m.value).text, body, Canonicalize(Obj(members)).text);
  }

  /** A plain string stands in its own canonical text character by character. */
  lemma {:induction false} PlainWithinText(t: Text)
    requires Plain(t)
    ensures Canonicalize(Str(t)).Canon? && Within(t, Canonicalize(Str(t)).text)
  {
    NoSurrogatesValid(t);
    PlainIsVerbatim(t);
    WithinMiddle([QUOTE], t, [QUOTE]);
  }

  // ---------------------------------------------------------------------
  // From text to bytes
  // ---------------------------------------------------------------------

  lemma {:induction false} ValidBefore(before: Text, u: CodeUnit, after: Text)
    requires ValidUnicode(before + ([u] + after)) && !IsHigh(u) && !IsLow(u)
    ensures ValidUnicode(before)
  {
    var whole := before + ([u] + after);
    if before != [] {
      assert whole[0] == before[0];
      if IsHigh(before[0]) {
        assert whole[1] == if |before| > 1 then before[1] else u;
        assert whole[2..] == before[2..] + ([u] + after);
        ValidBefore(before[2..], u, after);
      } else {
        assert whole[1..] == before[1..] + ([u] + after);
        ValidBefore(before[1..], u, after);
      }
    }
  }

  lemma {:induction false} EncodeAround(before: Text, part: Text, after: Text)
    requires ValidUnicode(before) && ValidUnicode(part)
    ensures Within(Encode(part), Encode(before + (part + after)))
  {
    ValidHasNoSeam(before, part + after);
    EncodeConcat(before, part + after);
    ValidHasNoSeam(part, after);
    EncodeConcat(part, after);
    Sandwiched(Encode(before), Encode(part), Encode(after));
  }

  lemma {:induction false} Sandwiched<T>(before: seq<T>, part: seq<T>, after: seq<T>)
    ensures Within(part, before + (part + after))
  {
    WithinMiddle(before, part, after);
    assert before + part + after == before + (part + after);
  }

  /** A plain run of a well-formed text is a run of its bytes. */
  lemma {:induction false} PlainRunEncodes(part: Text, whole: Text)
    requires Plain(part) && part != [] && Within(part, whole) && ValidUnicode(whole)
    ensures Within(Encode(part), Encode(whole))
  {
    var i :| 0 <= i <= |whole| - |part| && OccursAt(part, whole, i);
    var before, after := whole[..i], whole[i + |part|..];
    assert whole == before + (part + after);
    FirstApart(part, after);
    ValidBefore(before, part[0], part[1..] + after);
    NoSurrogatesValid(part);
    EncodeAround(before, part, after);
  }

  lemma {:induction false} FirstApart(part: Text, after: Text)
    requires part != []
    ensures part + after == [part[0]] + (part[1..] + after)
  {
  }
}
