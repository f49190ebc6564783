/** Canonical text unit by unit, as RFC 8785 describes it, and that the serializer writes that and nothing else. */
module CanonicalForm {
  import opened Utf16
  import opened Numbers
  import opened Strings
  import opened Sorting
  import opened Json
  import opened Spellings
  import opened RoundTrip
  import opened Utf8

  // ---------------------------------------------------------------------
  // Numbers (section 3.2.2.3)
  // ---------------------------------------------------------------------

  /** The figure writes the number the way Number::toString does: a zero has no sign; an exponent from 1e21 on and
      below 1e-6, with an `e`, a sign and no leading zero, behind one nonzero digit; no needless zero. */
  ghost predicate Writes(f: Figure, n: Num) {
    && n.Finite?
    && SamePlaces(n.digits, n.point, f.whole + f.fraction, |f.whole| + PowerValue(f.power))
    && (f.negative <==> n.negative && n.digits != [])
    && (f.whole == [0] || (f.whole != [] && f.whole[0] != 0))
    && (f.fraction != [] ==> f.fraction[|f.fraction| - 1] != 0)
    && (f.power.NoPower? <==> n.digits == [] || -6 < n.point <= 21)
    && (f.power.Power? ==>
          && |f.whole| == 1 && f.whole[0] != 0
          && f.power.letter == 0x65 && f.power.sign == [if n.point > 0 then 0x2B else 0x2D]
          && f.power.digits != [] && f.power.digits[0] != 0)
  }

  ghost predicate IsNumeral(t: Text, n: Num) {
    exists f :: Writes(f, n) && t == FigureText(f, [])
  }

  lemma {:induction false} LayoutPlaces(n: Num)
    requires n.Finite?
    ensures var t := Layout(n);
            && SamePlaces(n.digits, n.point, t.whole + t.fraction, |t.whole| + t.exponent)
            && (t.negative <==> n.negative && n.digits != [])
  {
    LayoutValue(n);
    TokenDenotes(Layout(n), TokenValue(Layout(n)));
  }

  lemma {:induction false} CanonicalPowerShape(e: int)
    ensures PowerValue(CanonicalPower(e)) == e
    ensures var p := CanonicalPower(e);
            && (p.NoPower? <==> e == 0)
            && (p.Power? ==> p.letter == 0x65 && p.sign == [if e > 0 then 0x2B else 0x2D]
                             && p.digits != [] && p.digits[0] != 0)
  {
    CanonicalPowerSpells(e);
    if e != 0 {
      FirstDigitNonzero(if e < 0 then -e else e);
    }
  }

  lemma {:induction false} LayoutExponentSign(n: Num)
    requires n.Finite? && Layout(n).exponent != 0
    ensures Layout(n).exponent > 0 <==> n.point > 0
  {
  }

  lemma {:induction false} CanonicalFigureWrites(n: Num)
    requires n.Finite?
    ensures Writes(CanonicalFigure(n), n)
  {
    LayoutPlaces(n);
    LayoutIsProper(n);
    CanonicalPowerShape(Layout(n).exponent);
    if Layout(n).exponent != 0 {
      LayoutExponentSign(n);
    }
  }

  lemma {:induction false} FirstDigitNonzero(n: nat)
    requires n > 0
    ensures NatDigits(n)[0] != 0
  {
    if n >= 10 {
      FirstDigitNonzero(n / 10);
    }
  }

  lemma {:induction false} PowerIsCanonical(p: Power)
    requires p.Power? ==> p.letter == 0x65 && p.sign == [if PowerValue(p) > 0 then 0x2B else 0x2D]
                          && p.digits != [] && p.digits[0] != 0
    ensures p == CanonicalPower(PowerValue(p))
    ensures p.Power? ==> PowerValue(p) != 0
  {
    if p.Power? {
      DecimalIsRead(p.digits);
      DigitsOfValue(p.digits);
    }
  }

  /** A zero exponent part would be no exponent part, so its sign is that of its value. */
  lemma {:induction false} SignOfPower(p: Power, positive: bool)
    requires p.Power? && p.sign == [if positive then 0x2B else 0x2D] && p.digits != [] && p.digits[0] != 0
    ensures PowerValue(p) > 0 <==> positive
  {
    DecimalIsRead(p.digits);
    DigitsOfValue(p.digits);
  }

  lemma {:induction false} WritesIsCanonical(f: Figure, n: Num)
    requires Writes(f, n)
    ensures f == CanonicalFigure(n)
  {
    if f.power.Power? {
      SignOfPower(f.power, n.point > 0);
    }
    PowerIsCanonical(f.power);
    WrittenToken(f, n);
  }

  lemma {:induction false} WrittenToken(f: Figure, n: Num)
    requires Writes(f, n) && (f.power.Power? ==> PowerValue(f.power) != 0)
    ensures FigureToken(f) == Layout(n)
  {
    var t := FigureToken(f);
    TokenDenotes(t, UnsignedZero(n));
    assert TokenValue(t) == UnsignedZero(n);
    assert PrintableToken(t);
    LayoutIsUnique(t, n);
  }

  /** A text is the printed number exactly when it is written that way. */
  lemma {:induction false} PrintedExactly(n: Num, t: Text)
    requires n.Finite?
    ensures t == PrintNumber(n) <==> IsNumeral(t, n)
  {
    CanonicalFigureSpells(n, []);
    assert PrintNumber(n) + [] == PrintNumber(n);
    CanonicalFigureWrites(n);
    if f :| Writes(f, n) && t == FigureText(f, []) {
      WritesIsCanonical(f, n);
    }
  }

  // ---------------------------------------------------------------------
  // Strings (section 3.2.2.2)
  // ---------------------------------------------------------------------

  /** The units that stand for one unit of a string. */
  function UnitToken(u: CodeUnit): Text {
    match u
    case 0x08 => [0x5C, 0x62]
    case 0x09 => [0x5C, 0x74]
    case 0x0A => [0x5C, 0x6E]
    case 0x0C => [0x5C, 0x66]
    case 0x0D => [0x5C, 0x72]
    case 0x22 => [0x5C, 0x22]
    case 0x5C => [0x5C, 0x5C]
    case _ =>
      if u < 0x20 then [0x5C, 0x75, 0x30, 0x30, 0x30 + u / 16, if u % 16 < 10 then 0x30 + u % 16 else 0x57 + u % 16]
      else [u]
  }

  function UnitTokens(s: Text): Text {
    if s == [] then [] else UnitToken(s[0]) + UnitTokens(s[1..])
  }

  function StringToken(s: Text): Text { [0x22] + UnitTokens(s) + [0x22] }

  lemma {:induction false} UnitIsEscaped(u: CodeUnit)
    ensures IsHigh(u) || IsLow(u) ==> UnitToken(u) == [u]
    ensures !IsHigh(u) && !IsLow(u) ==> UnitToken(u) == EscapeUnit(u)
  {
    if u < 0x20 && ShortEscape(u) == 0 {
      assert u / 0x1000 == 0 && u / 0x100 % 16 == 0 && u / 16 % 16 == u / 16;
    }
  }

  lemma {:induction false} TokensOfPair(s: Text)
    requires StartsWithPair(s)
    ensures UnitTokens(s) == s[..2] + UnitTokens(s[2..])
  {
    UnitIsEscaped(s[0]);
    UnitIsEscaped(s[1]);
    assert s[1..][1..] == s[2..];
    Regroup([s[0]], [s[1]], UnitTokens(s[2..]));
    assert s[..2] == [s[0]] + [s[1]];
  }

  lemma {:induction false} QuotedUnits(s: Text)
    requires ValidUnicode(s)
    ensures EscapeBody(s) == UnitTokens(s)
  {
    if s == [] {
    } else if StartsWithPair(s) {
      QuotedUnits(s[2..]);
      TokensOfPair(s);
    } else {
      QuotedUnits(s[1..]);
      UnitIsEscaped(s[0]);
    }
  }

  lemma {:induction false} QuoteIsToken(s: Text)
    requires ValidUnicode(s)
    ensures Quote(s) == StringToken(s)
  {
    QuotedUnits(s);
  }

  // ---------------------------------------------------------------------
  // Values
  // ---------------------------------------------------------------------

  /** Parts with commas between them. */
  function Joined(parts: seq<Text>): Text {
    if parts == [] then [] else if |parts| == 1 then parts[0] else parts[0] + ([0x2C] + Joined(parts[1..]))
  }

  ghost predicate NamesAscend(members: seq<Member>, order: seq<nat>)
    requires IsArrangement(order, |members|)
  {
    forall i, j :: 0 <= i < j < |order| ==> Precedes(members[order[i]].key, members[order[j]].key)
  }

  /** The text is the canonical form of the value. */
  ghost predicate IsCanonical(t: Text, v: JSON)
    decreases v
  {
    match v
    case Null => t == Ascii("null")
    case Bool(b) => t == Ascii(if b then "true" else "false")
    case Number(n) => IsNumeral(t, n)
    case Str(s) => SurrogatesPaired(s) && t == StringToken(s)
    case Arr(items) =>
      exists parts: seq<Text> ::
        && |parts| == |items| && t == [0x5B] + Joined(parts) + [0x5D]
        && forall i :: 0 <= i < |items| ==> IsCanonical(parts[i], items[i])
    case Obj(members) =>
      exists order: seq<nat>, parts: seq<Text> ::
        && IsArrangement(order, |members|) && NamesAscend(members, order)
        && |parts| == |members| && t == [0x7B] + Joined(parts) + [0x7D]
        && forall i :: 0 <= i < |members| ==> IsCanonicalMember(parts[i], members[order[i]])
    case Unsupported => false
  }

  ghost predicate IsCanonicalMember(t: Text, m: Member)
    decreases m
  {
    SurrogatesPaired(m.key) && exists value :: IsCanonical(value, m.value) && t == StringToken(m.key) + ([0x3A] + value)
  }

  // ---------------------------------------------------------------------
  // The serializer writes the canonical form
  // ---------------------------------------------------------------------

  lemma {:induction false} ItemsJoin(items: seq<JSON>, parts: seq<Text>)
    requires |parts| == |items|
    requires forall i :: 0 <= i < |items| ==> Canonicalize(items[i]) == Canon(parts[i])
    ensures CanonicalizeItems(items) == Canon(Joined(parts))
  {
    if items != [] {
      ItemsJoin(items[1..], parts[1..]);
    }
  }

  lemma {:induction false} MembersJoin(members: seq<Member>, parts: seq<Text>)
    requires |parts| == |members|
    requires forall i :: 0 <= i < |members| ==> CanonicalizeMember(members[i]) == Canon(parts[i])
    ensures CanonicalizeMembers(members) == Canon(Joined(parts))
  {
    if members != [] {
      MembersJoin(members[1..], parts[1..]);
    }
  }

  lemma {:induction false} ItemTexts(items: seq<JSON>) returns (parts: seq<Text>)
    requires CanonicalizeItems(items).Canon?
    ensures |parts| == |items| && forall i :: 0 <= i < |items| ==> Canonicalize(items[i]) == Canon(parts[i])
  {
    if items == [] {
      parts := [];
    } else {
      var more := ItemTexts(items[1..]);
      parts := [Canonicalize(items[0]).text] + more;
    }
  }

  lemma {:induction false} MemberTexts(members: seq<Member>) returns (parts: seq<Text>)
    requires CanonicalizeMembers(members).Canon?
    ensures |parts| == |members| && forall i :: 0 <= i < |members| ==> CanonicalizeMember(members[i]) == Canon(parts[i])
  {
    if members == [] {
      parts := [];
    } else {
      var more := MemberTexts(members[1..]);
      parts := [CanonicalizeMember(members[0]).text] + more;
    }
  }

  /** The members in the given order. */
  function Arranged(members: seq<Member>, order: seq<nat>): (r: seq<Member>)
    requires forall i :: 0 <= i < |order| ==> order[i] < |members|
    ensures |r| == |order|
    ensures forall i :: 0 <= i < |r| ==> r[i] == members[order[i]]
  {
    seq(|order|, i requires 0 <= i < |order| => members[order[i]])
  }

  /** An arrangement with ascending names is the sorted list. */
  lemma {:induction false} AscendingIsSorted(members: seq<Member>, order: seq<nat>)
    requires DistinctKeys(members) && IsArrangement(order, |members|) && NamesAscend(members, order)
    ensures Arranged(members, order) == SortMembers(members)
  {
    var arranged := Arranged(members, order);
    forall i, j | 0 <= i < j < |arranged| ensures arranged[i] != arranged[j] {
      if order[i] < order[j] {
        assert members[order[i]].key != members[order[j]].key;
      } else {
        assert members[order[j]].key != members[order[i]].key;
      }
    }
    ContainedIsPermutation(arranged, members);
    SortedMembersUnique(members, arranged);
  }

  /** The sorted list is such an arrangement. */
  lemma {:induction false} SortedPlaces(members: seq<Member>) returns (order: seq<nat>)
    requires DistinctKeys(members)
    ensures IsArrangement(order, |members|) && Arranged(members, order) == SortMembers(members)
    ensures NamesAscend(members, order)
  {
    var sorted := SortMembers(members);
    SortMembership(members);
    SortedMembersUnique(members, sorted);
    order := PlacesOf(members, sorted);
    forall i, j | 0 <= i < j < |order| ensures order[i] != order[j] {
      assert Precedes(sorted[i].key, sorted[j].key);
      CompareIsLexicographic(sorted[i].key, sorted[j].key);
    }
  }

  lemma {:induction false} PlacesOf(members: seq<Member>, list: seq<Member>) returns (order: seq<nat>)
    requires forall m :: m in list ==> m in members
    ensures |order| == |list|
    ensures forall i :: 0 <= i < |list| ==> order[i] < |members| && members[order[i]] == list[i]
  {
    if list == [] {
      order := [];
    } else {
      var more := PlacesOf(members, list[1..]);
      assert list[0] in members;
      var k: nat :| k < |members| && members[k] == list[0];
      order := [k] + more;
    }
  }

  lemma {:induction false} MemberExactly(m: Member, t: Text)
    requires WellFormed(m.value)
    ensures CanonicalizeMember(m) == Canon(t) <==> IsCanonicalMember(t, m)
    decreases m
  {
    ValidUnicodeMeansPaired(m.key);
    if ValidUnicode(m.key) {
      QuoteIsToken(m.key);
    }
    if CanonicalizeMember(m) == Canon(t) {
      CanonicalExactly(m.value, Canonicalize(m.value).text);
      assert t == StringToken(m.key) + ([0x3A] + Canonicalize(m.value).text);
    }
    if IsCanonicalMember(t, m) {
      var value :| IsCanonical(value, m.value) && t == StringToken(m.key) + ([0x3A] + value);
      CanonicalExactly(m.value, value);
    }
  }

  lemma {:induction false} ListExactly(items: seq<JSON>, t: Text)
    requires forall i :: 0 <= i < |items| ==> WellFormed(items[i])
    ensures Canonicalize(Arr(items)) == Canon(t) <==> IsCanonical(t, Arr(items))
    decreases items
  {
    if Canonicalize(Arr(items)) == Canon(t) {
      var parts := ItemTexts(items);
      ItemsJoin(items, parts);
      forall i | 0 <= i < |items| ensures IsCanonical(parts[i], items[i]) {
        CanonicalExactly(items[i], parts[i]);
      }
    }
    if IsCanonical(t, Arr(items)) {
      var parts: seq<Text> :| |parts| == |items| && t == [0x5B] + Joined(parts) + [0x5D]
                              && forall i :: 0 <= i < |items| ==> IsCanonical(parts[i], items[i]);
      forall i | 0 <= i < |items| ensures Canonicalize(items[i]) == Canon(parts[i]) {
        CanonicalExactly(items[i], parts[i]);
      }
      ItemsJoin(items, parts);
    }
  }

  lemma {:induction false} RecordExactly(members: seq<Member>, t: Text)
    requires WellFormed(Obj(members))
    ensures Canonicalize(Obj(members)) == Canon(t) <==> IsCanonical(t, Obj(members))
    decreases members
  {
    SortKeepsSize(members);
    var sorted := SortMembers(members);
    if Canonicalize(Obj(members)) == Canon(t) {
      var parts := MemberTexts(sorted);
      MembersJoin(sorted, parts);
      var order := SortedPlaces(members);
      forall i | 0 <= i < |members| ensures IsCanonicalMember(parts[i], members[order[i]]) {
        assert sorted[i] == Arranged(members, order)[i];
        MemberExactly(members[order[i]], parts[i]);
      }
    }
    if IsCanonical(t, Obj(members)) {
      var order: seq<nat>, parts: seq<Text> :|
        && IsArrangement(order, |members|) && NamesAscend(members, order)
        && |parts| == |members| && t == [0x7B] + Joined(parts) + [0x7D]
        && forall i :: 0 <= i < |members| ==> IsCanonicalMember(parts[i], members[order[i]]);
      AscendingIsSorted(members, order);
      forall i | 0 <= i < |sorted| ensures CanonicalizeMember(sorted[i]) == Canon(parts[i]) {
        assert sorted[i] == Arranged(members, order)[i];
        MemberExactly(members[order[i]], parts[i]);
      }
      MembersJoin(sorted, parts);
    }
  }

  /** The serializer writes a text exactly when it is the canonical form of the value. */
  lemma {:induction false} CanonicalExactly(v: JSON, t: Text)
    requires WellFormed(v)
    ensures Canonicalize(v) == Canon(t) <==> IsCanonical(t, v)
    decreases v
  {
    match v
    case Number(n) =>
      if n.Finite? {
        PrintedExactly(n, t);
      }
    case Str(s) =>
      ValidUnicodeMeansPaired(s);
      if ValidUnicode(s) {
        QuoteIsToken(s);
      }
    case Arr(items) => ListExactly(items, t);
    case Obj(members) => RecordExactly(members, t);
    case _ => WordsAreAscii();
  }

  lemma {:induction false} WordsAreAscii()
    ensures Ascii("null") == NULL && Ascii("true") == TRUE && Ascii("false") == FALSE
  {
  }

  // ---------------------------------------------------------------------
  // Refusals
  // ---------------------------------------------------------------------

  /** The reason a string is refused: the kind of its first unpaired surrogate. */
  ghost predicate TextRefused(s: Text, why: Rejection) {
    exists i, found :: FirstUnpaired(s, i, found) && why == IllFormedText(found)
  }

  /** The reason a value is refused: that of its first element, or of the member with the least name, for which
      there is one; a name is looked at before its value. */
  ghost predicate IsRefused(v: JSON, why: Rejection)
    decreases v
  {
    match v
    case Number(n) => n.NonFinite? && why == NotFinite
    case Str(s) => TextRefused(s, why)
    case Arr(items) =>
      exists i :: 0 <= i < |items| && IsRefused(items[i], why) && forall j :: 0 <= j < i ==> Accepted(items[j])
    case Obj(members) =>
      exists i ::
        && 0 <= i < |members| && IsRefusedMember(members[i], why)
        && forall j :: 0 <= j < |members| && Precedes(members[j].key, members[i].key) ==> AcceptedMember(members[j])
    case Unsupported => why == UnsupportedValue
    case _ => false
  }

  ghost predicate IsRefusedMember(m: Member, why: Rejection)
    decreases m
  {
    if SurrogatesPaired(m.key) then IsRefused(m.value, why) else TextRefused(m.key, why)
  }

  lemma {:induction false} StringRefused(s: Text, why: Rejection)
    ensures CanonicalString(s) == Rejected(why) <==> TextRefused(s, why)
  {
    ValidUnicodeMeansPaired(s);
    if CheckUnicode(s) != Paired {
      CheckFindsFirst(s, CheckUnicode(s));
      var i :| FirstUnpaired(s, i, CheckUnicode(s));
      assert forall j, found :: FirstUnpaired(s, j, found) ==> j == i;
    }
  }

  /** A list is refused for its first element that is. */
  lemma {:induction false} ItemsRefused(items: seq<JSON>, why: Rejection)
    ensures CanonicalizeItems(items) == Rejected(why) <==>
            exists i :: 0 <= i < |items| && Canonicalize(items[i]) == Rejected(why)
                        && forall j :: 0 <= j < i ==> Canonicalize(items[j]).Canon?
    decreases |items|
  {
    if items != [] {
      var rest := items[1..];
      ItemsRefused(rest, why);
      if i :| 0 <= i < |rest| && Canonicalize(rest[i]) == Rejected(why)
              && forall j :: 0 <= j < i ==> Canonicalize(rest[j]).Canon? {
        if Canonicalize(items[0]).Canon? {
          assert items[i + 1] == rest[i];
          assert forall j :: 0 < j < i + 1 ==> items[j] == rest[j - 1];
        }
      }
      if i :| 0 <= i < |items| && Canonicalize(items[i]) == Rejected(why)
              && forall j :: 0 <= j < i ==> Canonicalize(items[j]).Canon? {
        if i > 0 {
          assert rest[i - 1] == items[i];
          assert forall j :: 0 <= j < i - 1 ==> rest[j] == items[j + 1];
        }
      }
    }
  }

  /** Member `i` is the first the serializer rejects. */
  ghost predicate RejectedAt(members: seq<Member>, i: nat, why: Rejection) {
    && i < |members| && CanonicalizeMember(members[i]) == Rejected(why)
    && forall j :: 0 <= j < i ==> CanonicalizeMember(members[j]).Canon?
  }

  lemma {:induction false} RejectedBehind(members: seq<Member>, i: nat, why: Rejection)
    requires members != []
    ensures CanonicalizeMember(members[0]).Canon? && RejectedAt(members[1..], i, why) <==>
            RejectedAt(members, i + 1, why)
  {
    var rest := members[1..];
    assert forall j :: 0 <= j < |rest| ==> rest[j] == members[j + 1];
    if RejectedAt(members, i + 1, why) {
      assert forall j :: 0 <= j < i ==> rest[j] == members[j + 1];
    } else if CanonicalizeMember(members[0]).Canon? && RejectedAt(rest, i, why) {
      assert forall j :: 0 < j <= i ==> members[j] == rest[j - 1];
    }
  }

  lemma {:induction false} MembersRefused(members: seq<Member>, why: Rejection)
    ensures CanonicalizeMembers(members) == Rejected(why) <==> exists i: nat :: RejectedAt(members, i, why)
    decreases |members|
  {
    if members != [] {
      MembersRefused(members[1..], why);
      forall i: nat ensures CanonicalizeMember(members[0]).Canon? && RejectedAt(members[1..], i, why) <==>
                            RejectedAt(members, i + 1, why) {
        RejectedBehind(members, i, why);
      }
      assert RejectedAt(members, 0, why) <==> CanonicalizeMember(members[0]) == Rejected(why);
      if i: nat :| RejectedAt(members, i, why) && i > 0 {
        assert RejectedAt(members[1..], i - 1, why);
      }
    }
  }

  lemma {:induction false} MemberRefused(m: Member, why: Rejection)
    requires WellFormed(m.value)
    ensures CanonicalizeMember(m) == Rejected(why) <==> IsRefusedMember(m, why)
    decreases m
  {
    ValidUnicodeMeansPaired(m.key);
    StringRefused(m.key, why);
    RefusedExactly(m.value, why);
  }

  lemma {:induction false} MemberWritten(m: Member)
    ensures CanonicalizeMember(m).Canon? <==> AcceptedMember(m)
  {
    SucceedsExactlyOnAccepted(m.value);
  }

  lemma {:induction false} ListRefused(items: seq<JSON>, why: Rejection)
    requires forall i :: 0 <= i < |items| ==> WellFormed(items[i])
    ensures Canonicalize(Arr(items)) == Rejected(why) <==> IsRefused(Arr(items), why)
    decreases items
  {
    ItemsRefused(items, why);
    forall i | 0 <= i < |items|
      ensures Canonicalize(items[i]) == Rejected(why) <==> IsRefused(items[i], why)
      ensures Canonicalize(items[i]).Canon? <==> Accepted(items[i])
    {
      RefusedExactly(items[i], why);
      SucceedsExactlyOnAccepted(items[i]);
    }
  }

  /** Standing before in the sorted list is having a smaller name. */
  lemma {:induction false} BeforeIsSmaller(members: seq<Member>, order: seq<nat>, i: nat, j: nat)
    requires DistinctKeys(members) && IsArrangement(order, |members|) && NamesAscend(members, order)
    requires i < |order| && j < |order|
    ensures j < i <==> Precedes(members[order[j]].key, members[order[i]].key)
  {
    CompareIsLexicographic(members[order[i]].key, members[order[j]].key);
    if i < j {
      assert Precedes(members[order[i]].key, members[order[j]].key);
    }
  }

  /** Every place of the list is some place of the arrangement. */
  lemma {:induction false} PlaceInOrder(order: seq<nat>, n: nat, k: nat) returns (i: nat)
    requires IsArrangement(order, n) && k < n
    ensures i < n && order[i] == k
  {
    var all := seq(n, i requires 0 <= i < n => i);
    forall x | x in order ensures x in all {
      assert all[x] == x;
    }
    ContainedIsPermutation(order, all);
    PermutationMembers(order, all);
    assert all[k] == k;
    assert k in order;
    i :| 0 <= i < |order| && order[i] == k;
  }

  /** Member `i` of the list is refused, and none before it. */
  ghost predicate FirstRefused(list: seq<Member>, i: nat, why: Rejection) {
    i < |list| && IsRefusedMember(list[i], why) && forall j :: 0 <= j < i ==> AcceptedMember(list[j])
  }

  lemma {:induction false} SortedRefused(members: seq<Member>, why: Rejection)
    requires WellFormed(Obj(members))
    ensures Canonicalize(Obj(members)) == Rejected(why) <==> exists i: nat :: FirstRefused(SortMembers(members), i, why)
    decreases members, 0
  {
    var sorted := SortMembers(members);
    SortKeepsSize(members);
    SortMembership(members);
    MembersRefused(sorted, why);
    forall i | 0 <= i < |sorted|
      ensures CanonicalizeMember(sorted[i]) == Rejected(why) <==> IsRefusedMember(sorted[i], why)
      ensures CanonicalizeMember(sorted[i]).Canon? <==> AcceptedMember(sorted[i])
    {
      assert sorted[i] in members;
      var k :| 0 <= k < |members| && members[k] == sorted[i];
      MemberRefused(members[k], why);
      MemberWritten(members[k]);
    }
    forall i: nat ensures RejectedAt(sorted, i, why) <==> FirstRefused(sorted, i, why) {
    }
  }

  lemma {:induction false} FirstByName(members: seq<Member>, order: seq<nat>, i: nat, why: Rejection)
    requires DistinctKeys(members) && IsArrangement(order, |members|) && NamesAscend(members, order)
    requires FirstRefused(Arranged(members, order), i, why)
    ensures IsRefused(Obj(members), why)
  {
    var k := order[i];
    forall l | 0 <= l < |members| && Precedes(members[l].key, members[k].key) ensures AcceptedMember(members[l]) {
      var j := PlaceInOrder(order, |members|, l);
      BeforeIsSmaller(members, order, i, j);
      assert members[l] == Arranged(members, order)[j];
    }
  }

  lemma {:induction false} ByNameIsFirst(members: seq<Member>, order: seq<nat>, k: nat, why: Rejection)
    requires DistinctKeys(members) && IsArrangement(order, |members|) && NamesAscend(members, order)
    requires k < |members| && IsRefusedMember(members[k], why)
    requires forall j :: 0 <= j < |members| && Precedes(members[j].key, members[k].key) ==> AcceptedMember(members[j])
    ensures exists i: nat :: FirstRefused(Arranged(members, order), i, why)
  {
    var i := PlaceInOrder(order, |members|, k);
    var list := Arranged(members, order);
    forall j | 0 <= j < i ensures AcceptedMember(list[j]) {
      BeforeIsSmaller(members, order, i, j);
      assert list[j] == members[order[j]];
    }
    assert FirstRefused(list, i, why);
  }

  lemma {:induction false} RecordRefused(members: seq<Member>, why: Rejection)
    requires WellFormed(Obj(members))
    ensures Canonicalize(Obj(members)) == Rejected(why) <==> IsRefused(Obj(members), why)
    decreases members, 1
  {
    SortedRefused(members, why);
    var order := SortedPlaces(members);
    if i: nat :| FirstRefused(SortMembers(members), i, why) {
      FirstByName(members, order, i, why);
    }
    if IsRefused(Obj(members), why) {
      var k :| 0 <= k < |members| && IsRefusedMember(members[k], why)
               && forall j :: 0 <= j < |members| && Precedes(members[j].key, members[k].key) ==>
                    AcceptedMember(members[j]);
      ByNameIsFirst(members, order, k, why);
    }
  }

  /** The serializer refuses a value exactly for the reason that comes first in the order of the canonical text. */
  lemma {:induction false} RefusedExactly(v: JSON, why: Rejection)
    requires WellFormed(v)
    ensures Canonicalize(v) == Rejected(why) <==> IsRefused(v, why)
    decreases v
  {
    match v
    case Str(s) => StringRefused(s, why);
    case Arr(items) => ListRefused(items, why);
    case Obj(members) => RecordRefused(members, why);
    case _ =>
  }

  /** The canonical bytes are the UTF-8 bytes of the canonical form. */
  ghost predicate IsCanonicalBytes(bs: Bytes, v: JSON) {
    exists t :: IsCanonical(t, v) && IsUtf8Text(bs, t)
  }

  lemma {:induction false} CanonicalBytesExactly(v: JSON, bs: Bytes, why: Rejection)
    requires WellFormed(v)
    ensures CanonicalizeBytes(v) == CanonBytes(bs) <==> IsCanonicalBytes(bs, v)
    ensures CanonicalizeBytes(v) == RejectedBytes(why) <==> IsRefused(v, why)
  {
    RefusedExactly(v, why);
    forall t ensures Canonicalize(v) == Canon(t) <==> IsCanonical(t, v) {
      CanonicalExactly(v, t);
    }
    forall t ensures Encode(t) == bs <==> IsUtf8Text(bs, t) {
      EncodedExactly(t, bs);
    }
  }
}
