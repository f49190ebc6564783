/** The strict parser undoes canonicalization at every depth, so equal texts come from equal values. */
module RoundTrip {
  import opened Utf16
  import opened Parsing
  import opened Numbers
  import opened Strings
  import opened Json
  import opened StrictJson
  import opened Spellings
  import opened Language

  // ---------------------------------------------------------------------
  // Strings and numbers
  // ---------------------------------------------------------------------

  /** How `JSON.stringify` writes the first character of a string. */
  function CanonicalPiece(t: Text): Piece
    requires t != []
  {
    if StartsWithPair(t) then Pair(t[0], t[1])
    else if ShortEscape(t[0]) != 0 then Short(ShortEscape(t[0]))
    else if t[0] < 0x20 then Coded(UnicodeEscape(t[0])[2..])
    else Itself(t[0])
  }

  function CanonicalPieces(t: Text): seq<Piece> {
    if t == [] then [] else [CanonicalPiece(t)] + CanonicalPieces(t[CharLength(t)..])
  }

  lemma {:induction false} CanonicalPieceSpells(t: Text)
    requires t != [] && ValidUnicode(t)
    ensures var p := CanonicalPiece(t);
            && LegalPiece(p) && PieceUnits(p) == t[..CharLength(t)]
            && PieceText(p) == (if StartsWithPair(t) then t[..2] else EscapeUnit(t[0]))
  {
    var u := t[0];
    if StartsWithPair(t) {
    } else if ShortEscape(u) != 0 {
      ShortEscapeReads(u);
    } else if u < 0x20 {
      Hex4OfEscape(u, []);
      assert UnicodeEscape(u) + [] == UnicodeEscape(u);
    }
  }

  lemma {:induction false} CanonicalPiecesSpell(t: Text)
    requires ValidUnicode(t)
    ensures LegalPieces(CanonicalPieces(t))
    ensures PiecesText(CanonicalPieces(t)) == EscapeBody(t) && PiecesUnits(CanonicalPieces(t)) == t
  {
    if t != [] {
      var rest := t[CharLength(t)..];
      CanonicalPieceSpells(t);
      CanonicalPiecesSpell(rest);
      assert CanonicalPieces(t)[1..] == CanonicalPieces(rest);
      assert t == t[..CharLength(t)] + rest;
    }
  }

  /** The strict reader returns a well-formed string exactly and leaves exactly what followed it. */
  lemma {:induction false} ReadUndoesQuote(t: Text, rest: Text)
    requires ValidUnicode(t)
    ensures ReadString(Quote(t) + rest) == Read(t, rest)
  {
    QuoteTail(t, rest);
    CanonicalPiecesSpell(t);
    PiecesRead(CanonicalPieces(t), rest, []);
    assert [] + t == t;
  }

  function CanonicalPower(e: int): Power {
    if e == 0 then NoPower
    else Power(0x65, [if e < 0 then 0x2D else 0x2B], NatDigits(if e < 0 then -e else e))
  }

  lemma {:induction false} CanonicalPowerSpells(e: int)
    ensures LegalPower(CanonicalPower(e)) && PowerValue(CanonicalPower(e)) == e
    ensures PowerText(CanonicalPower(e)) == ExponentText(e)
  {
    if e != 0 {
      var digits := NatDigits(if e < 0 then -e else e);
      NatDigitsValue(if e < 0 then -e else e);
      DecimalIsRead(digits);
      UnitsPrinted(digits);
      Regroup([0x65], [if e < 0 then 0x2D else 0x2B], DigitText(digits));
    }
  }

  /** How `JSON.stringify` writes a number. */
  function CanonicalFigure(n: Num): Figure
    requires n.Finite?
  {
    Figure(Layout(n).negative, Layout(n).whole, Layout(n).fraction, CanonicalPower(Layout(n).exponent))
  }

  lemma {:induction false} CanonicalFigureSpells(n: Num, tail: Text)
    requires n.Finite?
    ensures LegalFigure(CanonicalFigure(n)) && FigureToken(CanonicalFigure(n)) == Layout(n)
    ensures FigureText(CanonicalFigure(n), tail) == PrintNumber(n) + tail
  {
    LayoutValue(n);
    CanonicalPowerSpells(Layout(n).exponent);
    UnitsPrinted(Layout(n).whole);
    UnitsPrinted(Layout(n).fraction);
    TokenInFront(Layout(n), tail);
  }

  lemma {:induction false} TokenInFront(t: Token, tail: Text)
    ensures TokenText(t) + tail ==
            (if t.negative then [0x2D] else [])
            + (DigitText(t.whole) + (FractionText(t.fraction) + (ExponentText(t.exponent) + tail)))
  {
    var sign: Text := if t.negative then [0x2D] else [];
    var whole, fraction, exponent := DigitText(t.whole), FractionText(t.fraction), ExponentText(t.exponent);
    Regroup(sign, whole + (fraction + exponent), tail);
    Regroup(whole, fraction + exponent, tail);
    Regroup(fraction, exponent, tail);
  }

  /** A printed number is read back as its rounded value, or refused where that is not finite. */
  lemma {:induction false} NumberRoundTrip(n: Num, round: Rounding, rest: Text)
    requires n.Finite? && EndsNumber(rest)
    ensures ReadNumber(PrintNumber(n) + rest, round) ==
            if round(UnsignedZero(n)).NonFinite? then Failed(NonFiniteNumber, |PrintNumber(n) + rest|)
            else Read(round(UnsignedZero(n)), rest)
  {
    LayoutValue(n);
    CanonicalFigureSpells(n, rest);
    FigureReads(CanonicalFigure(n), rest);
  }

  // ---------------------------------------------------------------------
  // Values
  // ---------------------------------------------------------------------

  /** The spelling `canonicalize` chooses; what it refuses is spelled null here. */
  function Spell(v: JSON): Spelling
    decreases Size(v), 1
  {
    match v
    case Null => Word(v)
    case Bool(_) => Word(v)
    case Number(n) => if n.Finite? then Figured(CanonicalFigure(n)) else Word(Null)
    case Str(text) => Quoted(CanonicalPieces(text))
    case Arr(items) => Listed([], SpellItems(items))
    case Obj(members) =>
      SortKeepsSize(members);
      Recorded([], SpellMembers(SortMembers(members)))
    case Unsupported => Word(Null)
  }

  function SpellItems(items: seq<JSON>): (r: seq<Item>)
    ensures |r| == |items|
    decreases ItemsSize(items), 0
  {
    if items == [] then [] else [Item([], Spell(items[0]), [])] + SpellItems(items[1..])
  }

  function SpellMember(m: Member): Field
    decreases Size(m.value), 2
  {
    Field([], CanonicalPieces(m.key), [], [], Spell(m.value), [])
  }

  function SpellMembers(members: seq<Member>): (r: seq<Field>)
    ensures |r| == |members|
    ensures forall i :: 0 <= i < |r| ==> r[i].name == CanonicalPieces(members[i].key)
    decreases MembersSize(members), 0
  {
    if members == [] then [] else [SpellMember(members[0])] + SpellMembers(members[1..])
  }

  lemma {:induction false} EmptyAround(t: Text)
    ensures [] + t == t
  {
  }

  /** How the joined text of a list splits behind its first part. */
  lemma {:induction false} JoinTail(first: Text, more: Text, tail: Text)
    ensures (first + ([COMMA] + more)) + tail == first + ([COMMA] + (more + tail))
  {
    Regroup(first, [COMMA] + more, tail);
    Regroup([COMMA], more, tail);
  }

  lemma {:induction false} BracketTail(open: CodeUnit, body: Text, close: CodeUnit, tail: Text)
    ensures [open] + body + [close] + tail == [open] + (body + ([close] + tail))
  {
  }

  /** The canonical text is that spelling. */
  lemma {:induction false} SpellIsCanonical(v: JSON, tail: Text)
    requires Canonicalize(v).Canon?
    ensures Spelled(Spell(v), tail) == Canonicalize(v).text + tail
    decreases Size(v), 3
  {
    match v
    case Number(n) => CanonicalFigureSpells(n, tail);
    case Str(text) =>
      CanonicalPiecesSpell(text);
      BracketTail(QUOTE, EscapeBody(text), QUOTE, tail);
    case Arr(items) =>
      ListIsCanonical(items, tail);
    case Obj(members) =>
      SortKeepsSize(members);
      RecordIsCanonical(SortMembers(members), tail);
    case _ =>
  }

  lemma {:induction false} ListIsCanonical(items: seq<JSON>, tail: Text)
    requires CanonicalizeItems(items).Canon?
    ensures Spelled(Listed([], SpellItems(items)), tail) ==
            [OPEN_ARRAY] + CanonicalizeItems(items).text + [CLOSE_ARRAY] + tail
    decreases ItemsSize(items), 3
  {
    BracketTail(OPEN_ARRAY, CanonicalizeItems(items).text, CLOSE_ARRAY, tail);
    if items != [] {
      SpellItemsIsCanonical(items, tail);
    }
  }

  lemma {:induction false} RecordIsCanonical(members: seq<Member>, tail: Text)
    requires CanonicalizeMembers(members).Canon?
    ensures Spelled(Recorded([], SpellMembers(members)), tail) ==
            [OPEN_OBJECT] + CanonicalizeMembers(members).text + [CLOSE_OBJECT] + tail
    decreases MembersSize(members), 3
  {
    BracketTail(OPEN_OBJECT, CanonicalizeMembers(members).text, CLOSE_OBJECT, tail);
    if members != [] {
      SpellMembersIsCanonical(members, tail);
    }
  }

  lemma {:induction false} SpellItemsIsCanonical(items: seq<JSON>, tail: Text)
    requires items != [] && CanonicalizeItems(items).Canon?
    ensures SpelledItems(SpellItems(items), tail) == CanonicalizeItems(items).text + ([CLOSE_ARRAY] + tail)
    decreases ItemsSize(items), 2
  {
    var rest, close := items[1..], [CLOSE_ARRAY] + tail;
    assert SpellItems(items)[1..] == SpellItems(rest);
    var next := if rest == [] then close else [COMMA] + SpelledItems(SpellItems(rest), tail);
    EmptyAround(next);
    EmptyAround(Spelled(Spell(items[0]), next));
    SpellIsCanonical(items[0], next);
    if rest != [] {
      SpellItemsIsCanonical(rest, tail);
      JoinTail(Canonicalize(items[0]).text, CanonicalizeItems(rest).text, close);
    }
  }

  lemma {:induction false} SpellMemberIsCanonical(m: Member, tail: Text)
    requires CanonicalizeMember(m).Canon?
    ensures SpelledField(SpellMember(m), tail) == CanonicalizeMember(m).text + tail
    decreases Size(m.value), 4
  {
    var value := Canonicalize(m.value).text;
    CanonicalPiecesSpell(m.key);
    SpellIsCanonical(m.value, tail);
    EmptyAround(value + tail);
    EmptyAround([COLON] + (value + tail));
    MemberTail(m.key, value, tail);
  }

  lemma {:induction false} MemberTail(key: Text, value: Text, tail: Text)
    ensures (Quote(key) + ([COLON] + value)) + tail ==
            [QUOTE] + (EscapeBody(key) + ([QUOTE] + ([COLON] + (value + tail))))
  {
    Regroup(Quote(key), [COLON] + value, tail);
    Regroup([COLON], value, tail);
    BracketTail(QUOTE, EscapeBody(key), QUOTE, [COLON] + (value + tail));
  }

  lemma {:induction false} SpellMembersIsCanonical(members: seq<Member>, tail: Text)
    requires members != [] && CanonicalizeMembers(members).Canon?
    ensures SpelledFields(SpellMembers(members), tail) == CanonicalizeMembers(members).text + ([CLOSE_OBJECT] + tail)
    decreases MembersSize(members), 2
  {
    var rest, close := members[1..], [CLOSE_OBJECT] + tail;
    assert SpellMembers(members)[1..] == SpellMembers(rest);
    var next := if rest == [] then close else [COMMA] + SpelledFields(SpellMembers(rest), tail);
    EmptyAround(next);
    EmptyAround(SpelledField(SpellMember(members[0]), next));
    SpellMemberIsCanonical(members[0], next);
    if rest != [] {
      SpellMembersIsCanonical(rest, tail);
      JoinTail(CanonicalizeMember(members[0]).text, CanonicalizeMembers(rest).text, close);
    }
  }

  /** For whatever the parser can return, that spelling is legal and means the normal form. */
  lemma {:induction false} SpellIsLegal(v: JSON, round: Rounding)
    requires IsRounding(round) && Parseable(v, round)
    ensures Legal(Spell(v), round) && Meaning(Spell(v), round) == Normal(v)
    decreases Size(v), 3
  {
    match v
    case Number(n) =>
      CanonicalFigureSpells(n, []);
      LayoutValue(n);
    case Str(text) => CanonicalPiecesSpell(text);
    case Arr(items) => SpellItemsLegal(items, round);
    case Obj(members) =>
      var sorted := SortMembers(members);
      SortKeepsSize(members);
      SortCommutesWithNormal(members);
      SortedParseable(members, round);
      SpellMembersLegal(sorted, round);
      NamesOfSorted(sorted, round);
    case _ =>
  }

  lemma {:induction false} SpellItemsLegal(items: seq<JSON>, round: Rounding)
    requires IsRounding(round) && Parseable(Arr(items), round)
    ensures LegalItems(SpellItems(items), round) && ItemMeanings(SpellItems(items), round) == NormalItems(items)
    decreases ItemsSize(items), 0
  {
    if items != [] {
      assert Parseable(items[0], round);
      ParseableRest(items, round);
      SpellIsLegal(items[0], round);
      SpellItemsLegal(items[1..], round);
      assert SpellItems(items)[1..] == SpellItems(items[1..]);
    }
  }

  lemma {:induction false} ParseableRest(items: seq<JSON>, round: Rounding)
    requires items != [] && Parseable(Arr(items), round)
    ensures Parseable(Arr(items[1..]), round)
  {
  }

  lemma {:induction false} SpellMembersLegal(members: seq<Member>, round: Rounding)
    requires IsRounding(round) && ParseableMembers(members, round)
    ensures LegalFields(SpellMembers(members), round)
    ensures FieldMeanings(SpellMembers(members), round) == NormalMembers(members)
    decreases MembersSize(members), 0
  {
    if members != [] {
      var m := members[0];
      assert ValidUnicode(m.key) && Parseable(m.value, round);
      ParseableTail(members, round);
      CanonicalPiecesSpell(m.key);
      SpellIsLegal(m.value, round);
      SpellMembersLegal(members[1..], round);
      assert SpellMembers(members)[1..] == SpellMembers(members[1..]);
      assert LegalField(SpellMember(m), round);
    }
  }

  lemma {:induction false} ParseableTail(members: seq<Member>, round: Rounding)
    requires members != [] && ParseableMembers(members, round)
    ensures ParseableMembers(members[1..], round)
  {
    forall i | 0 <= i < |members[1..]| ensures members[1..][i] == members[i + 1] {
    }
  }

  lemma {:induction false} NamesOfSorted(members: seq<Member>, round: Rounding)
    requires ParseableMembers(members, round)
    ensures NamesDiffer(SpellMembers(members))
  {
    var fields := SpellMembers(members);
    forall i | 0 <= i < |fields|
      ensures LegalPieces(fields[i].name) && PiecesUnits(fields[i].name) == members[i].key
    {
      CanonicalPiecesSpell(members[i].key);
    }
  }

  lemma {:induction false} SortedParseable(members: seq<Member>, round: Rounding)
    requires Parseable(Obj(members), round)
    ensures ParseableMembers(SortMembers(members), round)
  {
    var sorted := SortMembers(members);
    SortMembership(members);
    forall i | 0 <= i < |sorted| ensures ValidUnicode(sorted[i].key) && Parseable(sorted[i].value, round) {
      assert sorted[i] in members;
      var j :| 0 <= j < |members| && members[j] == sorted[i];
      assert AcceptedMember(members[j]);
    }
    DistinctKeysSorted(members);
  }

  lemma {:induction false} DistinctKeysSorted(members: seq<Member>)
    requires DistinctKeys(members)
    ensures DistinctKeys(SortMembers(members))
  {
    Sorting.SortPermutes(members, KeyLeq);
    DistinctKeysPermute(members, SortMembers(members));
  }

  // ---------------------------------------------------------------------
  // Main results
  // ---------------------------------------------------------------------

  /** What may stand behind a value: anything, except that a number must not be continued. */
  predicate MayFollow(v: JSON, rest: Text) {
    v.Number? ==> EndsNumber(rest)
  }

  /** At every depth: behind any value's canonical text, the parser stops exactly where the text
      ended and returns the value with members sorted and zeros unsigned. */
  lemma {:induction false} ReadUndoesCanonicalize(v: JSON, round: Rounding, rest: Text)
    requires IsRounding(round) && Parseable(v, round) && MayFollow(v, rest)
    ensures Canonicalize(v).Canon?
    ensures ReadValue(Canonicalize(v).text + rest, round) == Read(Normal(v), rest)
  {
    SucceedsExactlyOnAccepted(v);
    SpellIsLegal(v, round);
    SpellIsCanonical(v, rest);
    SpellingReads(Spell(v), rest, round);
  }

  /** Parsing a value's canonical text gives the value back, members sorted and zeros unsigned. */
  lemma {:induction false} ParseUndoesCanonicalize(v: JSON, round: Rounding)
    requires IsRounding(round) && Parseable(v, round)
    ensures Canonicalize(v).Canon?
    ensures ParseStrict(Canonicalize(v).text, round) == Read(Normal(v), [])
  {
    ReadUndoesCanonicalize(v, round, []);
    assert Canonicalize(v).text + [] == Canonicalize(v).text;
  }

  /** Canonical text is unique: it is shared exactly by values equal up to member order and sign of zero. */
  lemma {:induction false} CanonicalTextDecidesSame(a: JSON, b: JSON)
    requires WellFormed(a) && WellFormed(b) && Accepted(a) && Accepted(b)
    ensures Canonicalize(a).Canon? && Canonicalize(b).Canon?
    ensures Canonicalize(a).text == Canonicalize(b).text <==> Same(a, b)
  {
    EverythingRepresentable(a);
    EverythingRepresentable(b);
    ParseUndoesCanonicalize(a, Exact);
    ParseUndoesCanonicalize(b, Exact);
    NormalDecidesSame(a, b);
    CanonicalizeNormal(a);
    CanonicalizeNormal(b);
  }

  lemma {:induction false} EverythingRepresentable(v: JSON)
    ensures Representable(v, Exact)
  {
    match v
    case Arr(items) =>
      forall i | 0 <= i < |items| ensures Representable(items[i], Exact) {
        EverythingRepresentable(items[i]);
      }
    case Obj(members) =>
      forall i | 0 <= i < |members| ensures Representable(members[i].value, Exact) {
        EverythingRepresentable(members[i].value);
      }
    case _ =>
  }

  /** The order of members, at any depth, changes neither the text nor the reason for a rejection. */
  lemma {:induction false} MemberOrderIrrelevant(a: JSON, b: JSON)
    requires WellFormed(a) && WellFormed(b) && Same(a, b)
    ensures Canonicalize(a) == Canonicalize(b)
  {
    NormalDecidesSame(a, b);
    CanonicalizeNormal(a);
    CanonicalizeNormal(b);
  }

  /** Canonicalizing what the parser accepted succeeds, and doing it again changes nothing. */
  lemma {:induction false} CanonicalizationOfTextSettles(text: Text, round: Rounding)
    requires IsRounding(round) && ParseStrict(text, round).Read?
    ensures var v := ParseStrict(text, round).value;
            && Canonicalize(v).Canon?
            && ParseStrict(Canonicalize(v).text, round) == Read(Normal(v), [])
            && Canonicalize(Normal(v)) == Canonicalize(v)
  {
    var v := ParseStrict(text, round).value;
    ReadValueParseable(text, round);
    ParseUndoesCanonicalize(v, round);
    CanonicalizeNormal(v);
  }
}
