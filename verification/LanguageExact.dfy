/** The strict parser accepts nothing but the legal spellings. */
module LanguageExact {
  import opened Utf16
  import opened Parsing
  import opened Numbers
  import opened Strings
  import opened Json
  import opened StrictJson
  import opened Spellings
  import opened Language

  // ---------------------------------------------------------------------
  // The parser accepts nothing else
  // ---------------------------------------------------------------------

  lemma {:induction false} ReadSpells(s: Text, v: JSON, rest: Text, round: Rounding)
    returns (before: Text, sp: Spelling)
    requires ReadValue(s, round) == Read(v, rest)
    ensures IsGap(before) && Legal(sp, round) && Meaning(sp, round) == v
    ensures s == before + Spelled(sp, rest) && MayEnd(sp, rest)
    decreases |s|, 3
  {
    var t := SkipWhitespace(s);
    before := GapSkipped(s);
    if t[0] == QUOTE {
      sp := ReadQuoted(t, v.text, rest);
    } else if t[0] == OPEN_OBJECT {
      sp := ReadRecorded(t, v, rest, round);
    } else if t[0] == OPEN_ARRAY {
      sp := ReadListed(t, v, rest, round);
    } else if t[0] == TRUE[0] {
      sp := ReadWord(t, TRUE, Bool(true), rest, round);
    } else if t[0] == FALSE[0] {
      sp := ReadWord(t, FALSE, Bool(false), rest, round);
    } else if t[0] == NULL[0] {
      sp := ReadWord(t, NULL, Null, rest, round);
    } else {
      sp := ReadFigured(t, v.n, rest, round);
    }
  }

  lemma {:induction false} ReadWord(t: Text, word: Text, v: JSON, rest: Text, round: Rounding) returns (sp: Spelling)
    requires word != [] && ReadLiteral(t, word, v) == Read(v, rest) && (v.Bool? || v.Null?)
    requires word == if v == Bool(true) then TRUE else if v == Bool(false) then FALSE else NULL
    ensures Legal(sp, round) && Meaning(sp, round) == v && t == Spelled(sp, rest) && MayEnd(sp, rest)
  {
    sp := Word(v);
    WordsRead(v);
    assert t == word + t[|word|..];
  }

  lemma {:induction false} ReadFigured(t: Text, n: Num, rest: Text, round: Rounding) returns (sp: Spelling)
    requires ReadNumber(t, round) == Read(n, rest)
    ensures Legal(sp, round) && Meaning(sp, round) == Number(n) && t == Spelled(sp, rest) && MayEnd(sp, rest)
  {
    var figure := ReadFigure(t);
    sp := Figured(figure);
  }

  lemma {:induction false} ReadQuoted(t: Text, units: Text, rest: Text) returns (sp: Spelling)
    requires ReadString(t) == Read(units, rest)
    ensures sp.Quoted? && LegalPieces(sp.pieces) && PiecesUnits(sp.pieces) == units && t == Spelled(sp, rest)
  {
    var pieces := ReadPieces(t[1..], []);
    sp := Quoted(pieces);
    EmptyInFront(PiecesUnits(pieces));
    HeadApart(t);
  }

  lemma {:induction false} ReadListed(t: Text, v: JSON, rest: Text, round: Rounding) returns (sp: Spelling)
    requires t != [] && t[0] == OPEN_ARRAY && ReadArray(t, round) == Read(v, rest)
    ensures Legal(sp, round) && Meaning(sp, round) == v && t == Spelled(sp, rest)
    decreases |t|, 2
  {
    var first := SkipWhitespace(t[1..]);
    if StartsWith(first, CLOSE_ARRAY) {
      var gap := GapSkipped(t[1..]);
      assert first == [CLOSE_ARRAY] + rest;
      sp := Listed(gap, []);
      ListedSpells(t, gap, [], rest, round);
    } else {
      var items := ElementsSpell(t[1..], [], v, rest, round);
      sp := Listed([], items);
      ListedSpells(t, [], items, rest, round);
      assert [] + ItemMeanings(items, round) == ItemMeanings(items, round);
    }
  }

  lemma {:induction false} ListedSpells(t: Text, gap: Text, items: seq<Item>, rest: Text, round: Rounding)
    requires t != [] && t[0] == OPEN_ARRAY && IsGap(gap) && LegalItems(items, round)
    requires t[1..] == if items == [] then gap + ([CLOSE_ARRAY] + rest) else SpelledItems(items, rest)
    ensures Legal(Listed(gap, items), round) && t == Spelled(Listed(gap, items), rest)
    ensures Meaning(Listed(gap, items), round) == Arr(ItemMeanings(items, round))
  {
    assert t == [t[0]] + t[1..];
  }

  lemma {:induction false} RecordedSpells(t: Text, gap: Text, fields: seq<Field>, rest: Text, round: Rounding)
    requires t != [] && t[0] == OPEN_OBJECT && IsGap(gap) && LegalFields(fields, round) && NamesDiffer(fields)
    requires t[1..] == if fields == [] then gap + ([CLOSE_OBJECT] + rest) else SpelledFields(fields, rest)
    ensures Legal(Recorded(gap, fields), round) && t == Spelled(Recorded(gap, fields), rest)
    ensures Meaning(Recorded(gap, fields), round) == Obj(FieldMeanings(fields, round))
  {
    assert t == [t[0]] + t[1..];
  }

  lemma {:induction false} ReadRecorded(t: Text, v: JSON, rest: Text, round: Rounding) returns (sp: Spelling)
    requires t != [] && t[0] == OPEN_OBJECT && ReadObject(t, round) == Read(v, rest)
    ensures Legal(sp, round) && Meaning(sp, round) == v && t == Spelled(sp, rest)
    decreases |t|, 2
  {
    var first := SkipWhitespace(t[1..]);
    if StartsWith(first, CLOSE_OBJECT) {
      var gap := GapSkipped(t[1..]);
      assert first == [CLOSE_OBJECT] + rest;
      sp := Recorded(gap, []);
      RecordedSpells(t, gap, [], rest, round);
    } else {
      var fields := MembersSpell(t[1..], [], v, rest, round);
      sp := Recorded([], fields);
      RecordedSpells(t, [], fields, rest, round);
      assert [] + FieldMeanings(fields, round) == FieldMeanings(fields, round);
    }
  }

  lemma {:induction false} HeadApart(t: Text)
    ensures t != [] ==> t == [t[0]] + t[1..]
  {
  }

  /** What was read behind the first element. */
  lemma {:induction false} AfterElement(t: Text, result: seq<JSON>, v: JSON, rest: Text, round: Rounding)
    requires ReadElements(t, result, round) == Read(v, rest)
    ensures ReadValue(t, round).Read?
    ensures var p := ReadValue(t, round);
            var next, all := SkipWhitespace(p.rest), result + [p.value];
            && next != [] && next == [next[0]] + next[1..]
            && if next[0] == CLOSE_ARRAY then v == Arr(all) && rest == next[1..]
               else next[0] == COMMA && ReadElements(SkipWhitespace(next[1..]), all, round) == Read(v, rest)
  {
    var p := ReadValue(t, round);
    ElementThen(t, result, round, p.value, p.rest);
  }

  lemma {:induction false} ElementsSpell(s: Text, result: seq<JSON>, v: JSON, rest: Text, round: Rounding)
    returns (items: seq<Item>)
    requires ReadElements(SkipWhitespace(s), result, round) == Read(v, rest)
    ensures items != [] && LegalItems(items, round) && v == Arr(result + ItemMeanings(items, round))
    ensures s == SpelledItems(items, rest)
    decreases |s|, 4
  {
    SkipTwice(s);
    AfterElement(SkipWhitespace(s), result, v, rest, round);
    var p := ReadValue(SkipWhitespace(s), round);
    assert p == ReadValue(s, round);
    var before, sp := ReadSpells(s, p.value, p.rest, round);
    var next := SkipWhitespace(p.rest);
    var gap := GapSkipped(p.rest);
    var more: seq<Item> := [];
    if next[0] == COMMA {
      more := ElementsSpell(next[1..], result + [p.value], v, rest, round);
    } else {
      assert ItemMeanings([], round) == [];
    }
    assert next == BehindItem(more, rest);
    MoreItems(Item(before, sp, gap), more, rest, round);
    items := [Item(before, sp, gap)] + more;
    Regrouped(result, p.value, ItemMeanings(more, round));
  }

  /** What stands behind an item that `more` items follow. */
  function BehindItem(more: seq<Item>, rest: Text): Text {
    if more == [] then [CLOSE_ARRAY] + rest else [COMMA] + SpelledItems(more, rest)
  }

  /** An item in front of the items that follow it. */
  lemma {:induction false} MoreItems(item: Item, more: seq<Item>, rest: Text, round: Rounding)
    requires LegalItem(item, round) && LegalItems(more, round)
    ensures LegalItems([item] + more, round)
    ensures ItemMeanings([item] + more, round) == [ItemMeaning(item, round)] + ItemMeanings(more, round)
    ensures SpelledItems([item] + more, rest) ==
            item.before + Spelled(item.value, item.after + BehindItem(more, rest))
  {
    assert ([item] + more)[1..] == more;
  }

  /** A member with the white space behind it. */
  lemma {:induction false} DelimitedField(s: Text, result: seq<Member>, m: Member, rest: Text, round: Rounding)
    returns (f: Field)
    requires ReadMember(SkipWhitespace(s), result, round) == Read(m, rest)
    ensures LegalField(f, round) && FieldMeaning(f, round) == m && !HasKey(result, m.key)
    ensures s == f.before + SpelledField(f, f.after + SkipWhitespace(rest))
    ensures MayEnd(f.value, f.after + SkipWhitespace(rest))
    decreases |s|, 4
  {
    var t := SkipWhitespace(s);
    var before := GapSkipped(s);
    var key := ReadString(t);
    var quoted := ReadQuoted(t, key.value, key.rest);
    var colonBefore, colonAfter, sp := ColonAndValue(key.rest, m.value, rest, round);
    var after := GapSkipped(rest);
    f := Field(before, quoted.pieces, colonBefore, colonAfter, sp, after);
  }

  /** Behind a name: the colon between its gaps, and the value. */
  lemma {:induction false} ColonAndValue(s: Text, v: JSON, rest: Text, round: Rounding)
    returns (colonBefore: Text, colonAfter: Text, sp: Spelling)
    requires StartsWith(SkipWhitespace(s), COLON)
    requires ReadValue(SkipWhitespace(SkipWhitespace(s)[1..]), round) == Read(v, rest)
    ensures IsGap(colonBefore) && IsGap(colonAfter) && Legal(sp, round) && Meaning(sp, round) == v
    ensures MayEnd(sp, rest)
    ensures s == colonBefore + ([COLON] + (colonAfter + Spelled(sp, rest)))
    decreases |s|, 4
  {
    var colon := SkipWhitespace(s);
    var valued := SkipWhitespace(colon[1..]);
    colonBefore := GapSkipped(s);
    HeadApart(colon);
    colonAfter := GapSkipped(colon[1..]);
    var inner, spelling := ReadSpells(valued, v, rest, round);
    sp := spelling;
    NothingBefore(valued, inner, sp, rest, round);
  }

  lemma {:induction false} BeginsWithGap(gap: Text, rest: Text)
    ensures gap != [] ==> (gap + rest)[0] == gap[0]
  {
  }

  /** No white space is left where it has been skipped. */
  lemma {:induction false} NothingBefore(s: Text, gap: Text, sp: Spelling, rest: Text, round: Rounding)
    requires Visible(s) && IsGap(gap) && Legal(sp, round) && s == gap + Spelled(sp, rest)
    ensures gap == [] && s == Spelled(sp, rest)
  {
    SpelledStart(sp, rest, round);
    BeginsWithGap(gap, Spelled(sp, rest));
    assert [] + Spelled(sp, rest) == Spelled(sp, rest);
  }

  /** What stands behind a field that `more` fields follow. */
  function BehindField(more: seq<Field>, rest: Text): Text {
    if more == [] then [CLOSE_OBJECT] + rest else [COMMA] + SpelledFields(more, rest)
  }

  /** A field in front of the fields that follow it. */
  lemma {:induction false} MoreFields(f: Field, more: seq<Field>, result: seq<Member>, rest: Text, round: Rounding)
    requires LegalField(f, round) && !HasKey(result, PiecesUnits(f.name))
    requires LegalFields(more, round) && NamesNew(result + [FieldMeaning(f, round)], more)
    ensures LegalFields([f] + more, round) && NamesNew(result, [f] + more)
    ensures FieldMeanings([f] + more, round) == [FieldMeaning(f, round)] + FieldMeanings(more, round)
    ensures SpelledFields([f] + more, rest) == f.before + SpelledField(f, f.after + BehindField(more, rest))
  {
    var fields, m := [f] + more, FieldMeaning(f, round);
    var all := result + [m];
    assert fields[1..] == more;
    assert forall i :: 0 <= i < |result| ==> all[i] == result[i] && result[i].key != m.key;
    assert all[|result|] == m;
  }

  /** What was read behind the first member. */
  lemma {:induction false} AfterMember(t: Text, result: seq<Member>, round: Rounding)
    requires ReadMembers(t, result, round).Read?
    ensures ReadMember(t, result, round).Read?
    ensures var p := ReadMember(t, result, round);
            var next, all := SkipWhitespace(p.rest), result + [p.value];
            && next != [] && (next[0] == CLOSE_OBJECT || next[0] == COMMA) && next == [next[0]] + next[1..]
            && ReadMembers(t, result, round) ==
               if next[0] == CLOSE_OBJECT then Read(Obj(all), next[1..])
               else ReadMembers(SkipWhitespace(next[1..]), all, round)
  {
    var p := ReadMember(t, result, round);
    MemberThen(t, result, round, p.value, p.rest);
  }

  lemma {:induction false} MembersSpell(s: Text, result: seq<Member>, v: JSON, rest: Text, round: Rounding)
    returns (fields: seq<Field>)
    requires ReadMembers(SkipWhitespace(s), result, round) == Read(v, rest)
    ensures fields != [] && LegalFields(fields, round) && NamesNew(result, fields)
    ensures v == Obj(result + FieldMeanings(fields, round)) && s == SpelledFields(fields, rest)
    decreases |s|, 5
  {
    var t := SkipWhitespace(s);
    AfterMember(t, result, round);
    var p := ReadMember(t, result, round);
    var next := SkipWhitespace(p.rest);
    var f := DelimitedField(s, result, p.value, p.rest, round);
    var more: seq<Field> := [];
    if next[0] == COMMA {
      more := MembersSpell(next[1..], result + [p.value], v, rest, round);
    } else {
      assert FieldMeanings([], round) == [];
    }
    assert next == BehindField(more, rest);
    MoreFields(f, more, result, rest, round);
    fields := [f] + more;
    Regrouped(result, p.value, FieldMeanings(more, round));
  }

  // ---------------------------------------------------------------------
  // Main result
  // ---------------------------------------------------------------------

  /** The text is some legal spelling of the value between two gaps. */
  ghost predicate SpellsText(text: Text, v: JSON, round: Rounding) {
    exists before, sp, after :: SpelledAs(text, before, sp, after, round) && Meaning(sp, round) == v
  }

  ghost predicate SpelledAs(text: Text, before: Text, sp: Spelling, after: Text, round: Rounding) {
    IsGap(before) && IsGap(after) && Legal(sp, round) && text == before + Spelled(sp, after)
  }

  lemma {:induction false} GapOnly(gap: Text)
    requires IsGap(gap)
    ensures SkipWhitespace(gap) == [] && forall f :: Stops(f, gap)
  {
    SkipGap(gap, []);
    assert gap + [] == gap;
  }

  lemma {:induction false} SpelledIsParsed(before: Text, sp: Spelling, after: Text, round: Rounding)
    requires IsGap(before) && IsGap(after) && Legal(sp, round)
    ensures ParseStrict(before + Spelled(sp, after), round) == Read(Meaning(sp, round), [])
  {
    GapOnly(after);
    SpelledStart(sp, after, round);
    SkipFirst(before, Spelled(sp, after), round);
    SpellingReads(sp, after, round);
  }

  /** The strict parser accepts exactly the texts that spell a value legally, and returns that value. */
  lemma {:induction false} ParserAcceptsExactly(text: Text, v: JSON, round: Rounding)
    ensures ParseStrict(text, round) == Read(v, []) <==> SpellsText(text, v, round)
  {
    if ParseStrict(text, round) == Read(v, []) {
      var after := ReadValue(text, round).rest;
      var before, sp := ReadSpells(text, v, after, round);
      var gap := GapSkipped(after);
      assert gap + [] == gap;
      assert SpelledAs(text, before, sp, after, round);
    }
    if SpellsText(text, v, round) {
      var before, sp, after :| SpelledAs(text, before, sp, after, round) && Meaning(sp, round) == v;
      SpelledIsParsed(before, sp, after, round);
    }
  }
}
