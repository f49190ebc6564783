/** Whatever the strict parser refuses is wrong in a way that earns the code it gives. */
module MistakesExact {
  import opened Utf16
  import opened Parsing
  import opened Numbers
  import opened Strings
  import opened Json
  import opened StrictJson
  import opened Spellings
  import opened Language
  import opened LanguageExact
  import opened Mistakes

  // ---------------------------------------------------------------------
  // Strings
  // ---------------------------------------------------------------------

  lemma {:induction false} EscapeMistake(s: Text) returns (m: TextMistake)
    requires s != [] && s[0] == BACKSLASH && ReadEscape(s[1..]).Failed?
    ensures LegalTextMistake(m) && TextOf(m) == s
    ensures ReadEscape(s[1..]) == Failed(TextCode(m), |TextRest(m)|)
  {
    var t := s[1..];
    if t == [] {
      m := CutEscape;
      assert s == [0x5C];
    } else if t[0] != LETTER_U {
      m := BadEscape(s);
    } else {
      HexFirstReads(t[1..]);
      assert s == [0x5C, 0x75] + t[1..];
      if !HexFirst(t[1..]) {
        m := BadHex(t[1..]);
      } else if IsLowUnit(HexValue(t[1..][..4])) {
        m := LowCode(t[1..]);
      } else {
        m := HighCodeMistake(s);
      }
    }
  }

  lemma {:induction false} HighCodeMistake(s: Text) returns (m: TextMistake)
    requires |s| >= 6 && s[0] == BACKSLASH && s[1] == LETTER_U && StartsWithHex4(s[2..]) && IsHigh(Hex4(s[2..]))
    requires ReadEscape(s[1..]).Failed?
    ensures LegalTextMistake(m) && TextOf(m) == s
    ensures ReadEscape(s[1..]) == Failed(TextCode(m), |TextRest(m)|)
  {
    var hex, after := s[2..6], s[6..];
    CodeApart(s);
    HighCodeApart(hex, after);
    if !([0x5C, 0x75] <= after) {
      m := HighCodeAlone(hex, after);
    } else {
      assert after == [0x5C, 0x75] + after[2..];
      HexFirstReads(after[2..]);
      m := if HexFirst(after[2..]) then SecondNotLow(hex, after[2..]) else BadSecondHex(hex, after[2..]);
      Regroup([0x5C, 0x75] + hex, [0x5C, 0x75], after[2..]);
    }
  }

  lemma {:induction false} CodeApart(s: Text)
    requires |s| >= 6 && s[0] == BACKSLASH && s[1] == LETTER_U && StartsWithHex4(s[2..])
    ensures IsHex4(s[2..6]) && HexValue(s[2..6]) == Hex4(s[2..])
    ensures s == [0x5C, 0x75] + s[2..6] + s[6..]
  {
    assert s[2..] == s[2..6] + s[6..];
    Hex4Front(s[2..6], s[6..]);
  }

  lemma {:induction false} CharacterMistake(s: Text) returns (m: TextMistake)
    requires s != [] && s[0] != QUOTE && ReadCharacter(s).Failed?
    ensures LegalTextMistake(m) && TextOf(m) == s
    ensures ReadCharacter(s) == Failed(TextCode(m), |TextRest(m)|)
  {
    if s[0] == BACKSLASH {
      m := EscapeMistake(s);
    } else {
      m := if s[0] < 0x20 then Control(s) else if IsHigh(s[0]) then LoneHigh(s) else LoneLow(s);
    }
  }

  lemma {:induction false} BodyMistake(s: Text, output: Text) returns (ps: seq<Piece>, m: TextMistake)
    requires ReadBody(s, output).Failed?
    ensures LegalPieces(ps) && LegalTextMistake(m) && s == PiecesText(ps) + TextOf(m)
    ensures ReadBody(s, output) == Failed(TextCode(m), |TextRest(m)|)
    decreases |s|
  {
    ps := [];
    if s == [] {
      m := Unclosed;
    } else if ReadCharacter(s).Failed? {
      m := CharacterMistake(s);
      EmptyInFront(s);
    } else {
      var p := ReadPiece(s);
      var c := ReadCharacter(s);
      var more, last := BodyMistake(c.rest, output + c.value);
      ps, m := [p] + more, last;
      assert ps[1..] == more;
      Regroup(PieceText(p), PiecesText(more), TextOf(m));
    }
  }

  lemma {:induction false} StringMistake(t: Text) returns (ps: seq<Piece>, m: TextMistake)
    requires t != [] && t[0] == QUOTE && ReadString(t).Failed?
    ensures LegalPieces(ps) && LegalTextMistake(m) && t == [0x22] + (PiecesText(ps) + TextOf(m))
    ensures ReadString(t) == Failed(TextCode(m), |TextRest(m)|)
  {
    ps, m := BodyMistake(t[1..], []);
    HeadApart(t);
  }

  // ---------------------------------------------------------------------
  // Numbers
  // ---------------------------------------------------------------------

  lemma {:induction false} ExponentMistake(s: Text) returns (letter: CodeUnit, sign: Text, rest: Text)
    requires ReadExponent(s).Failed?
    ensures (letter == 0x65 || letter == 0x45) && !DigitFirst(rest) && s == [letter] + (sign + rest)
    ensures sign == [0x2B] || sign == [0x2D] || (sign == [] && (rest != [] ==> rest[0] != 0x2B && rest[0] != 0x2D))
    ensures ReadExponent(s) == Failed(InvalidNumber, |rest|)
  {
    var signed := StartsWith(s[1..], 0x2D) || StartsWith(s[1..], 0x2B);
    letter, sign, rest := s[0], if signed then [s[1]] else [], s[if signed then 2 else 1..];
    LetterAndSignApart(s, signed);
    ExponentIsSigned(s);
  }

  lemma {:induction false} UnsignedMistake(s: Text, negative: bool, round: Rounding) returns (m: NumberMistake)
    requires StartsWithDigit(s) && ReadUnsigned(s, negative).Failed?
    ensures LegalNumberMistake(m, round) && !m.MinusAlone? && !m.TooLarge? && m.negative == negative
    ensures UnsignedPart(m) == s && ReadUnsigned(s, negative) == Failed(NumberCode(m), |NumberRest(m)|)
  {
    var whole := ReadWhole(s);
    if whole.Failed? {
      m := ZeroThenDigit(negative, s[1..]);
      HeadApart(s);
    } else {
      ReadWholeSplit(s);
      var fraction := ReadFraction(whole.rest);
      if fraction.Failed? {
        m := NoFraction(negative, whole.value, whole.rest[1..]);
        HeadApart(whole.rest);
      } else {
        ReadFractionSplit(whole.rest);
        var letter, sign, rest := ExponentMistake(fraction.rest);
        m := NoExponent(negative, whole.value, fraction.value, letter, sign, rest);
      }
    }
  }

  lemma {:induction false} NumberMistakeMade(s: Text, round: Rounding) returns (m: NumberMistake)
    requires s != [] && (s[0] == 0x2D || IsDigit(s[0])) && ReadNumber(s, round).Failed?
    ensures LegalNumberMistake(m, round) && NumberText(m) == s
    ensures ReadNumber(s, round) == Failed(NumberCode(m), |NumberRest(m)|)
  {
    TokenIsSigned(s);
    SignApart(s);
    if ReadToken(s).Read? {
      var figure := ReadFigure(s);
      m := TooLarge(figure, ReadToken(s).rest);
    } else if s[0] != 0x2D {
      m := UnsignedMistake(s, false, round);
    } else if StartsWithDigit(s[1..]) {
      m := UnsignedMistake(s[1..], true, round);
    } else {
      m := MinusAlone(s[1..]);
    }
  }

  // ---------------------------------------------------------------------
  // Values
  // ---------------------------------------------------------------------

  /** The mistake in a value that is refused, and what it stands in. */
  lemma {:induction false} ValueMistake(s: Text, round: Rounding) returns (frames: seq<Frame>, m: Mistake)
    requires ReadValue(s, round).Failed?
    ensures LegalFrames(frames, round) && LegalMistake(m, round) && MayStand(frames, m)
    ensures InsideAll(frames, MistakeText(m)) == s && ReadValue(s, round) == Failed(MistakeCode(m), |MistakeRest(m)|)
    ensures frames == [] && m.NoValue? ==> m.rest == SkipWhitespace(s)
    decreases |s|, 3
  {
    var t := SkipWhitespace(s);
    var before := GapSkipped(s);
    frames := [];
    if t == [] {
      m := NoValue(before, t);
    } else if t[0] == QUOTE {
      var ps, text := StringMistake(t);
      m := InText(AsValue(before), ps, text);
    } else if t[0] == OPEN_OBJECT {
      frames, m := RecordMistake(before, t, round);
    } else if t[0] == OPEN_ARRAY {
      frames, m := ListMistake(before, t, round);
    } else if t[0] in {TRUE[0], FALSE[0], NULL[0]} {
      m := BadWord(before, t);
      WordsRead(Bool(true));
      WordsRead(Bool(false));
      WordsRead(Null);
    } else if t[0] == 0x2D || IsDigit(t[0]) {
      var number := NumberMistakeMade(t, round);
      m := InNumber(before, number);
    } else {
      m := NoValue(before, t);
    }
  }

  /** The items up to the element that is refused, or that no comma follows. */
  lemma {:induction false} ElementsUntil(s: Text, result: seq<JSON>, round: Rounding)
    returns (items: seq<Item>, tail: Text)
    requires ReadElements(SkipWhitespace(s), result, round).Failed?
    ensures LegalItems(items, round) && s == ListSoFar(items, tail)
    ensures var all := result + ItemMeanings(items, round);
            && ReadElements(SkipWhitespace(tail), all, round) == ReadElements(SkipWhitespace(s), result, round)
            && (ReadValue(tail, round).Read? ==> !StartsWith(SkipWhitespace(ReadValue(tail, round).rest), COMMA))
    ensures |tail| <= |s| && (items == [] ==> tail == s)
    decreases |s|
  {
    SkipTwice(s);
    var p := ReadValue(s, round);
    assert p == ReadValue(SkipWhitespace(s), round);
    items, tail := [], s;
    assert result + ItemMeanings([], round) == result;
    if p.Read? && StartsWith(SkipWhitespace(p.rest), COMMA) {
      ElementThen(SkipWhitespace(s), result, round, p.value, p.rest);
      var before, sp := ReadSpells(s, p.value, p.rest, round);
      var after := GapSkipped(p.rest);
      var next := SkipWhitespace(p.rest);
      HeadApart(next);
      var more, end := ElementsUntil(next[1..], result + [p.value], round);
      OneMoreItem(Item(before, sp, after), more, end, round);
      Regrouped(result, p.value, ItemMeanings(more, round));
      items, tail := [Item(before, sp, after)] + more, end;
    }
  }

  lemma {:induction false} OneMoreItem(item: Item, more: seq<Item>, tail: Text, round: Rounding)
    requires LegalItem(item, round) && LegalItems(more, round)
    ensures LegalItems([item] + more, round)
    ensures ItemMeanings([item] + more, round) == [ItemMeaning(item, round)] + ItemMeanings(more, round)
    ensures ListSoFar([item] + more, tail) ==
            item.before + Spelled(item.value, item.after + ([0x2C] + ListSoFar(more, tail)))
  {
    assert ([item] + more)[1..] == more;
  }

  lemma {:induction false} ListMistake(before: Text, t: Text, round: Rounding) returns (frames: seq<Frame>, m: Mistake)
    requires IsGap(before) && t != [] && t[0] == OPEN_ARRAY && ReadArray(t, round).Failed?
    ensures LegalFrames(frames, round) && LegalMistake(m, round) && MayStand(frames, m)
    ensures InsideAll(frames, MistakeText(m)) == before + t
    ensures ReadArray(t, round) == Failed(MistakeCode(m), |MistakeRest(m)|)
    ensures frames == [] ==> !m.NoValue?
    decreases |t|, 2
  {
    var items, tail := ElementsUntil(t[1..], [], round);
    SkipTwice(tail);
    HeadApart(t);
    var p := ReadValue(tail, round);
    assert p == ReadValue(SkipWhitespace(tail), round);
    if p.Failed? {
      frames, m := MistakeInList(before, items, tail, round);
      assert t == [0x5B] + ListSoFar(items, tail);
    } else {
      ElementThen(SkipWhitespace(tail), [] + ItemMeanings(items, round), round, p.value, p.rest);
      m := NoCommaThere(before, items, tail, p.value, p.rest, round);
      frames := [];
      assert t == [0x5B] + ListSoFar(items, tail);
    }
  }

  lemma {:induction false} MistakeInList(before: Text, items: seq<Item>, tail: Text, round: Rounding)
    returns (frames: seq<Frame>, m: Mistake)
    requires IsGap(before) && LegalItems(items, round) && ReadValue(tail, round).Failed?
    requires items == [] ==> !StartsWith(SkipWhitespace(tail), CLOSE_ARRAY)
    ensures LegalFrames(frames, round) && LegalMistake(m, round) && MayStand(frames, m) && frames != []
    ensures InsideAll(frames, MistakeText(m)) == before + ([0x5B] + ListSoFar(items, tail))
    ensures ReadValue(tail, round) == Failed(MistakeCode(m), |MistakeRest(m)|)
    decreases |tail|, 4
  {
    var frame := InList(before, items);
    var inner, mistake := ValueMistake(tail, round);
    frames, m := [frame] + inner, mistake;
    FramesInFront(frame, inner, m);
    LegalInFront(frame, inner, round);
    assert inner == [] && items == [] && m.NoValue? ==> !BeginsWith(m.rest, 0x5D);
  }

  lemma {:induction false} NoCommaThere(before: Text, items: seq<Item>, tail: Text, v: JSON, rest: Text,
                                        round: Rounding) returns (m: Mistake)
    requires IsGap(before) && LegalItems(items, round) && ReadValue(tail, round) == Read(v, rest)
    requires !StartsWith(SkipWhitespace(rest), COMMA) && !StartsWith(SkipWhitespace(rest), CLOSE_ARRAY)
    ensures m.NoCommaInList? && LegalMistake(m, round) && MistakeCode(m) == ExpectedComma
    ensures MistakeText(m) == before + ([0x5B] + ListSoFar(items, tail)) && MistakeRest(m) == SkipWhitespace(rest)
  {
    var inner, sp := ReadSpells(tail, v, rest, round);
    var after := GapSkipped(rest);
    m := NoCommaInList(before, items, Item(inner, sp, after), SkipWhitespace(rest));
  }

  /** One more frame outside. */
  lemma {:induction false} FramesInFront(frame: Frame, inner: seq<Frame>, m: Mistake)
    ensures InsideAll([frame] + inner, MistakeText(m)) == Inside(frame, InsideAll(inner, MistakeText(m)))
    ensures inner != [] ==> MayStand([frame] + inner, m) == MayStand(inner, m)
    ensures inner == [] ==>
              MayStand([frame] + inner, m) ==
              (frame.InList? && frame.items == [] && m.NoValue? ==> !BeginsWith(m.rest, 0x5D))
  {
    var frames := [frame] + inner;
    assert frames[1..] == inner;
    assert inner != [] ==> frames[|frames| - 1] == inner[|inner| - 1];
  }

  lemma {:induction false} LegalInFront(frame: Frame, inner: seq<Frame>, round: Rounding)
    requires LegalFrame(frame, round) && LegalFrames(inner, round)
    ensures LegalFrames([frame] + inner, round)
  {
  }

  /** The fields up to the member that is refused, or that no comma follows. */
  lemma {:induction false} MembersUntil(s: Text, result: seq<Member>, round: Rounding)
    returns (fields: seq<Field>, tail: Text)
    requires ReadMembers(SkipWhitespace(s), result, round).Failed?
    ensures LegalFields(fields, round) && NamesNew(result, fields) && s == RecordSoFar(fields, tail)
    ensures var all := result + FieldMeanings(fields, round);
            && ReadMembers(SkipWhitespace(tail), all, round) == ReadMembers(SkipWhitespace(s), result, round)
            && var p := ReadMember(SkipWhitespace(tail), all, round);
               (p.Read? ==> !StartsWith(SkipWhitespace(p.rest), COMMA))
    ensures |tail| <= |s| && (fields == [] ==> tail == s)
    decreases |s|
  {
    var t := SkipWhitespace(s);
    var p := ReadMember(t, result, round);
    fields, tail := [], s;
    assert result + FieldMeanings([], round) == result;
    if p.Read? && StartsWith(SkipWhitespace(p.rest), COMMA) {
      MemberThen(t, result, round, p.value, p.rest);
      var f := DelimitedField(s, result, p.value, p.rest, round);
      var next := SkipWhitespace(p.rest);
      HeadApart(next);
      var more, end := MembersUntil(next[1..], result + [p.value], round);
      OneMoreField(f, more, result, end, round);
      Regrouped(result, p.value, FieldMeanings(more, round));
      fields, tail := [f] + more, end;
    }
  }

  lemma {:induction false} OneMoreField(f: Field, more: seq<Field>, result: seq<Member>, tail: Text, round: Rounding)
    requires LegalField(f, round) && !HasKey(result, PiecesUnits(f.name))
    requires LegalFields(more, round) && NamesNew(result + [FieldMeaning(f, round)], more)
    ensures LegalFields([f] + more, round) && NamesNew(result, [f] + more)
    ensures FieldMeanings([f] + more, round) == [FieldMeaning(f, round)] + FieldMeanings(more, round)
    ensures RecordSoFar([f] + more, tail) ==
            f.before + SpelledField(f, f.after + ([0x2C] + RecordSoFar(more, tail)))
  {
    MoreFields(f, more, result, tail, round);
    assert ([f] + more)[1..] == more;
  }

  lemma {:induction false} SkippedIsBare(s: Text)
    ensures Bare(SkipWhitespace(s))
  {
    var gap := GapSkipped(s);
  }

  lemma {:induction false} FieldWithoutComma(before: Text, fields: seq<Field>, tail: Text, round: Rounding)
    returns (m: Mistake)
    requires IsGap(before) && LegalRecord(fields, round)
    requires var p := ReadMember(SkipWhitespace(tail), FieldMeanings(fields, round), round);
             && p.Read? && !StartsWith(SkipWhitespace(p.rest), COMMA)
             && !StartsWith(SkipWhitespace(p.rest), CLOSE_OBJECT)
    ensures LegalMistake(m, round) && m.NoCommaInRecord?
    ensures MistakeText(m) == before + ([0x7B] + RecordSoFar(fields, tail))
    ensures var p := ReadMember(SkipWhitespace(tail), FieldMeanings(fields, round), round);
            MistakeRest(m) == SkipWhitespace(p.rest)
  {
    var all := FieldMeanings(fields, round);
    var p := ReadMember(SkipWhitespace(tail), all, round);
    var f := DelimitedField(tail, all, p.value, p.rest, round);
    NameTakenIsKey(fields, PiecesUnits(f.name), round);
    SkippedIsBare(p.rest);
    m := NoCommaInRecord(before, fields, f, SkipWhitespace(p.rest));
  }

  lemma {:induction false} RecordMistake(before: Text, t: Text, round: Rounding)
    returns (frames: seq<Frame>, m: Mistake)
    requires IsGap(before) && t != [] && t[0] == OPEN_OBJECT && ReadObject(t, round).Failed?
    ensures LegalFrames(frames, round) && LegalMistake(m, round) && MayStand(frames, m)
    ensures InsideAll(frames, MistakeText(m)) == before + t
    ensures ReadObject(t, round) == Failed(MistakeCode(m), |MistakeRest(m)|)
    ensures frames == [] ==> !m.NoValue?
    decreases |t|, 2
  {
    var fields, tail := MembersUntil(t[1..], [], round);
    var all := FieldMeanings(fields, round);
    assert [] + all == all;
    HeadApart(t);
    var p := ReadMember(SkipWhitespace(tail), all, round);
    if p.Failed? {
      frames, m := MemberMistake(before, fields, tail, round);
    } else {
      MemberThen(SkipWhitespace(tail), all, round, p.value, p.rest);
      frames := [];
      m := FieldWithoutComma(before, fields, tail, round);
    }
  }

  /** The mistake in a member that is refused, behind the fields before it. */
  lemma {:induction false} MemberMistake(before: Text, fields: seq<Field>, tail: Text, round: Rounding)
    returns (frames: seq<Frame>, m: Mistake)
    requires IsGap(before) && LegalRecord(fields, round)
    requires ReadMember(SkipWhitespace(tail), FieldMeanings(fields, round), round).Failed?
    requires fields == [] ==> !StartsWith(SkipWhitespace(tail), CLOSE_OBJECT)
    ensures LegalFrames(frames, round) && LegalMistake(m, round) && MayStand(frames, m)
    ensures InsideAll(frames, MistakeText(m)) == before + ([0x7B] + RecordSoFar(fields, tail))
    ensures ReadMember(SkipWhitespace(tail), FieldMeanings(fields, round), round) ==
            Failed(MistakeCode(m), |MistakeRest(m)|)
    ensures frames == [] ==> !m.NoValue?
    decreases |tail|, 4
  {
    var all, u := FieldMeanings(fields, round), SkipWhitespace(tail);
    var nameBefore := GapSkipped(tail);
    frames := [];
    if !StartsWith(u, QUOTE) {
      m := NoName(before, fields, nameBefore, u);
    } else if ReadString(u).Failed? {
      var ps, text := StringMistake(u);
      m := InText(AsName(before, fields, nameBefore), ps, text);
    } else {
      var name := ReadString(u);
      var quoted := ReadQuoted(u, name.value, name.rest);
      NameTakenIsKey(fields, name.value, round);
      if HasKey(all, name.value) {
        m := NameAgain(before, fields, nameBefore, quoted.pieces, name.rest);
      } else {
        NameThen(u, all, round, name.value, name.rest);
        frames, m := ColonMistake(before, fields, nameBefore, quoted.pieces, name.rest, round);
      }
    }
  }

  /** The mistake behind a name that is new. */
  lemma {:induction false} ColonMistake(before: Text, fields: seq<Field>, nameBefore: Text, name: seq<Piece>, s: Text,
                                        round: Rounding)
    returns (frames: seq<Frame>, m: Mistake)
    requires IsGap(before) && LegalRecord(fields, round) && IsGap(nameBefore)
    requires LegalPieces(name) && !NameTaken(fields, PiecesUnits(name))
    requires var colon := SkipWhitespace(s);
             StartsWith(colon, COLON) ==> ReadValue(SkipWhitespace(colon[1..]), round).Failed?
    ensures LegalFrames(frames, round) && LegalMistake(m, round) && MayStand(frames, m)
    ensures InsideAll(frames, MistakeText(m)) == before + ([0x7B] + RecordSoFar(fields, nameBefore + Named(name, s)))
    ensures var colon := SkipWhitespace(s);
            Failed(MistakeCode(m), |MistakeRest(m)|) ==
            if StartsWith(colon, COLON) then ReadValue(SkipWhitespace(colon[1..]), round)
            else Failed(ExpectedColon, |colon|)
    ensures frames == [] ==> !m.NoValue?
    decreases |s|, 4
  {
    var colon := SkipWhitespace(s);
    var colonBefore := GapSkipped(s);
    if StartsWith(colon, COLON) {
      HeadApart(colon);
      SkipTwice(colon[1..]);
      assert ReadValue(SkipWhitespace(colon[1..]), round) == ReadValue(colon[1..], round);
      var frame := InRecord(before, fields, nameBefore, name, colonBefore);
      var inner, mistake := ValueMistake(colon[1..], round);
      FramesInFront(frame, inner, mistake);
      LegalInFront(frame, inner, round);
      frames, m := [frame] + inner, mistake;
    } else {
      frames, m := [], NoColon(before, fields, nameBefore, name, colonBefore, colon);
    }
  }

  // ---------------------------------------------------------------------
  // Main result
  // ---------------------------------------------------------------------

  /** The parser gives a code at a place exactly for the texts that are wrong in a way that earns it there. */
  lemma {:induction false} ParserFailsExactly(text: Text, code: ErrorCode, left: nat, round: Rounding)
    ensures ParseStrict(text, round) == Failed(code, left) <==> Earns(text, code, left, round)
  {
    if Earns(text, code, left, round) {
      var w :| LegalWrong(w, round) && WrongText(w) == text && WrongCode(w) == code && |WrongRest(w)| == left;
      WrongIsReported(w, round);
    }
    if ParseStrict(text, round) == Failed(code, left) {
      var w := WrongOf(text, round);
    }
  }

  lemma {:induction false} WrongOf(text: Text, round: Rounding) returns (w: Wrong)
    requires ParseStrict(text, round).Failed?
    ensures LegalWrong(w, round) && WrongText(w) == text
    ensures ParseStrict(text, round) == Failed(WrongCode(w), |WrongRest(w)|)
  {
    var p := ReadValue(text, round);
    if p.Failed? {
      var frames, m := ValueMistake(text, round);
      w := Within(frames, m);
    } else {
      var before, sp := ReadSpells(text, p.value, p.rest, round);
      var after := GapSkipped(p.rest);
      w := Behind(before, sp, after, SkipWhitespace(p.rest));
    }
  }
}
