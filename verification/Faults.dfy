/** Where the strict parser reports its faults. Whatever is wrong, the text in front of the position can be completed to
    something legal, construct by construct, so it could still have become JSON. Where a single unit settles
    the fault, no text that goes one unit further can. */
module Faults {
  import opened Utf16
  import opened Parsing
  import opened Numbers
  import opened Strings
  import opened Json
  import opened StrictJson
  import opened Spellings
  import opened Language
  import opened LanguageExact
  import opened Mistakes
  import opened MistakesExact

  // ---------------------------------------------------------------------
  // Fronts of texts
  // ---------------------------------------------------------------------

  /** All but the last `left` units. */
  function Front(s: Text, left: nat): (r: Text)
    requires left <= |s|
  {
    s[..|s| - left]
  }

  lemma {:induction false} PrefixBehind(a: Text, x: Text, y: Text)
    requires x <= y
    ensures a + x <= a + y
  {
  }

  lemma {:induction false} PrefixThrough(x: Text, y: Text, z: Text)
    requires x <= y <= z
    ensures x <= z
  {
    assert x == y[..|x|] == z[..|x|];
  }

  lemma {:induction false} InFrontOf(x: Text, y: Text)
    ensures x <= x + y
  {
  }

  lemma {:induction false} PrefixAndRest(x: Text, y: Text) returns (rest: Text)
    requires x <= y
    ensures y == x + rest
  {
    rest := y[|x|..];
  }

  // ---------------------------------------------------------------------
  // Spellings in front of more text
  // ---------------------------------------------------------------------

  lemma {:induction false} SpelledTail(sp: Spelling, a: Text, b: Text)
    ensures Spelled(sp, a + b) == Spelled(sp, a) + b
    decreases sp
  {
    match sp
    case Word(value) =>
    case Figured(f) =>
      Regroup(PowerText(f.power), a, b);
      Regroup(FractionUnits(f.fraction), PowerText(f.power) + a, b);
      Regroup(Units(f.whole), FractionUnits(f.fraction) + (PowerText(f.power) + a), b);
    case Quoted(pieces) =>
      Regroup([QUOTE], a, b);
      Regroup(PiecesText(pieces), [QUOTE] + a, b);
    case Listed(gap, items) =>
      if items == [] {
        Regroup([CLOSE_ARRAY], a, b);
        Regroup(gap, [CLOSE_ARRAY] + a, b);
      } else {
        SpelledItemsTail(items, a, b);
      }
    case Recorded(gap, fields) =>
      if fields == [] {
        Regroup([CLOSE_OBJECT], a, b);
        Regroup(gap, [CLOSE_OBJECT] + a, b);
      } else {
        SpelledFieldsTail(fields, a, b);
      }
  }

  lemma {:induction false} SpelledItemsTail(items: seq<Item>, a: Text, b: Text)
    requires items != []
    ensures SpelledItems(items, a + b) == SpelledItems(items, a) + b
    decreases items
  {
    var item, next := items[0], NextItem(items, a);
    if |items| == 1 {
      Regroup([CLOSE_ARRAY], a, b);
    } else {
      SpelledItemsTail(items[1..], a, b);
      Regroup([COMMA], SpelledItems(items[1..], a), b);
    }
    assert NextItem(items, a + b) == next + b;
    Regroup(item.after, next, b);
    SpelledTail(item.value, item.after + next, b);
    Regroup(item.before, Spelled(item.value, item.after + next), b);
  }

  lemma {:induction false} SpelledFieldsTail(fields: seq<Field>, a: Text, b: Text)
    requires fields != []
    ensures SpelledFields(fields, a + b) == SpelledFields(fields, a) + b
    decreases fields
  {
    var f, next := fields[0], NextField(fields, a);
    if |fields| == 1 {
      Regroup([CLOSE_OBJECT], a, b);
    } else {
      SpelledFieldsTail(fields[1..], a, b);
      Regroup([COMMA], SpelledFields(fields[1..], a), b);
    }
    assert NextField(fields, a + b) == next + b;
    Regroup(f.after, next, b);
    SpelledFieldTail(f, f.after + next, b);
    Regroup(f.before, SpelledField(f, f.after + next), b);
  }

  lemma {:induction false} SpelledFieldTail(f: Field, a: Text, b: Text)
    ensures SpelledField(f, a + b) == SpelledField(f, a) + b
    decreases f
  {
    var valued := Spelled(f.value, a);
    SpelledTail(f.value, a, b);
    Regroup(f.colonAfter, valued, b);
    Regroup([COLON], f.colonAfter + valued, b);
    Regroup(f.colonBefore, [COLON] + (f.colonAfter + valued), b);
    Regroup([QUOTE], f.colonBefore + ([COLON] + (f.colonAfter + valued)), b);
    Regroup(PiecesText(f.name), [QUOTE] + (f.colonBefore + ([COLON] + (f.colonAfter + valued))), b);
  }

  lemma {:induction false} ListTail(items: seq<Item>, a: Text, b: Text)
    ensures ListSoFar(items, a + b) == ListSoFar(items, a) + b
    decreases |items|
  {
    if items != [] {
      var more := ListSoFar(items[1..], a);
      ListTail(items[1..], a, b);
      Regroup([0x2C], more, b);
      Regroup(items[0].after, [0x2C] + more, b);
      SpelledTail(items[0].value, items[0].after + ([0x2C] + more), b);
      Regroup(items[0].before, Spelled(items[0].value, items[0].after + ([0x2C] + more)), b);
    }
  }

  lemma {:induction false} RecordTail(fields: seq<Field>, a: Text, b: Text)
    ensures RecordSoFar(fields, a + b) == RecordSoFar(fields, a) + b
    decreases |fields|
  {
    if fields != [] {
      var more := RecordSoFar(fields[1..], a);
      RecordTail(fields[1..], a, b);
      Regroup([0x2C], more, b);
      Regroup(fields[0].after, [0x2C] + more, b);
      SpelledFieldTail(fields[0], fields[0].after + ([0x2C] + more), b);
      Regroup(fields[0].before, SpelledField(fields[0], fields[0].after + ([0x2C] + more)), b);
    }
  }

  lemma {:induction false} NamedTail(name: seq<Piece>, a: Text, b: Text)
    ensures Named(name, a + b) == Named(name, a) + b
  {
    Regroup([0x22], a, b);
    Regroup(PiecesText(name), [0x22] + a, b);
    Regroup([0x22], PiecesText(name) + ([0x22] + a), b);
  }

  lemma {:induction false} OpenListTail(before: Text, items: seq<Item>, a: Text, b: Text)
    ensures before + ([0x5B] + ListSoFar(items, a + b)) == before + ([0x5B] + ListSoFar(items, a)) + b
  {
    ListTail(items, a, b);
    Regroup([0x5B], ListSoFar(items, a), b);
    Regroup(before, [0x5B] + ListSoFar(items, a), b);
  }

  lemma {:induction false} OpenRecordTail(before: Text, fields: seq<Field>, a: Text, b: Text)
    ensures before + ([0x7B] + RecordSoFar(fields, a + b)) == before + ([0x7B] + RecordSoFar(fields, a)) + b
  {
    RecordTail(fields, a, b);
    Regroup([0x7B], RecordSoFar(fields, a), b);
    Regroup(before, [0x7B] + RecordSoFar(fields, a), b);
  }

  lemma {:induction false} InsideTail(frame: Frame, a: Text, b: Text)
    ensures Inside(frame, a + b) == Inside(frame, a) + b
  {
    match frame
    case InList(before, items) => OpenListTail(before, items, a, b);
    case InRecord(before, fields, nameBefore, name, colonBefore) =>
      Regroup([0x3A], a, b);
      Regroup(colonBefore, [0x3A] + a, b);
      NamedTail(name, colonBefore + ([0x3A] + a), b);
      Regroup(nameBefore, Named(name, colonBefore + ([0x3A] + a)), b);
      OpenRecordTail(before, fields, nameBefore + Named(name, colonBefore + ([0x3A] + a)), b);
  }

  lemma {:induction false} InsideAllTail(frames: seq<Frame>, a: Text, b: Text)
    ensures InsideAll(frames, a + b) == InsideAll(frames, a) + b
    decreases |frames|
  {
    if frames != [] {
      InsideAllTail(frames[1..], a, b);
      InsideTail(frames[0], InsideAll(frames[1..], a), b);
    }
  }

  // ---------------------------------------------------------------------
  // Legality without overflow
  // ---------------------------------------------------------------------

  lemma {:induction false} LegalExactly(sp: Spelling, round: Rounding)
    requires Legal(sp, round)
    ensures Legal(sp, Exact)
    decreases sp
  {
    match sp
    case Listed(_, items) => LegalItemsExactly(items, round);
    case Recorded(_, fields) => LegalFieldsExactly(fields, round);
    case _ =>
  }

  lemma {:induction false} LegalItemsExactly(items: seq<Item>, round: Rounding)
    requires LegalItems(items, round)
    ensures LegalItems(items, Exact)
    decreases items
  {
    if items != [] {
      LegalExactly(items[0].value, round);
      LegalItemsExactly(items[1..], round);
    }
  }

  lemma {:induction false} LegalFieldsExactly(fields: seq<Field>, round: Rounding)
    requires LegalFields(fields, round)
    ensures LegalFields(fields, Exact)
    decreases fields
  {
    if fields != [] {
      LegalExactly(fields[0].value, round);
      LegalFieldsExactly(fields[1..], round);
    }
  }

  lemma {:induction false} LegalFramesExactly(frames: seq<Frame>, round: Rounding)
    requires LegalFrames(frames, round)
    ensures LegalFrames(frames, Exact)
  {
    forall i | 0 <= i < |frames| ensures LegalFrame(frames[i], Exact) {
      assert LegalFrame(frames[i], round);
      match frames[i]
      case InList(_, items) => LegalItemsExactly(items, round);
      case InRecord(_, fields, _, _, _) => LegalFieldsExactly(fields, round);
    }
  }

  // ---------------------------------------------------------------------
  // Names not used yet
  // ---------------------------------------------------------------------

  function LongestName(members: seq<Member>): nat {
    if members == [] then 0 else |members[0].key| + LongestName(members[1..])
  }

  lemma {:induction false} NoLongerName(members: seq<Member>, m: Member)
    requires m in members
    ensures |m.key| <= LongestName(members)
  {
    if m != members[0] {
      NoLongerName(members[1..], m);
    }
  }

  const LETTER_A: Piece := Itself(0x61)

  function Letters(n: nat): (ps: seq<Piece>)
    ensures |ps| == n && LegalPieces(ps)
  {
    seq(n, _ => LETTER_A)
  }

  lemma {:induction false} ConcatApart(ps: seq<Piece>, more: seq<Piece>)
    requires ps != []
    ensures (ps + more)[0] == ps[0] && (ps + more)[1..] == ps[1..] + more
  {
  }

  lemma {:induction false} MorePieces(ps: seq<Piece>, more: seq<Piece>)
    ensures PiecesText(ps + more) == PiecesText(ps) + PiecesText(more)
    decreases |ps|
  {
    if ps == [] {
      assert ps + more == more;
      EmptyInFront(PiecesText(more));
    } else {
      MorePieces(ps[1..], more);
      ConcatApart(ps, more);
      Regroup(PieceText(ps[0]), PiecesText(ps[1..]), PiecesText(more));
    }
  }

  lemma {:induction false} PiecesAreLong(ps: seq<Piece>)
    requires LegalPieces(ps)
    ensures |PiecesUnits(ps)| >= |ps|
  {
    if ps != [] {
      PiecesAreLong(ps[1..]);
    }
  }

  /** Any beginning of a name can become one that no member has. */
  lemma {:induction false} NewName(ps: seq<Piece>, result: seq<Member>) returns (name: seq<Piece>)
    requires LegalPieces(ps)
    ensures LegalPieces(name) && !HasKey(result, PiecesUnits(name)) && PiecesText(ps) <= PiecesText(name)
  {
    var more := Letters(LongestName(result) + 1);
    name := ps + more;
    MorePieces(ps, more);
    PiecesAreLong(name);
    forall m | m in result ensures m.key != PiecesUnits(name) {
      NoLongerName(result, m);
    }
  }


  // ---------------------------------------------------------------------
  // One unit settles the fault
  // ---------------------------------------------------------------------

  /** Faults that a single unit settles, whatever follows it. */
  predicate SettledByUnit(code: ErrorCode) {
    code in {ExpectedComma, ExpectedColon, ExpectedPropertyName, UnexpectedToken, TrailingData,
             LeadingZero, InvalidNumber, UnescapedControlCharacter}
  }

  predicate Settled(m: Mistake) { SettledByUnit(MistakeCode(m)) }

  /** The same mistake with another text from the fault on. */
  function WithRest(m: Mistake, rest: Text): Mistake
    requires Settled(m)
  {
    match m
    case InNumber(before, number) => InNumber(before, number.(rest := rest))
    case InText(opening, pieces, _) => InText(opening, pieces, Control(rest))
    case NoValue(before, _) => NoValue(before, rest)
    case NoCommaInList(before, items, last, _) => NoCommaInList(before, items, last, rest)
    case NoCommaInRecord(before, fields, end, _) => NoCommaInRecord(before, fields, end, rest)
    case NoName(before, fields, nameBefore, _) => NoName(before, fields, nameBefore, rest)
    case NoColon(before, fields, nameBefore, name, colonBefore, _) =>
      NoColon(before, fields, nameBefore, name, colonBefore, rest)
    case _ => m
  }

  lemma {:induction false} OpenedTail(o: Opening, a: Text, b: Text)
    ensures Opened(o, a + b) == Opened(o, a) + b
  {
    Regroup([0x22], a, b);
    match o
    case AsValue(before) => Regroup(before, [0x22] + a, b);
    case AsName(before, fields, nameBefore) =>
      Regroup(nameBefore, [0x22] + a, b);
      OpenRecordTail(before, fields, nameBefore + ([0x22] + a), b);
  }

  /** Stopping a number is up to the first unit behind it. */
  lemma {:induction false} StopsByFirst(sp: Spelling, after: Text, rest: Text, other: Text)
    requires MayEnd(sp, after + rest) && rest != [] && other != [] && rest[0] == other[0]
    ensures MayEnd(sp, after + other)
  {
    assert (after + rest)[0] == (after + other)[0];
  }

  /** A settled mistake stays one when the text behind its first unit changes. */
  lemma {:induction false} StaysLegal(m: Mistake, round: Rounding, other: Text)
    requires LegalMistake(m, round) && Settled(m) && MistakeRest(m) != []
    requires other != [] && other[0] == MistakeRest(m)[0]
    ensures LegalMistake(WithRest(m, other), Exact) && MistakeRest(WithRest(m, other)) == other
  {
    match m
    case NoCommaInList(_, items, last, rest) =>
      LegalItemsExactly(items, round);
      LegalExactly(last.value, round);
      StopsByFirst(last.value, last.after, rest, other);
    case NoCommaInRecord(_, fields, end, rest) =>
      LegalFieldsExactly(fields, round);
      LegalExactly(end.value, round);
      StopsByFirst(end.value, end.after, rest, other);
    case NoName(_, fields, _, _) => LegalFieldsExactly(fields, round);
    case NoColon(_, fields, _, _, _, _) => LegalFieldsExactly(fields, round);
    case InText(opening, _, _) =>
      if opening.AsName? {
        LegalFieldsExactly(opening.fields, round);
      }
    case _ =>
  }

  // ---------------------------------------------------------------------
  // Completions
  // ---------------------------------------------------------------------

  /** The text in front of a mistake can be continued to a value. */
  ghost predicate Completes(front: Text, before: Text, sp: Spelling) {
    IsGap(before) && Legal(sp, Exact) && front <= before + Spelled(sp, [])
  }

  lemma {:induction false} MoreBehind(sp: Spelling, next: Text)
    ensures Spelled(sp, []) <= Spelled(sp, next)
  {
    SpelledTail(sp, [], next);
    EmptyInFront(next);
  }

  /** Items with a comma behind each, and one more, are a list. */
  lemma {:induction false} ListCompletes(items: seq<Item>, last: Item, front: Text)
    requires LegalItems(items, Exact) && LegalItem(last, Exact)
    requires front <= last.before + Spelled(last.value, last.after + ([0x5D] + []))
    ensures LegalItems(items + [last], Exact)
    ensures ListSoFar(items, front) <= SpelledItems(items + [last], [])
    decreases |items|
  {
    var all := items + [last];
    if items == [] {
      assert all == [last] && all[1..] == [];
    } else {
      var rest := SpelledItems(items[1..] + [last], []);
      ListCompletes(items[1..], last, front);
      assert all[0] == items[0] && all[1..] == items[1..] + [last];
      PrefixBehind([0x2C], ListSoFar(items[1..], front), rest);
      PrefixBehind(items[0].after, [0x2C] + ListSoFar(items[1..], front), [0x2C] + rest);
      SpelledPrefix(items[0].value, items[0].after + ([0x2C] + ListSoFar(items[1..], front)),
                    items[0].after + ([0x2C] + rest));
      PrefixBehind(items[0].before, Spelled(items[0].value, items[0].after + ([0x2C] + ListSoFar(items[1..], front))),
                   Spelled(items[0].value, items[0].after + ([0x2C] + rest)));
    }
  }

  lemma {:induction false} SpelledPrefix(sp: Spelling, a: Text, b: Text)
    requires a <= b
    ensures Spelled(sp, a) <= Spelled(sp, b)
  {
    var rest := PrefixAndRest(a, b);
    SpelledTail(sp, a, rest);
  }

  lemma {:induction false} FieldPrefix(f: Field, a: Text, b: Text)
    requires a <= b
    ensures SpelledField(f, a) <= SpelledField(f, b)
  {
    var rest := PrefixAndRest(a, b);
    SpelledFieldTail(f, a, rest);
  }

  lemma {:induction false} RecordCompletes(fields: seq<Field>, last: Field, front: Text)
    requires LegalFields(fields, Exact) && LegalField(last, Exact)
    requires front <= last.before + SpelledField(last, last.after + ([0x7D] + []))
    ensures LegalFields(fields + [last], Exact)
    ensures RecordSoFar(fields, front) <= SpelledFields(fields + [last], [])
    decreases |fields|
  {
    var all := fields + [last];
    if fields == [] {
      assert all == [last] && all[1..] == [];
    } else {
      var f, rest := fields[0], SpelledFields(fields[1..] + [last], []);
      RecordCompletes(fields[1..], last, front);
      assert all[0] == f && all[1..] == fields[1..] + [last];
      PrefixBehind([0x2C], RecordSoFar(fields[1..], front), rest);
      PrefixBehind(f.after, [0x2C] + RecordSoFar(fields[1..], front), [0x2C] + rest);
      FieldPrefix(f, f.after + ([0x2C] + RecordSoFar(fields[1..], front)), f.after + ([0x2C] + rest));
      PrefixBehind(f.before, SpelledField(f, f.after + ([0x2C] + RecordSoFar(fields[1..], front))),
                   SpelledField(f, f.after + ([0x2C] + rest)));
    }
  }

  /** One more field with a new name keeps the names apart. */
  lemma {:induction false} StillDiffer(fields: seq<Field>, last: Field)
    requires NamesDiffer(fields) && LegalPieces(last.name) && !NameTaken(fields, PiecesUnits(last.name))
    ensures NamesDiffer(fields + [last])
  {
  }

  lemma {:induction false} ListedCompletes(before: Text, items: seq<Item>, last: Item, front: Text)
    requires IsGap(before) && LegalItems(items, Exact) && LegalItem(last, Exact)
    requires front <= last.before + Spelled(last.value, last.after + ([0x5D] + []))
    ensures Completes(before + ([0x5B] + ListSoFar(items, front)), before, Listed([], items + [last]))
  {
    ListCompletes(items, last, front);
    PrefixBehind([0x5B], ListSoFar(items, front), SpelledItems(items + [last], []));
    PrefixBehind(before, [0x5B] + ListSoFar(items, front), Spelled(Listed([], items + [last]), []));
  }

  lemma {:induction false} RecordedCompletes(before: Text, fields: seq<Field>, last: Field, front: Text)
    requires IsGap(before) && LegalRecord(fields, Exact) && LegalField(last, Exact)
    requires !NameTaken(fields, PiecesUnits(last.name))
    requires front <= last.before + SpelledField(last, last.after + ([0x7D] + []))
    ensures Completes(before + ([0x7B] + RecordSoFar(fields, front)), before, Recorded([], fields + [last]))
  {
    RecordCompletes(fields, last, front);
    StillDiffer(fields, last);
    PrefixBehind([0x7B], RecordSoFar(fields, front), SpelledFields(fields + [last], []));
    PrefixBehind(before, [0x7B] + RecordSoFar(fields, front), Spelled(Recorded([], fields + [last]), []));
  }

  // ---------------------------------------------------------------------
  // What stands in front of a mistake
  // ---------------------------------------------------------------------

  const CODED_A: Text := [0x30, 0x30, 0x36, 0x31]
  const CODED_LOW: Text := [0x44, 0x43, 0x30, 0x30]

  /** What the text has of the character the mistake is in. */
  function TextFront(m: TextMistake): Text {
    match m
    case CutEscape => [0x5C]
    case BadHex(_) => [0x5C, 0x75]
    case LowCode(_) => [0x5C, 0x75]
    case HighCodeAlone(hex, _) => [0x5C, 0x75] + hex
    case BadSecondHex(hex, _) => [0x5C, 0x75] + hex + [0x5C, 0x75]
    case SecondNotLow(hex, _) => [0x5C, 0x75] + hex + [0x5C, 0x75]
    case _ => []
  }

  /** A character that begins like that. */
  function BetterPiece(m: TextMistake): Piece {
    match m
    case CutEscape => Short(0x5C)
    case BadHex(_) => Coded(CODED_A)
    case LowCode(_) => Coded(CODED_A)
    case HighCodeAlone(hex, _) => CodedPair(hex, CODED_LOW)
    case BadSecondHex(hex, _) => CodedPair(hex, CODED_LOW)
    case SecondNotLow(hex, _) => CodedPair(hex, CODED_LOW)
    case _ => LETTER_A
  }

  lemma {:induction false} BetterText(m: TextMistake)
    requires LegalTextMistake(m)
    ensures TextOf(m) == TextFront(m) + TextRest(m)
    ensures LegalPiece(BetterPiece(m)) && TextFront(m) <= PieceText(BetterPiece(m))
  {
    match m
    case HighCodeAlone(hex, rest) => InFrontOf([0x5C, 0x75] + hex, [0x5C, 0x75] + CODED_LOW);
    case BadSecondHex(hex, rest) =>
    case SecondNotLow(hex, rest) =>
    case _ =>
  }

  lemma {:induction false} BetterPieces(pieces: seq<Piece>, m: TextMistake)
    requires LegalPieces(pieces) && LegalTextMistake(m)
    ensures LegalPieces(pieces + [BetterPiece(m)])
    ensures PiecesText(pieces) + TextFront(m) <= PiecesText(pieces + [BetterPiece(m)])
  {
    var p := BetterPiece(m);
    BetterText(m);
    MorePieces(pieces, [p]);
    assert PiecesText([p]) == PieceText(p) + PiecesText([p][1..]) && [p][1..] == [];
    assert PieceText(p) + [] == PieceText(p);
    PrefixBehind(PiecesText(pieces), TextFront(m), PieceText(p));
  }

  function NumberFront(m: NumberMistake): Text {
    match m
    case MinusAlone(_) => [0x2D]
    case ZeroThenDigit(negative, _) => Minus(negative) + [0x30]
    case NoFraction(negative, whole, _) => Minus(negative) + (Units(whole) + [0x2E])
    case NoExponent(negative, whole, fraction, letter, sign, _) =>
      Minus(negative) + (Units(whole) + (FractionUnits(fraction) + ([letter] + sign)))
    case TooLarge(_, _) => []
  }

  function BetterFigure(m: NumberMistake): Figure {
    match m
    case MinusAlone(_) => Figure(true, [0], [], NoPower)
    case ZeroThenDigit(negative, _) => Figure(negative, [0], [], NoPower)
    case NoFraction(negative, whole, _) => Figure(negative, whole, [0], NoPower)
    case NoExponent(negative, whole, fraction, letter, sign, _) =>
      Figure(negative, whole, fraction, Power(letter, sign, [0]))
    case TooLarge(figure, _) => figure
  }

  lemma {:induction false} NumberApart(m: NumberMistake)
    ensures NumberText(m) == NumberFront(m) + NumberRest(m)
  {
    match m
    case MinusAlone(_) =>
    case ZeroThenDigit(negative, rest) => Regroup(Minus(negative), [0x30], rest);
    case NoFraction(negative, whole, rest) =>
      Regroup(Units(whole), [0x2E], rest);
      Regroup(Minus(negative), Units(whole) + [0x2E], rest);
    case NoExponent(negative, whole, fraction, letter, sign, rest) =>
      Regroup([letter], sign, rest);
      Regroup(FractionUnits(fraction), [letter] + sign, rest);
      Regroup(Units(whole), FractionUnits(fraction) + ([letter] + sign), rest);
      Regroup(Minus(negative), Units(whole) + (FractionUnits(fraction) + ([letter] + sign)), rest);
    case TooLarge(figure, behind) => EmptyInFront(FigureText(figure, behind));
  }

  lemma {:induction false} BetterNumber(m: NumberMistake, round: Rounding)
    requires LegalNumberMistake(m, round)
    ensures LegalFigure(BetterFigure(m)) && NumberFront(m) <= FigureText(BetterFigure(m), [])
  {
    match m
    case MinusAlone(_) =>
      InFrontOf([0x2D], UnsignedText(BetterFigure(m), []));
    case ZeroThenDigit(negative, _) =>
      PrefixBehind(Minus(negative), [0x30], UnsignedText(BetterFigure(m), []));
    case NoFraction(negative, whole, _) =>
      PrefixBehind(Units(whole), [0x2E], FractionUnits([0]) + (PowerText(NoPower) + []));
      PrefixBehind(Minus(negative), Units(whole) + [0x2E], UnsignedText(BetterFigure(m), []));
    case NoExponent(negative, whole, fraction, letter, sign, _) =>
      var power := Power(letter, sign, [0]);
      Regroup([letter], sign, Units([0]));
      Regroup([letter] + sign, Units([0]), []);
      InFrontOf([letter] + sign, Units([0]) + []);
      PrefixBehind(FractionUnits(fraction), [letter] + sign, PowerText(power) + []);
      PrefixBehind(Units(whole), FractionUnits(fraction) + ([letter] + sign),
                   FractionUnits(fraction) + (PowerText(power) + []));
      PrefixBehind(Minus(negative), Units(whole) + (FractionUnits(fraction) + ([letter] + sign)),
                   UnsignedText(BetterFigure(m), []));
    case TooLarge(_, _) =>
  }

  /** The text in front of the place where the mistake is reported. */
  function MistakeFront(m: Mistake): Text {
    match m
    case NoValue(before, _) => before
    case BadWord(before, _) => before
    case InNumber(before, number) => before + NumberFront(number)
    case InText(opening, pieces, text) => Opened(opening, PiecesText(pieces) + TextFront(text))
    case NoCommaInList(before, items, last, _) =>
      before + ([0x5B] + ListSoFar(items, last.before + Spelled(last.value, last.after)))
    case NoCommaInRecord(before, fields, end, _) =>
      before + ([0x7B] + RecordSoFar(fields, end.before + SpelledField(end, end.after)))
    case NoName(before, fields, nameBefore, _) => before + ([0x7B] + RecordSoFar(fields, nameBefore))
    case NameAgain(before, fields, nameBefore, _, _) => before + ([0x7B] + RecordSoFar(fields, nameBefore))
    case NoColon(before, fields, nameBefore, name, colonBefore, _) =>
      before + ([0x7B] + RecordSoFar(fields, nameBefore + Named(name, colonBefore)))
  }

  lemma {:induction false} MistakeApart(m: Mistake, round: Rounding)
    requires LegalMistake(m, round)
    ensures MistakeText(m) == MistakeFront(m) + MistakeRest(m)
  {
    match m
    case NoValue(_, _) =>
    case BadWord(_, _) =>
    case InNumber(before, number) =>
      NumberApart(number);
      Regroup(before, NumberFront(number), NumberRest(number));
    case InText(opening, pieces, text) =>
      BetterText(text);
      Regroup(PiecesText(pieces), TextFront(text), TextRest(text));
      OpenedTail(opening, PiecesText(pieces) + TextFront(text), TextRest(text));
    case NoCommaInList(before, items, last, rest) =>
      SpelledTail(last.value, last.after, rest);
      Regroup(last.before, Spelled(last.value, last.after), rest);
      OpenListTail(before, items, last.before + Spelled(last.value, last.after), rest);
    case NoCommaInRecord(before, fields, end, rest) =>
      SpelledFieldTail(end, end.after, rest);
      Regroup(end.before, SpelledField(end, end.after), rest);
      OpenRecordTail(before, fields, end.before + SpelledField(end, end.after), rest);
    case NoName(before, fields, nameBefore, rest) => OpenRecordTail(before, fields, nameBefore, rest);
    case NameAgain(before, fields, nameBefore, name, behind) =>
      OpenRecordTail(before, fields, nameBefore, Named(name, behind));
    case NoColon(before, fields, nameBefore, name, colonBefore, rest) =>
      NamedTail(name, colonBefore, rest);
      Regroup(nameBefore, Named(name, colonBefore), rest);
      OpenRecordTail(before, fields, nameBefore + Named(name, colonBefore), rest);
  }

  // ---------------------------------------------------------------------
  // Completing what stands in front
  // ---------------------------------------------------------------------

  /** A field of that name with the value null. */
  function NullField(before: Text, name: seq<Piece>, colonBefore: Text): Field {
    Field(before, name, colonBefore, [], Word(Null), [])
  }

  lemma {:induction false} NameFront(before: Text, front: Text, name: seq<Piece>, colonBefore: Text)
    requires front <= PiecesText(name)
    ensures var f := NullField(before, name, colonBefore);
            before + ([0x22] + front) <= before + SpelledField(f, [] + ([0x7D] + []))
  {
    var f := NullField(before, name, colonBefore);
    var behind := [0x22] + (colonBefore + ([0x3A] + ([] + Spelled(f.value, [] + ([0x7D] + [])))));
    InFrontOf(PiecesText(name), behind);
    PrefixThrough(front, PiecesText(name), PiecesText(name) + behind);
    PrefixBehind([0x22], front, PiecesText(name) + behind);
    PrefixBehind(before, [0x22] + front, SpelledField(f, [] + ([0x7D] + [])));
  }

  lemma {:induction false} ColonFront(before: Text, name: seq<Piece>, colonBefore: Text)
    ensures var f := NullField(before, name, colonBefore);
            before + Named(name, colonBefore) <= before + SpelledField(f, [] + ([0x7D] + []))
  {
    var f := NullField(before, name, colonBefore);
    var behind := [0x3A] + ([] + Spelled(f.value, [] + ([0x7D] + [])));
    InFrontOf(colonBefore, behind);
    PrefixBehind([0x22], colonBefore, colonBefore + behind);
    PrefixBehind(PiecesText(name), [0x22] + colonBefore, [0x22] + (colonBefore + behind));
    PrefixBehind([0x22], PiecesText(name) + ([0x22] + colonBefore),
                 PiecesText(name) + ([0x22] + (colonBefore + behind)));
    PrefixBehind(before, Named(name, colonBefore), SpelledField(f, [] + ([0x7D] + [])));
  }

  /** The beginning of a name can become a new one. */
  lemma {:induction false} NameCompletes(before: Text, fields: seq<Field>, nameBefore: Text, front: Text,
                                         pieces: seq<Piece>) returns (sp: Spelling)
    requires IsGap(before) && LegalRecord(fields, Exact) && IsGap(nameBefore) && LegalPieces(pieces)
    requires front <= PiecesText(pieces)
    ensures Completes(before + ([0x7B] + RecordSoFar(fields, nameBefore + ([0x22] + front))), before, sp)
  {
    var name := NewName(pieces, FieldMeanings(fields, Exact));
    NameTakenIsKey(fields, PiecesUnits(name), Exact);
    PrefixThrough(front, PiecesText(pieces), PiecesText(name));
    NameFront(nameBefore, front, name, []);
    var f := NullField(nameBefore, name, []);
    RecordedCompletes(before, fields, f, nameBefore + ([0x22] + front));
    sp := Recorded([], fields + [f]);
  }

  lemma {:induction false} TextCompletes(m: Mistake, round: Rounding) returns (before: Text, sp: Spelling)
    requires LegalMistake(m, round) && m.InText?
    ensures Completes(MistakeFront(m), before, sp)
  {
    var front, name := PiecesText(m.pieces) + TextFront(m.text), m.pieces + [BetterPiece(m.text)];
    BetterPieces(m.pieces, m.text);
    before := m.opening.before;
    match m.opening
    case AsValue(_) =>
      sp := Quoted(name);
      InFrontOf(PiecesText(name), [0x22] + []);
      PrefixThrough(front, PiecesText(name), PiecesText(name) + ([0x22] + []));
      PrefixBehind([0x22], front, PiecesText(name) + ([0x22] + []));
      PrefixBehind(before, [0x22] + front, Spelled(sp, []));
    case AsName(_, fields, nameBefore) =>
      LegalFieldsExactly(fields, round);
      sp := NameCompletes(before, fields, nameBefore, front, name);
  }

  lemma {:induction false} RecordFrontCompletes(m: Mistake, round: Rounding) returns (before: Text, sp: Spelling)
    requires LegalMistake(m, round) && (m.NoName? || m.NameAgain? || m.NoColon?)
    ensures Completes(MistakeFront(m), before, sp)
  {
    before := m.before;
    LegalFieldsExactly(m.fields, round);
    if m.NoColon? {
      var f := NullField(m.nameBefore, m.name, m.colonBefore);
      ColonFront(m.nameBefore, m.name, m.colonBefore);
      RecordedCompletes(before, m.fields, f, m.nameBefore + Named(m.name, m.colonBefore));
      sp := Recorded([], m.fields + [f]);
    } else {
      var name := NewName([], FieldMeanings(m.fields, Exact));
      NameTakenIsKey(m.fields, PiecesUnits(name), Exact);
      var f := NullField(m.nameBefore, name, []);
      InFrontOf(m.nameBefore, SpelledField(f, [] + ([0x7D] + [])));
      RecordedCompletes(before, m.fields, f, m.nameBefore);
      sp := Recorded([], m.fields + [f]);
    }
  }

  lemma {:induction false} CommaFrontCompletes(m: Mistake, round: Rounding) returns (before: Text, sp: Spelling)
    requires LegalMistake(m, round) && (m.NoCommaInList? || m.NoCommaInRecord?)
    ensures Completes(MistakeFront(m), before, sp)
  {
    before := m.before;
    match m
    case NoCommaInList(_, items, last, _) =>
      LegalItemsExactly(items, round);
      LegalExactly(last.value, round);
      InFrontOf(last.after, [0x5D] + []);
      SpelledPrefix(last.value, last.after, last.after + ([0x5D] + []));
      PrefixBehind(last.before, Spelled(last.value, last.after), Spelled(last.value, last.after + ([0x5D] + [])));
      ListedCompletes(before, items, last, last.before + Spelled(last.value, last.after));
      sp := Listed([], items + [last]);
    case NoCommaInRecord(_, fields, end, _) =>
      LegalFieldsExactly(fields, round);
      LegalExactly(end.value, round);
      InFrontOf(end.after, [0x7D] + []);
      FieldPrefix(end, end.after, end.after + ([0x7D] + []));
      PrefixBehind(end.before, SpelledField(end, end.after), SpelledField(end, end.after + ([0x7D] + [])));
      RecordedCompletes(before, fields, end, end.before + SpelledField(end, end.after));
      sp := Recorded([], fields + [end]);
  }

  lemma {:induction false} MistakeCompletes(m: Mistake, round: Rounding) returns (before: Text, sp: Spelling)
    requires LegalMistake(m, round)
    ensures Completes(MistakeFront(m), before, sp)
  {
    match m
    case NoValue(gap, _) =>
      before, sp := gap, Word(Null);
      InFrontOf(gap, Spelled(sp, []));
    case BadWord(gap, _) =>
      before, sp := gap, Word(Null);
      InFrontOf(gap, Spelled(sp, []));
    case InNumber(gap, number) =>
      before, sp := gap, Figured(BetterFigure(number));
      BetterNumber(number, round);
      PrefixBehind(gap, NumberFront(number), Spelled(sp, []));
    case InText(_, _, _) => before, sp := TextCompletes(m, round);
    case NoCommaInList(_, _, _, _) => before, sp := CommaFrontCompletes(m, round);
    case NoCommaInRecord(_, _, _, _) => before, sp := CommaFrontCompletes(m, round);
    case _ => before, sp := RecordFrontCompletes(m, round);
  }

  lemma {:induction false} FrameCompletes(frame: Frame, front: Text, before: Text, sp: Spelling)
    returns (gap: Text, whole: Spelling)
    requires LegalFrame(frame, Exact) && Completes(front, before, sp)
    ensures Completes(Inside(frame, front), gap, whole)
  {
    gap := frame.before;
    match frame
    case InList(_, items) =>
      var last := Item(before, sp, []);
      MoreBehind(sp, [] + ([0x5D] + []));
      PrefixBehind(before, Spelled(sp, []), Spelled(sp, [] + ([0x5D] + [])));
      PrefixThrough(front, before + Spelled(sp, []), before + Spelled(sp, [] + ([0x5D] + [])));
      ListedCompletes(gap, items, last, front);
      whole := Listed([], items + [last]);
    case InRecord(_, fields, nameBefore, name, colonBefore) =>
      var last := Field(nameBefore, name, colonBefore, before, sp, []);
      MoreBehind(sp, [] + ([0x7D] + []));
      PrefixBehind(before, Spelled(sp, []), Spelled(sp, [] + ([0x7D] + [])));
      PrefixThrough(front, before + Spelled(sp, []), before + Spelled(sp, [] + ([0x7D] + [])));
      ValueInField(last, front);
      RecordedCompletes(gap, fields, last, nameBefore + Named(name, colonBefore + ([0x3A] + front)));
      whole := Recorded([], fields + [last]);
  }

  lemma {:induction false} ValueInField(f: Field, front: Text)
    requires f.after == [] && front <= f.colonAfter + Spelled(f.value, [] + ([0x7D] + []))
    ensures f.before + Named(f.name, f.colonBefore + ([0x3A] + front)) <=
            f.before + SpelledField(f, f.after + ([0x7D] + []))
  {
    var valued := f.colonAfter + Spelled(f.value, [] + ([0x7D] + []));
    PrefixBehind([0x3A], front, valued);
    PrefixBehind(f.colonBefore, [0x3A] + front, [0x3A] + valued);
    PrefixBehind([0x22], f.colonBefore + ([0x3A] + front), f.colonBefore + ([0x3A] + valued));
    PrefixBehind(PiecesText(f.name), [0x22] + (f.colonBefore + ([0x3A] + front)),
                 [0x22] + (f.colonBefore + ([0x3A] + valued)));
    PrefixBehind([0x22], PiecesText(f.name) + ([0x22] + (f.colonBefore + ([0x3A] + front))),
                 PiecesText(f.name) + ([0x22] + (f.colonBefore + ([0x3A] + valued))));
    PrefixBehind(f.before, Named(f.name, f.colonBefore + ([0x3A] + front)), SpelledField(f, f.after + ([0x7D] + [])));
  }

  lemma {:induction false} FramesComplete(frames: seq<Frame>, front: Text, before: Text, sp: Spelling)
    returns (gap: Text, whole: Spelling)
    requires LegalFrames(frames, Exact) && Completes(front, before, sp)
    ensures Completes(InsideAll(frames, front), gap, whole)
    decreases |frames|
  {
    if frames == [] {
      gap, whole := before, sp;
    } else {
      var b, inner := FramesComplete(frames[1..], front, before, sp);
      gap, whole := FrameCompletes(frames[0], InsideAll(frames[1..], front), b, inner);
    }
  }

  // ---------------------------------------------------------------------
  // Main results
  // ---------------------------------------------------------------------

  /** Some legal text begins with this one, leaving aside which numbers are too large. */
  ghost predicate MayContinue(front: Text) {
    exists rest, v :: SpellsText(front + rest, v, Exact)
  }

  lemma {:induction false} CompletedContinues(front: Text, before: Text, sp: Spelling, after: Text)
    requires IsGap(before) && IsGap(after) && Legal(sp, Exact) && front <= before + Spelled(sp, after)
    ensures MayContinue(front)
  {
    var rest := PrefixAndRest(front, before + Spelled(sp, after));
    assert SpelledAs(front + rest, before, sp, after, Exact);
    assert SpellsText(front + rest, Meaning(sp, Exact), Exact);
  }

  lemma {:induction false} FrontIs(text: Text, front: Text, rest: Text)
    requires text == front + rest
    ensures Front(text, |rest|) == front
  {
  }

  /** Wherever a fault is reported, the text in front of it could still have become JSON. */
  lemma {:induction false} FaultIsFirst(text: Text, round: Rounding)
    requires ParseStrict(text, round).Failed?
    ensures var left := ParseStrict(text, round).left; left <= |text| && MayContinue(Front(text, left))
  {
    var w := WrongOf(text, round);
    match w
    case Within(frames, m) =>
      MistakeApart(m, round);
      InsideAllTail(frames, MistakeFront(m), MistakeRest(m));
      FrontIs(text, InsideAll(frames, MistakeFront(m)), MistakeRest(m));
      LegalFramesExactly(frames, round);
      var before, sp := MistakeCompletes(m, round);
      var gap, whole := FramesComplete(frames, MistakeFront(m), before, sp);
      CompletedContinues(InsideAll(frames, MistakeFront(m)), gap, whole, []);
    case Behind(before, value, after, rest) =>
      SpelledTail(value, after, rest);
      Regroup(before, Spelled(value, after), rest);
      FrontIs(text, before + Spelled(value, after), rest);
      LegalExactly(value, round);
      CompletedContinues(before + Spelled(value, after), before, value, after);
  }

  /** The text up to and with the first unit of `rest`, then something else. */
  lemma {:induction false} Exchanged(x: Text, rest: Text, more: Text)
    requires rest != []
    ensures Front(x + rest, |rest| - 1) + more == x + ([rest[0]] + more)
  {
    assert rest == [rest[0]] + rest[1..];
    Regroup(x, [rest[0]], rest[1..]);
    FrontIs(x + rest, x + [rest[0]], rest[1..]);
    Regroup(x, [rest[0]], more);
  }

  /** A settled fault stays, whatever follows the unit it was found at. */
  lemma {:induction false} FaultStays(text: Text, more: Text, round: Rounding)
    requires var p := ParseStrict(text, round); p.Failed? && SettledByUnit(p.code) && 0 < p.left <= |text|
    ensures ParseStrict(Front(text, ParseStrict(text, round).left - 1) + more, Exact).Failed?
  {
    var w := WrongOf(text, round);
    var rest := WrongRest(w);
    var other := [rest[0]] + more;
    match w
    case Within(frames, m) =>
      MistakeApart(m, round);
      InsideAllTail(frames, MistakeFront(m), rest);
      Exchanged(InsideAll(frames, MistakeFront(m)), rest, more);
      MistakeStays(frames, m, round, other);
    case Behind(before, value, after, _) =>
      SpelledTail(value, after, rest);
      SpelledTail(value, after, other);
      Regroup(before, Spelled(value, after), rest);
      Regroup(before, Spelled(value, after), other);
      Exchanged(before + Spelled(value, after), rest, more);
      LegalExactly(value, round);
      StopsByFirst(value, after, rest, other);
      WrongIsReported(Behind(before, value, after, other), Exact);
  }

  lemma {:induction false} MistakeStays(frames: seq<Frame>, m: Mistake, round: Rounding, other: Text)
    requires LegalFrames(frames, round) && LegalMistake(m, round) && MayStand(frames, m) && Settled(m)
    requires MistakeRest(m) != [] && other != [] && other[0] == MistakeRest(m)[0]
    ensures ParseStrict(InsideAll(frames, MistakeFront(m)) + other, Exact).Failed?
  {
    StaysLegal(m, round, other);
    LegalFramesExactly(frames, round);
    MistakeApart(WithRest(m, other), Exact);
    SameFront(m, other);
    InsideAllTail(frames, MistakeFront(m), other);
    WrongIsReported(Within(frames, WithRest(m, other)), Exact);
  }

  lemma {:induction false} SameFront(m: Mistake, other: Text)
    requires Settled(m)
    ensures MistakeFront(WithRest(m, other)) == MistakeFront(m)
  {
    match m
    case InNumber(before, number) =>
      match number {
        case MinusAlone(_) =>
        case ZeroThenDigit(_, _) =>
        case NoFraction(_, _, _) =>
        case NoExponent(_, _, _, _, _, _) =>
      }
    case InText(opening, pieces, text) => assert text.Control?;
    case _ =>
  }

  lemma {:induction false} ShorterMayContinue(front: Text, k: nat)
    requires MayContinue(front) && k <= |front|
    ensures MayContinue(front[..k])
  {
    var rest, v :| SpellsText(front + rest, v, Exact);
    assert front + rest == front[..k] + (front[k..] + rest);
  }

  lemma {:induction false} DeadBehindFault(text: Text, round: Rounding, more: Text)
    requires var p := ParseStrict(text, round); p.Failed? && SettledByUnit(p.code) && 0 < p.left <= |text|
    ensures !MayContinue(Front(text, ParseStrict(text, round).left - 1) + more)
  {
    var front := Front(text, ParseStrict(text, round).left - 1);
    if MayContinue(front + more) {
      var rest, v :| SpellsText(front + more + rest, v, Exact);
      Regroup(front, more, rest);
      FaultStays(text, more + rest, round);
      ParserAcceptsExactly(front + (more + rest), v, Exact);
    }
  }

  /** The position of a settled fault is exactly where the text stops being the beginning of some JSON text. */
  lemma {:induction false} FaultIsExact(text: Text, round: Rounding, k: nat)
    requires var p := ParseStrict(text, round); p.Failed? && (SettledByUnit(p.code) || p.left == 0)
    requires k <= |text|
    ensures ParseStrict(text, round).left <= |text|
    ensures MayContinue(text[..k]) <==> k <= |text| - ParseStrict(text, round).left
  {
    FaultIsFirst(text, round);
    var left := ParseStrict(text, round).left;
    if k <= |text| - left {
      ShorterMayContinue(Front(text, left), k);
      assert Front(text, left)[..k] == text[..k];
    } else {
      DeadBehindFault(text, round, text[|text| - (left - 1)..k]);
      assert text[..k] == Front(text, left - 1) + text[|text| - (left - 1)..k];
    }
  }
}
