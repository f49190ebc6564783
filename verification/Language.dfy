/** The strict JSON language: which texts spell which value, with white space wherever it may stand and any
    choice of escapes and number notation, and that the parser reads every legal spelling as its value. */
module Language {
  import opened Utf16
  import opened Parsing
  import opened Numbers
  import opened Strings
  import opened Json
  import opened StrictJson
  import opened Spellings

  // ---------------------------------------------------------------------
  // Values
  // ---------------------------------------------------------------------

  /** How a value is written; `gap` is the white space inside empty brackets. */
  datatype Spelling =
    | Word(value: JSON)
    | Figured(figure: Figure)
    | Quoted(pieces: seq<Piece>)
    | Listed(gap: Text, items: seq<Item>)
    | Recorded(gap: Text, fields: seq<Field>)

  /** An element with the white space around it. */
  datatype Item = Item(before: Text, value: Spelling, after: Text)

  /** A member with the white space around its name and its value. */
  datatype Field = Field(before: Text, name: seq<Piece>, colonBefore: Text,
                         colonAfter: Text, value: Spelling, after: Text)

  function WordText(value: JSON): Text {
    Ascii(if value == Bool(true) then "true" else if value == Bool(false) then "false" else "null")
  }

  lemma {:induction false} WordsRead(value: JSON)
    ensures WordText(value) == if value == Bool(true) then TRUE else if value == Bool(false) then FALSE else NULL
  {
  }

  /** The spelling in front of `tail`. */
  function Spelled(sp: Spelling, tail: Text): Text
    decreases sp
  {
    match sp
    case Word(value) => WordText(value) + tail
    case Figured(figure) => FigureText(figure, tail)
    case Quoted(pieces) => [0x22] + (PiecesText(pieces) + ([0x22] + tail))
    case Listed(gap, items) =>
      [0x5B] + (if items == [] then gap + ([0x5D] + tail) else SpelledItems(items, tail))
    case Recorded(gap, fields) =>
      [0x7B] + (if fields == [] then gap + ([0x7D] + tail) else SpelledFields(fields, tail))
  }

  function SpelledItems(items: seq<Item>, tail: Text): Text
    requires items != []
    decreases items
  {
    var item := items[0];
    var next := if |items| == 1 then [0x5D] + tail else [0x2C] + SpelledItems(items[1..], tail);
    item.before + Spelled(item.value, item.after + next)
  }

  function SpelledFields(fields: seq<Field>, tail: Text): Text
    requires fields != []
    decreases fields
  {
    var f := fields[0];
    var next := if |fields| == 1 then [0x7D] + tail else [0x2C] + SpelledFields(fields[1..], tail);
    f.before + SpelledField(f, f.after + next)
  }

  function SpelledField(f: Field, tail: Text): Text
    decreases f
  {
    [0x22] + (PiecesText(f.name) + ([0x22] + (f.colonBefore + ([0x3A] + (f.colonAfter + Spelled(f.value, tail))))))
  }

  ghost predicate Legal(sp: Spelling, round: Rounding)
    decreases sp
  {
    match sp
    case Word(value) => value.Null? || value.Bool?
    case Figured(figure) => LegalFigure(figure) && round(TokenValue(FigureToken(figure))).Finite?
    case Quoted(pieces) => LegalPieces(pieces)
    case Listed(gap, items) => IsGap(gap) && LegalItems(items, round)
    case Recorded(gap, fields) => IsGap(gap) && LegalFields(fields, round) && NamesDiffer(fields)
  }

  /** No name twice, however it is spelled. */
  ghost predicate NamesDiffer(fields: seq<Field>) {
    forall i, j :: 0 <= i < j < |fields| && LegalPieces(fields[i].name) && LegalPieces(fields[j].name) ==>
      PiecesUnits(fields[i].name) != PiecesUnits(fields[j].name)
  }

  ghost predicate LegalItems(items: seq<Item>, round: Rounding)
    decreases items
  {
    items != [] ==> LegalItem(items[0], round) && LegalItems(items[1..], round)
  }

  ghost predicate LegalFields(fields: seq<Field>, round: Rounding)
    decreases fields
  {
    fields != [] ==> LegalField(fields[0], round) && LegalFields(fields[1..], round)
  }

  ghost predicate LegalItem(item: Item, round: Rounding)
    decreases item
  {
    IsGap(item.before) && IsGap(item.after) && Legal(item.value, round)
  }

  ghost predicate LegalField(f: Field, round: Rounding)
    decreases f
  {
    && IsGap(f.before) && IsGap(f.colonBefore) && IsGap(f.colonAfter) && IsGap(f.after)
    && LegalPieces(f.name) && Legal(f.value, round)
  }

  /** The value a legal spelling stands for. */
  function Meaning(sp: Spelling, round: Rounding): JSON
    requires Legal(sp, round)
    decreases sp
  {
    match sp
    case Word(value) => value
    case Figured(figure) => Number(round(TokenValue(FigureToken(figure))))
    case Quoted(pieces) => Str(PiecesUnits(pieces))
    case Listed(_, items) => Arr(ItemMeanings(items, round))
    case Recorded(_, fields) => Obj(FieldMeanings(fields, round))
  }

  function ItemMeanings(items: seq<Item>, round: Rounding): seq<JSON>
    requires LegalItems(items, round)
    decreases items
  {
    if items == [] then [] else [ItemMeaning(items[0], round)] + ItemMeanings(items[1..], round)
  }

  function ItemMeaning(item: Item, round: Rounding): JSON
    requires LegalItem(item, round)
    decreases item
  {
    Meaning(item.value, round)
  }

  function FieldMeanings(fields: seq<Field>, round: Rounding): seq<Member>
    requires LegalFields(fields, round)
    decreases fields
  {
    if fields == [] then [] else [FieldMeaning(fields[0], round)] + FieldMeanings(fields[1..], round)
  }

  function FieldMeaning(f: Field, round: Rounding): Member
    requires LegalField(f, round)
    decreases f
  {
    Member(PiecesUnits(f.name), Meaning(f.value, round))
  }

  // ---------------------------------------------------------------------
  // The parser accepts every legal spelling
  // ---------------------------------------------------------------------

  /** A number must not be continued by what follows; nothing else minds. */
  predicate MayEnd(sp: Spelling, tail: Text) { sp.Figured? ==> Stops(sp.figure, tail) }

  lemma {:induction false} SpelledStart(sp: Spelling, tail: Text, round: Rounding)
    requires Legal(sp, round)
    ensures var s := Spelled(sp, tail);
            && s != [] && !IsWhitespace(s[0]) && s[0] != CLOSE_ARRAY
            && (sp.Quoted? ==> s[0] == QUOTE) && (sp.Listed? ==> s[0] == OPEN_ARRAY)
            && (sp.Recorded? ==> s[0] == OPEN_OBJECT) && (sp.Figured? ==> s[0] == 0x2D || IsDigit(s[0]))
  {
    match sp
    case Word(value) => WordsRead(value);
    case Figured(figure) => FigureStart(figure, tail);
    case _ =>
  }

  lemma {:induction false} WordReads(value: JSON, tail: Text, round: Rounding)
    requires value.Null? || value.Bool?
    ensures ReadValue(Spelled(Word(value), tail), round) == Read(value, tail)
  {
    WordsRead(value);
    LiteralReads(if value == Bool(true) then TRUE else if value == Bool(false) then FALSE else NULL,
                                value, round, tail);
  }

  lemma {:induction false} FiguredReads(figure: Figure, tail: Text, round: Rounding)
    requires Legal(Figured(figure), round) && Stops(figure, tail)
    ensures ReadValue(Spelled(Figured(figure), tail), round) == Read(Meaning(Figured(figure), round), tail)
  {
    FigureReads(figure, tail);
    FigureStart(figure, tail);
    NumberDispatch(FigureText(figure, tail), round, round(TokenValue(FigureToken(figure))), tail);
  }

  lemma {:induction false} QuotedReads(pieces: seq<Piece>, tail: Text, round: Rounding)
    requires LegalPieces(pieces)
    ensures ReadString(Spelled(Quoted(pieces), tail)) == Read(PiecesUnits(pieces), tail)
    ensures ReadValue(Spelled(Quoted(pieces), tail), round) == Read(Str(PiecesUnits(pieces)), tail)
  {
    var s := Spelled(Quoted(pieces), tail);
    assert s[1..] == PiecesText(pieces) + ([QUOTE] + tail);
    PiecesRead(pieces, tail, []);
    assert [] + PiecesUnits(pieces) == PiecesUnits(pieces);
  }

  lemma {:induction false} SkipFirst(gap: Text, s: Text, round: Rounding)
    requires IsGap(gap) && Visible(s)
    ensures ReadValue(gap + s, round) == ReadValue(s, round)
  {
    SkipGap(gap, s);
    SkipGap([], s);
    assert [] + s == s;
  }

  lemma {:induction false} SpellingReads(sp: Spelling, tail: Text, round: Rounding)
    requires Legal(sp, round) && MayEnd(sp, tail)
    ensures ReadValue(Spelled(sp, tail), round) == Read(Meaning(sp, round), tail)
    decreases sp
  {
    match sp
    case Word(value) => WordReads(value, tail, round);
    case Figured(figure) => FiguredReads(figure, tail, round);
    case Quoted(pieces) => QuotedReads(pieces, tail, round);
    case Listed(gap, items) =>
      assert Spelled(sp, tail)[1..] ==
             if items == [] then gap + ([CLOSE_ARRAY] + tail) else SpelledItems(items, tail);
      ListReads(gap, items, tail, round);
    case Recorded(gap, fields) =>
      assert Spelled(sp, tail)[1..] ==
             if fields == [] then gap + ([CLOSE_OBJECT] + tail) else SpelledFields(fields, tail);
      RecordReads(gap, fields, tail, round);
  }

  lemma {:induction false} ListReads(gap: Text, items: seq<Item>, tail: Text, round: Rounding)
    requires IsGap(gap) && LegalItems(items, round)
    ensures var body := if items == [] then gap + ([CLOSE_ARRAY] + tail) else SpelledItems(items, tail);
            var first := SkipWhitespace(body);
            if items == [] then StartsWith(first, CLOSE_ARRAY) && first[1..] == tail
            else !StartsWith(first, CLOSE_ARRAY)
                 && ReadElements(first, [], round) == Read(Arr(ItemMeanings(items, round)), tail)
    decreases items, 2
  {
    if items == [] {
      SkipGap(gap, [CLOSE_ARRAY] + tail);
    } else {
      ItemsStart(items, tail, round);
      ItemsRead(items, [], tail, round);
      assert [] + ItemMeanings(items, round) == ItemMeanings(items, round);
    }
  }

  lemma {:induction false} RecordReads(gap: Text, fields: seq<Field>, tail: Text, round: Rounding)
    requires IsGap(gap) && LegalFields(fields, round) && NamesDiffer(fields)
    ensures var body := if fields == [] then gap + ([CLOSE_OBJECT] + tail) else SpelledFields(fields, tail);
            var first := SkipWhitespace(body);
            if fields == [] then StartsWith(first, CLOSE_OBJECT) && first[1..] == tail
            else !StartsWith(first, CLOSE_OBJECT)
                 && ReadMembers(first, [], round) == Read(Obj(FieldMeanings(fields, round)), tail)
    decreases fields, 2
  {
    if fields == [] {
      SkipGap(gap, [CLOSE_OBJECT] + tail);
    } else {
      assert LegalField(fields[0], round);
      FieldsStart(fields, tail);
      FieldsRead(fields, [], tail, round);
      assert [] + FieldMeanings(fields, round) == FieldMeanings(fields, round);
    }
  }

  /** What stands behind an item or field. */
  function NextItem(items: seq<Item>, tail: Text): Text
    requires items != []
  {
    if |items| == 1 then [CLOSE_ARRAY] + tail else [COMMA] + SpelledItems(items[1..], tail)
  }

  function NextField(fields: seq<Field>, tail: Text): Text
    requires fields != []
  {
    if |fields| == 1 then [CLOSE_OBJECT] + tail else [COMMA] + SpelledFields(fields[1..], tail)
  }

  lemma {:induction false} ItemsStart(items: seq<Item>, tail: Text, round: Rounding)
    requires items != [] && LegalItems(items, round)
    ensures var first := Spelled(items[0].value, items[0].after + NextItem(items, tail));
            && SkipWhitespace(SpelledItems(items, tail)) == first && first != [] && first[0] != CLOSE_ARRAY
  {
    SpelledStart(items[0].value, items[0].after + NextItem(items, tail), round);
    SkipGap(items[0].before, Spelled(items[0].value, items[0].after + NextItem(items, tail)));
  }

  lemma {:induction false} GapThenMayEnd(sp: Spelling, gap: Text, next: Text)
    requires IsGap(gap) && next != [] && next[0] in {CLOSE_ARRAY, CLOSE_OBJECT, COMMA}
    ensures MayEnd(sp, gap + next) && SkipWhitespace(gap + next) == next
  {
    SkipGap(gap, next);
    assert gap == [] ==> gap + next == next;
  }

  lemma {:induction false} FirstItemReads(items: seq<Item>, result: seq<JSON>, tail: Text, round: Rounding)
    requires items != [] && LegalItems(items, round)
    ensures var next, all := NextItem(items, tail), result + [ItemMeaning(items[0], round)];
            ReadElements(SkipWhitespace(SpelledItems(items, tail)), result, round) ==
            if StartsWith(next, CLOSE_ARRAY) then Read(Arr(all), next[1..])
            else ReadElements(SkipWhitespace(next[1..]), all, round)
    decreases items, 0
  {
    var item, next := items[0], NextItem(items, tail);
    var whole := Spelled(item.value, item.after + next);
    ItemsStart(items, tail, round);
    GapThenMayEnd(item.value, item.after, next);
    SpellingReads(item.value, item.after + next, round);
    ElementThen(whole, result, round, ItemMeaning(item, round), item.after + next);
  }

  lemma {:induction false} ItemsRead(items: seq<Item>, result: seq<JSON>, tail: Text, round: Rounding)
    requires items != [] && LegalItems(items, round)
    ensures ReadElements(SkipWhitespace(SpelledItems(items, tail)), result, round) ==
            Read(Arr(result + ItemMeanings(items, round)), tail)
    decreases items, 1
  {
    var value := ItemMeaning(items[0], round);
    FirstItemReads(items, result, tail, round);
    if |items| == 1 {
      assert NextItem(items, tail)[1..] == tail && ItemMeanings(items, round) == [value];
    } else {
      assert NextItem(items, tail)[1..] == SpelledItems(items[1..], tail);
      ItemsRead(items[1..], result + [value], tail, round);
      Regrouped(result, value, ItemMeanings(items[1..], round));
    }
  }

  lemma {:induction false} FieldsStart(fields: seq<Field>, tail: Text)
    requires fields != [] && IsGap(fields[0].before)
    ensures var first := SpelledField(fields[0], fields[0].after + NextField(fields, tail));
            && SkipWhitespace(SpelledFields(fields, tail)) == first && first != [] && first[0] == QUOTE
  {
    SkipGap(fields[0].before, SpelledField(fields[0], fields[0].after + NextField(fields, tail)));
  }

  /** The members already read have other names than the fields to come. */
  ghost predicate NamesNew(result: seq<Member>, fields: seq<Field>) {
    && NamesDiffer(fields)
    && forall i, j :: 0 <= i < |result| && 0 <= j < |fields| && LegalPieces(fields[j].name) ==>
         result[i].key != PiecesUnits(fields[j].name)
  }

  lemma {:induction false} FieldReads(f: Field, result: seq<Member>, tail: Text, round: Rounding)
    requires LegalField(f, round) && MayEnd(f.value, tail)
    requires forall i :: 0 <= i < |result| ==> result[i].key != PiecesUnits(f.name)
    ensures ReadMember(SpelledField(f, tail), result, round) == Read(FieldMeaning(f, round), tail)
    decreases f, 0
  {
    var valued := Spelled(f.value, tail);
    QuotedReads(f.name, f.colonBefore + ([COLON] + (f.colonAfter + valued)), round);
    SpelledStart(f.value, tail, round);
    ColonReads(f.colonBefore, f.colonAfter, valued);
    SpellingReads(f.value, tail, round);
  }

  lemma {:induction false} ColonReads(colonBefore: Text, colonAfter: Text, valued: Text)
    requires IsGap(colonBefore) && IsGap(colonAfter) && Visible(valued)
    ensures var colon := SkipWhitespace(colonBefore + ([COLON] + (colonAfter + valued)));
            StartsWith(colon, COLON) && SkipWhitespace(colon[1..]) == valued
  {
    var colon := [COLON] + (colonAfter + valued);
    SkipGap(colonBefore, colon);
    assert colon[1..] == colonAfter + valued;
    SkipGap(colonAfter, valued);
  }

  lemma {:induction false} NamesStayNew(result: seq<Member>, fields: seq<Field>, m: Member)
    requires fields != [] && LegalPieces(fields[0].name) && m.key == PiecesUnits(fields[0].name)
    requires NamesNew(result, fields)
    ensures NamesNew(result + [m], fields[1..])
  {
  }

  /** The parser steps over the first of several fields. */
  lemma {:induction false} FirstFieldReads(fields: seq<Field>, result: seq<Member>, tail: Text, round: Rounding)
    requires fields != [] && LegalFields(fields, round) && NamesNew(result, fields)
    ensures var next, all := NextField(fields, tail), result + [FieldMeaning(fields[0], round)];
            ReadMembers(SkipWhitespace(SpelledFields(fields, tail)), result, round) ==
            if StartsWith(next, CLOSE_OBJECT) then Read(Obj(all), next[1..])
            else ReadMembers(SkipWhitespace(next[1..]), all, round)
    decreases fields, 0
  {
    var f, next := fields[0], NextField(fields, tail);
    FieldsStart(fields, tail);
    GapThenMayEnd(f.value, f.after, next);
    FieldReads(f, result, f.after + next, round);
    MemberThen(SpelledField(f, f.after + next), result, round, FieldMeaning(f, round), f.after + next);
  }

  lemma {:induction false} FieldsRead(fields: seq<Field>, result: seq<Member>, tail: Text, round: Rounding)
    requires fields != [] && LegalFields(fields, round) && NamesNew(result, fields)
    ensures ReadMembers(SkipWhitespace(SpelledFields(fields, tail)), result, round) ==
            Read(Obj(result + FieldMeanings(fields, round)), tail)
    decreases fields, 1
  {
    var m := FieldMeaning(fields[0], round);
    FirstFieldReads(fields, result, tail, round);
    if |fields| == 1 {
      assert NextField(fields, tail)[1..] == tail && FieldMeanings(fields, round) == [m];
    } else {
      assert NextField(fields, tail)[1..] == SpelledFields(fields[1..], tail);
      NamesStayNew(result, fields, m);
      FieldsRead(fields[1..], result + [m], tail, round);
      Regrouped(result, m, FieldMeanings(fields[1..], round));
    }
  }

  lemma {:induction false} Regrouped<T>(a: seq<T>, b: T, c: seq<T>)
    ensures a + [b] + c == a + ([b] + c)
  {
  }
}
