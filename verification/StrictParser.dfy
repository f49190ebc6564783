/** The strict parser as it runs: a cursor over the text, each method tied to the grammar function it follows. */
module StrictParser {
  import opened Utf16
  import opened Parsing
  import opened Numbers
  import opened Strings
  import opened Json
  import opened StrictJson
  import opened LanguageExact
  import opened Mistakes
  import opened MistakesExact
  import opened Faults

  /** `Error` is the parser's own exception with its code and position, `Threw` the surrogate check's. */
  datatype Outcome<+T> = Ok(value: T) | Error(code: ErrorCode, at: int) | Threw(reason: Surrogates)

  datatype Delimiter = Closed | More | Missing

  class Parser {
    const text: Text
    const round: Rounding
    var position: nat

    constructor (text: Text, round: Rounding)
      ensures this.text == text && this.round == round && position == 0
    {
      this.text := text;
      this.round := round;
      position := 0;
    }

    ghost predicate Valid()
      reads this
    {
      position <= |text|
    }

    /** The text the cursor has not passed yet. */
    ghost function Remaining(): Text
      reads this
      requires Valid()
    {
      text[position..]
    }

    /** The outcome and the cursor say what the grammar function says. */
    ghost predicate Matches<T>(r: Outcome<T>, p: Parsed<T>)
      reads this
    {
      match p
      case Read(value, rest) => r == Ok(value) && Valid() && Remaining() == rest
      case Failed(code, left) => r == Error(code, |text| - left)
      case Thrown(reason) => r == Threw(reason)
    }

    /** Whether the unit at the cursor is `u`; past the end there is none. */
    predicate At(u: CodeUnit)
      reads this
      ensures Valid() ==> (At(u) <==> StartsWith(Remaining(), u))
    {
      position < |text| && text[position] == u
    }

    predicate AtDigit()
      reads this
      ensures Valid() ==> (AtDigit() <==> StartsWithDigit(Remaining()))
    {
      position < |text| && IsDigit(text[position])
    }

    method SkipSpaces()
      requires Valid()
      modifies this
      ensures Valid() && Remaining() == SkipWhitespace(old(Remaining()))
      ensures position >= old(position)
    {
      while position < |text| && IsWhitespace(text[position])
        invariant Valid() && position >= old(position)
        invariant SkipWhitespace(Remaining()) == SkipWhitespace(old(Remaining()))
      {
        assert text[position..][1..] == text[position + 1..];
        position := position + 1;
      }
    }

    method ParseEscape() returns (r: Outcome<Text>)
      requires Valid()
      modifies this
      ensures Matches(r, ReadEscape(old(Remaining())))
      ensures r.Ok? ==> position > old(position)
    {
      ghost var s := Remaining();
      if position >= |text| {
        return Error(InvalidEscape, position);
      }
      var escape := text[position];
      position := position + 1;
      assert text[position..] == s[1..];
      if SimpleEscape(escape).0 {
        return Ok([SimpleEscape(escape).1]);
      }
      if escape != LETTER_U {
        return Error(InvalidEscape, position - 2);
      }
      if !StartsWithHex4(text[position..]) {
        return Error(InvalidUnicodeEscape, position);
      }
      var first := Hex4(text[position..]);
      position := position + 4;
      assert text[position..] == s[5..];
      if IsHigh(first) {
        if !(position + 2 <= |text| && text[position] == BACKSLASH && text[position + 1] == LETTER_U) {
          return Error(UnpairedHighSurrogate, position);
        }
        position := position + 2;
        assert text[position..] == s[5..][2..];
        if !StartsWithHex4(text[position..]) {
          return Error(InvalidUnicodeEscape, position);
        }
        var second := Hex4(text[position..]);
        position := position + 4;
        assert text[position..] == s[5..][6..];
        if !IsLow(second) {
          return Error(UnpairedHighSurrogate, position - 4);
        }
        return Ok([first, second]);
      }
      if IsLow(first) {
        return Error(UnpairedLowSurrogate, position - 4);
      }
      return Ok([first]);
    }

    method ParseCharacter() returns (r: Outcome<Text>)
      requires position < |text|
      modifies this
      ensures Matches(r, ReadCharacter(old(Remaining())))
      ensures r.Ok? ==> position > old(position)
    {
      var character := text[position];
      ghost var s := Remaining();
      if character == BACKSLASH {
        assert s[1..] == text[position + 1..];
        position := position + 1;
        r := ParseEscape();
        return;
      }
      if character < 0x20 {
        return Error(UnescapedControlCharacter, position);
      }
      if IsHigh(character) {
        if !(position + 1 < |text| && IsLow(text[position + 1])) {
          return Error(UnpairedHighSurrogate, position);
        }
        position := position + 2;
        assert s[..2] == [text[position - 2], text[position - 1]] && s[2..] == text[position..];
        return Ok([text[position - 2], text[position - 1]]);
      }
      if IsLow(character) {
        return Error(UnpairedLowSurrogate, position);
      }
      position := position + 1;
      assert s[..1] == [character] && s[1..] == text[position..];
      return Ok([character]);
    }

    method ParseString() returns (r: Outcome<Text>)
      requires Valid()
      modifies this
      ensures Matches(r, ReadString(old(Remaining())))
      ensures r.Ok? ==> position > old(position)
    {
      if !At(QUOTE) {
        return Error(ExpectedString, position);
      }
      assert text[position..][1..] == text[position + 1..];
      position := position + 1;
      ghost var body := Remaining();
      var output: Text := [];
      while position < |text|
        invariant old(position) < position <= |text|
        invariant ReadBody(Remaining(), output) == ReadBody(body, [])
      {
        if text[position] == QUOTE {
          assert text[position..][1..] == text[position + 1..];
          position := position + 1;
          var found := AssertValidUnicode(output);
          return if found == Paired then Ok(output) else Threw(found);
        }
        var units := ParseCharacter();
        match units
        case Ok(more) => output := output + more;
        case Error(code, at) => return Error(code, at);
        case Threw(reason) => return Threw(reason);
      }
      assert Remaining() == [];
      return Error(UnterminatedString, position);
    }

    /** Moves over a run of digits. */
    method ScanDigits() returns (ds: seq<Digit>)
      requires Valid()
      modifies this
      ensures Valid() && position >= old(position)
      ensures ds == LeadingDigits(old(Remaining())) && Remaining() == AfterDigits(old(Remaining()))
    {
      ds := [];
      while AtDigit()
        invariant Valid() && position >= old(position)
        invariant ds + LeadingDigits(Remaining()) == LeadingDigits(old(Remaining()))
        invariant AfterDigits(Remaining()) == AfterDigits(old(Remaining()))
        decreases |text| - position
      {
        assert text[position..][1..] == text[position + 1..];
        ds := ds + [UnitDigit(text[position])];
        position := position + 1;
      }
      assert LeadingDigits(Remaining()) == [];
    }

    method ParseWhole() returns (r: Outcome<seq<Digit>>)
      requires Valid()
      modifies this
      ensures Matches(r, ReadWhole(old(Remaining())))
    {
      if At(0x30) {
        assert text[position..][1..] == text[position + 1..];
        position := position + 1;
        if AtDigit() {
          return Error(LeadingZero, position);
        }
        return Ok([0]);
      } else if AtDigit() {
        var ds := ScanDigits();
        return Ok(ds);
      }
      return Error(InvalidNumber, position);
    }

    method ParseFraction() returns (r: Outcome<seq<Digit>>)
      requires Valid()
      modifies this
      ensures Matches(r, ReadFraction(old(Remaining())))
    {
      if !At(0x2E) {
        return Ok([]);
      }
      assert text[position..][1..] == text[position + 1..];
      position := position + 1;
      if !AtDigit() {
        return Error(InvalidNumber, position);
      }
      var ds := ScanDigits();
      return Ok(ds);
    }

    method ParseExponent() returns (r: Outcome<int>)
      requires Valid()
      modifies this
      ensures Matches(r, ReadExponent(old(Remaining())))
    {
      if !(At(0x65) || At(0x45)) {
        return Ok(0);
      }
      ghost var s := Remaining();
      position := position + 1;
      assert Remaining() == s[1..];
      var negative := At(0x2D);
      if negative || At(0x2B) {
        position := position + 1;
        assert Remaining() == s[2..];
      }
      if !AtDigit() {
        return Error(InvalidNumber, position);
      }
      var ds := ScanDigits();
      var magnitude: int := DigitsValue(ds);
      return Ok(if negative then -magnitude else magnitude);
    }

    method ParseNumber() returns (r: Outcome<Num>)
      requires Valid()
      modifies this
      ensures Matches(r, ReadNumber(old(Remaining()), round))
    {
      var start := position;
      var negative := At(0x2D);
      if negative {
        assert text[position..][1..] == text[position + 1..];
        position := position + 1;
      }
      var whole := ParseWhole();
      if whole.Error? {
        return Error(whole.code, whole.at);
      }
      var fraction := ParseFraction();
      if fraction.Error? {
        return Error(fraction.code, fraction.at);
      }
      var exponent := ParseExponent();
      if exponent.Error? {
        return Error(exponent.code, exponent.at);
      }
      var value := round(TokenValue(Token(negative, whole.value, fraction.value, exponent.value)));
      if value.NonFinite? {
        return Error(NonFiniteNumber, start);
      }
      return Ok(value);
    }

    method ParseKeyword(keyword: Text, value: JSON) returns (r: Outcome<JSON>)
      requires Valid() && keyword != []
      modifies this
      ensures Matches(r, ReadLiteral(old(Remaining()), keyword, value))
    {
      if !(position + |keyword| <= |text| && text[position..position + |keyword|] == keyword) {
        return Error(InvalidLiteral, position);
      }
      assert text[position..][|keyword|..] == text[position + |keyword|..];
      position := position + |keyword|;
      return Ok(value);
    }

    /** Behind an element or member: the closing bracket, or a comma and the start of the next one. */
    method ParseDelimiter(close: CodeUnit) returns (end: Delimiter)
      requires Valid() && close != COMMA
      modifies this
      ensures Valid() && position >= old(position)
      ensures var next := SkipWhitespace(old(Remaining()));
              if StartsWith(next, close) then end == Closed && Remaining() == next[1..]
              else if StartsWith(next, COMMA) then end == More && Remaining() == SkipWhitespace(next[1..])
              else end == Missing && position == |text| - |next|
    {
      SkipSpaces();
      if At(close) {
        assert text[position..][1..] == text[position + 1..];
        position := position + 1;
        return Closed;
      }
      if !At(COMMA) {
        return Missing;
      }
      assert text[position..][1..] == text[position + 1..];
      position := position + 1;
      SkipSpaces();
      return More;
    }

    /** Behind a name: the colon and the start of the value. */
    method ParseColon() returns (found: bool)
      requires Valid()
      modifies this
      ensures Valid() && position >= old(position)
      ensures var colon := SkipWhitespace(old(Remaining()));
              if StartsWith(colon, COLON) then found && Remaining() == SkipWhitespace(colon[1..])
              else !found && position == |text| - |colon|
    {
      SkipSpaces();
      if !At(COLON) {
        return false;
      }
      assert text[position..][1..] == text[position + 1..];
      position := position + 1;
      SkipSpaces();
      return true;
    }

    method ParseArray() returns (r: Outcome<JSON>)
      requires position < |text|
      modifies this
      ensures Matches(r, ReadArray(old(Remaining()), round))
      decreases |text| - position, 1
    {
      assert text[position..][1..] == text[position + 1..];
      position := position + 1;
      SkipSpaces();
      if At(CLOSE_ARRAY) {
        assert text[position..][1..] == text[position + 1..];
        position := position + 1;
        return Ok(Arr([]));
      }
      ghost var whole := ReadElements(Remaining(), [], round);
      var result: seq<JSON> := [];
      while true
        invariant old(position) < position <= |text|
        invariant ReadElements(Remaining(), result, round) == whole
        decreases |text| - position
      {
        ghost var start := Remaining();
        var item := ParseValue();
        if !item.Ok? {
          return item;
        }
        ElementThen(start, result, round, item.value, Remaining());
        result := result + [item.value];
        var end := ParseDelimiter(CLOSE_ARRAY);
        if end.Closed? {
          return Ok(Arr(result));
        }
        if end.Missing? {
          return Error(ExpectedComma, position);
        }
      }
    }

    method ParseObject() returns (r: Outcome<JSON>)
      requires position < |text|
      modifies this
      ensures Matches(r, ReadObject(old(Remaining()), round))
      decreases |text| - position, 1
    {
      assert text[position..][1..] == text[position + 1..];
      position := position + 1;
      SkipSpaces();
      if At(CLOSE_OBJECT) {
        assert text[position..][1..] == text[position + 1..];
        position := position + 1;
        return Ok(Obj([]));
      }
      r := ParseMembers();
    }

    method ParseMembers() returns (r: Outcome<JSON>)
      requires Valid()
      modifies this
      ensures Matches(r, ReadMembers(old(Remaining()), [], round))
      decreases |text| - position, 4
    {
      ghost var whole := ReadMembers(Remaining(), [], round);
      var result: seq<Member> := [];
      var keys: set<Text> := {};
      while true
        invariant old(position) <= position <= |text|
        invariant keys == KeysOf(result)
        invariant ReadMembers(Remaining(), result, round) == whole
        decreases |text| - position
      {
        ghost var start := Remaining();
        var member := ParseMember(keys, result);
        if !member.Ok? {
          return if member.Error? then Error(member.code, member.at) else Threw(member.reason);
        }
        MemberThen(start, result, round, member.value, Remaining());
        ExtendKeys(result, member.value);
        keys := keys + {member.value.key};
        result := result + [member.value];
        var end := ParseDelimiter(CLOSE_OBJECT);
        if end.Closed? {
          return Ok(Obj(result));
        }
        if end.Missing? {
          return Error(ExpectedComma, position);
        }
      }
    }

    /** One name, colon and value; `keys` are the names already used in this object. */
    method ParseMember(keys: set<Text>, ghost result: seq<Member>) returns (r: Outcome<Member>)
      requires Valid()
      requires keys == KeysOf(result)
      modifies this
      ensures Matches(r, ReadMember(old(Remaining()), result, round))
      decreases |text| - position, 3
    {
      if !At(QUOTE) {
        return Error(ExpectedPropertyName, position);
      }
      ghost var start := Remaining();
      var keyPosition := position;
      var name := ParseString();
      if !name.Ok? {
        return if name.Error? then Error(name.code, name.at) else Threw(name.reason);
      }
      var key := name.value;
      if key in keys {
        return Error(DuplicateProperty, keyPosition);
      }
      NameThen(start, result, round, key, Remaining());
      var colon := ParseColon();
      if !colon {
        return Error(ExpectedColon, position);
      }
      var value := ParseValue();
      return match value
        case Ok(v) => Ok(Member(key, v))
        case Error(code, at) => Error(code, at)
        case Threw(why) => Threw(why);
    }

    method ParseValue() returns (r: Outcome<JSON>)
      requires Valid()
      modifies this
      ensures Matches(r, ReadValue(old(Remaining()), round))
      decreases |text| - position, 2
    {
      SkipSpaces();
      if At(QUOTE) {
        var s := ParseString();
        return match s
          case Ok(value) => Ok(Str(value))
          case Error(code, at) => Error(code, at)
          case Threw(why) => Threw(why);
      }
      if At(OPEN_OBJECT) {
        r := ParseObject();
        return;
      }
      if At(OPEN_ARRAY) {
        r := ParseArray();
        return;
      }
      if At(TRUE[0]) {
        r := ParseKeyword(TRUE, Bool(true));
        return;
      }
      if At(FALSE[0]) {
        r := ParseKeyword(FALSE, Bool(false));
        return;
      }
      if At(NULL[0]) {
        r := ParseKeyword(NULL, Null);
        return;
      }
      if At(0x2D) || AtDigit() {
        var n := ParseNumber();
        return match n
          case Ok(value) => Ok(Number(value))
          case Error(code, at) => Error(code, at)
          case Threw(why) => Threw(why);
      }
      return Error(UnexpectedToken, position);
    }
  }

  /** The result the grammar gives, as the parser reports it. */
  ghost predicate IsOutcome(text: Text, round: Rounding, r: Outcome<JSON>) {
    match ParseStrict(text, round)
    case Read(value, _) => r == Ok(value)
    case Failed(code, left) => r == Error(code, |text| - left)
    case Thrown(_) => false
  }

  lemma {:induction false} FaultPlaced(text: Text, round: Rounding)
    requires ParseStrict(text, round).Failed?
    ensures var p := ParseStrict(text, round);
            && p.left <= |text| && MayContinue(text[..|text| - p.left])
            && (SettledByUnit(p.code) || p.left == 0 ==>
                  forall k :: 0 <= k <= |text| ==> (MayContinue(text[..k]) <==> k <= |text| - p.left))
  {
    var p := ParseStrict(text, round);
    FaultIsFirst(text, round);
    if SettledByUnit(p.code) || p.left == 0 {
      forall k | 0 <= k <= |text| ensures MayContinue(text[..k]) <==> k <= |text| - p.left {
        FaultIsExact(text, round, k);
      }
    }
  }

  lemma {:induction false} ValueMeans(text: Text, round: Rounding, r: Outcome<JSON>, v: JSON)
    requires IsOutcome(text, round, r)
    ensures r == Ok(v) <==> SpellsText(text, v, round)
  {
    ParserAcceptsExactly(text, v, round);
    ReadValueNeverThrows(text, round);
  }

  lemma {:induction false} CodeMeans(text: Text, round: Rounding, r: Outcome<JSON>, code: ErrorCode, at: int)
    requires IsOutcome(text, round, r)
    ensures r == Error(code, at) <==> at <= |text| && Earns(text, code, |text| - at, round)
  {
    if r.Error? {
      FaultPlaced(text, round);
    }
    if at <= |text| {
      ParserFailsExactly(text, code, |text| - at, round);
    }
  }

  lemma {:induction false} PlaceMeans(text: Text, round: Rounding, r: Outcome<JSON>)
    requires IsOutcome(text, round, r) && r.Error?
    ensures 0 <= r.at <= |text| && MayContinue(text[..r.at])
    ensures SettledByUnit(r.code) || r.at == |text| ==>
              forall k :: 0 <= k <= |text| ==> (MayContinue(text[..k]) <==> k <= r.at)
  {
    FaultPlaced(text, round);
    assert r.at == |text| - ParseStrict(text, round).left && r.code == ParseStrict(text, round).code;
  }

  /** `parseJsonStrict`: the value the text spells, or else the code and position the text earns by being wrong. In
      front of the position the text is the beginning of some JSON text, and where one unit settles the fault it
      is not from there on. */
  method ParseJsonStrict(text: Text, round: Rounding) returns (r: Outcome<JSON>)
    ensures IsOutcome(text, round, r)
    ensures forall v :: r == Ok(v) <==> SpellsText(text, v, round)
    ensures forall code, at :: r == Error(code, at) <==> at <= |text| && Earns(text, code, |text| - at, round)
    ensures r.Error? ==> 0 <= r.at <= |text| && MayContinue(text[..r.at])
    ensures r.Error? && (SettledByUnit(r.code) || r.at == |text|) ==>
              forall k :: 0 <= k <= |text| ==> (MayContinue(text[..k]) <==> k <= r.at)
  {
    ReadValueNeverThrows(text, round);
    var parser := new Parser(text, round);
    assert parser.Remaining() == text;
    r := parser.ParseValue();
    if r.Ok? {
      parser.SkipSpaces();
      if parser.position != |text| {
        r := Error(TrailingData, parser.position);
      }
    }
    forall v ensures r == Ok(v) <==> SpellsText(text, v, round) {
      ValueMeans(text, round, r, v);
    }
    forall code, at ensures r == Error(code, at) <==> at <= |text| && Earns(text, code, |text| - at, round) {
      CodeMeans(text, round, r, code, at);
    }
    if r.Error? {
      PlaceMeans(text, round, r);
    }
  }
}
