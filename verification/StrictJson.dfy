/** The strict parser's grammar as functions of the remaining text: what each reader returns, what it leaves, and
    with which code and where it fails; whatever a reader returns has distinct names and well-formed strings. */
module StrictJson {
  import opened Utf16
  import opened Parsing
  import opened Numbers
  import opened Strings
  import opened Json

  function ReadLiteral(s: Text, literal: Text, value: JSON): (p: Parsed<JSON>)
    requires literal != []
    ensures p.Read? ==> |p.rest| < |s|
  {
    if literal <= s then Read(value, s[|literal|..]) else Failed(InvalidLiteral, |s|)
  }

  function ReadValue(text: Text, round: Rounding): (p: Parsed<JSON>)
    ensures p.Read? ==> |p.rest| < |text|
    decreases |text|, 3
  {
    var s := SkipWhitespace(text);
    if s == [] then Failed(UnexpectedToken, 0)
    else if s[0] == QUOTE then
      var (value, rest) :- ReadString(s);
      Read(Str(value), rest)
    else if s[0] == OPEN_OBJECT then ReadObject(s, round)
    else if s[0] == OPEN_ARRAY then ReadArray(s, round)
    else if s[0] == TRUE[0] then ReadLiteral(s, TRUE, Bool(true))
    else if s[0] == FALSE[0] then ReadLiteral(s, FALSE, Bool(false))
    else if s[0] == NULL[0] then ReadLiteral(s, NULL, Null)
    else if s[0] == 0x2D || IsDigit(s[0]) then
      var (value, rest) :- ReadNumber(s, round);
      Read(Number(value), rest)
    else Failed(UnexpectedToken, |s|)
  }

  function ReadArray(s: Text, round: Rounding): (p: Parsed<JSON>)
    requires s != []
    ensures p.Read? ==> |p.rest| < |s|
    decreases |s|, 2
  {
    var first := SkipWhitespace(s[1..]);
    if StartsWith(first, CLOSE_ARRAY) then Read(Arr([]), first[1..]) else ReadElements(first, [], round)
  }

  /** From the start of an element, after the elements in `result`. */
  function ReadElements(s: Text, result: seq<JSON>, round: Rounding): (p: Parsed<JSON>)
    ensures p.Read? ==> |p.rest| < |s|
    decreases |s|, 4
  {
    var (value, after) :- ReadValue(s, round);
    var next := SkipWhitespace(after);
    if StartsWith(next, CLOSE_ARRAY) then Read(Arr(result + [value]), next[1..])
    else if StartsWith(next, COMMA) then ReadElements(SkipWhitespace(next[1..]), result + [value], round)
    else Failed(ExpectedComma, |next|)
  }

  function KeysOf(members: seq<Member>): set<Text> {
    set m | m in members :: m.key
  }

  predicate HasKey(members: seq<Member>, key: Text) { key in KeysOf(members) }

  lemma {:induction false} ExtendKeys(result: seq<Member>, m: Member)
    ensures KeysOf(result + [m]) == KeysOf(result) + {m.key}
  {
    var all := result + [m];
    forall k | k in KeysOf(result) ensures k in KeysOf(all) {
      var x :| x in result && x.key == k;
      assert x in all;
    }
    assert m in all;
  }

  function ReadObject(s: Text, round: Rounding): (p: Parsed<JSON>)
    requires s != []
    ensures p.Read? ==> |p.rest| < |s|
    decreases |s|, 2
  {
    var first := SkipWhitespace(s[1..]);
    if StartsWith(first, CLOSE_OBJECT) then Read(Obj([]), first[1..]) else ReadMembers(first, [], round)
  }

  /** One name, colon and value, given the members already read. */
  function ReadMember(s: Text, result: seq<Member>, round: Rounding): (p: Parsed<Member>)
    ensures p.Read? ==> |p.rest| < |s|
    decreases |s|, 4
  {
    if !StartsWith(s, QUOTE) then Failed(ExpectedPropertyName, |s|)
    else
      var (key, afterKey) :- ReadString(s);
      if HasKey(result, key) then Failed(DuplicateProperty, |s|)
      else
        var colon := SkipWhitespace(afterKey);
        if !StartsWith(colon, COLON) then Failed(ExpectedColon, |colon|)
        else
          var (value, after) :- ReadValue(SkipWhitespace(colon[1..]), round);
          Read(Member(key, value), after)
  }

  /** From the start of a member name, after the members in `result`. */
  function ReadMembers(s: Text, result: seq<Member>, round: Rounding): (p: Parsed<JSON>)
    ensures p.Read? ==> |p.rest| < |s|
    decreases |s|, 5
  {
    var (member, after) :- ReadMember(s, result, round);
    var next := SkipWhitespace(after);
    if StartsWith(next, CLOSE_OBJECT) then Read(Obj(result + [member]), next[1..])
    else if StartsWith(next, COMMA) then ReadMembers(SkipWhitespace(next[1..]), result + [member], round)
    else Failed(ExpectedComma, |next|)
  }

  /** `parseJsonStrict`: one value, white space, nothing more. */
  function ParseStrict(text: Text, round: Rounding): (p: Parsed<JSON>) {
    var (value, rest) :- ReadValue(text, round);
    var end := SkipWhitespace(rest);
    if end == [] then Read(value, []) else Failed(TrailingData, |end|)
  }

  /** What happens behind an element. */
  lemma {:induction false} ElementThen(s: Text, result: seq<JSON>, round: Rounding, value: JSON, after: Text)
    requires ReadValue(s, round) == Read(value, after)
    ensures var next, all := SkipWhitespace(after), result + [value];
            ReadElements(s, result, round) ==
            if StartsWith(next, CLOSE_ARRAY) then Read(Arr(all), next[1..])
            else if StartsWith(next, COMMA) then ReadElements(SkipWhitespace(next[1..]), all, round)
            else Failed(ExpectedComma, |next|)
  {
  }

  /** What happens behind a name that is new. */
  lemma {:induction false} NameThen(s: Text, result: seq<Member>, round: Rounding, key: Text, after: Text)
    requires StartsWith(s, QUOTE) && ReadString(s) == Read(key, after) && !HasKey(result, key)
    ensures var colon := SkipWhitespace(after);
            ReadMember(s, result, round) ==
            if !StartsWith(colon, COLON) then Failed(ExpectedColon, |colon|)
            else MemberOf(key, ReadValue(SkipWhitespace(colon[1..]), round))
  {
  }

  /** The member of that name, once its value is read. */
  function MemberOf(key: Text, value: Parsed<JSON>): Parsed<Member> {
    match value
    case Read(v, rest) => Read(Member(key, v), rest)
    case Failed(code, left) => Failed(code, left)
    case Thrown(reason) => Thrown(reason)
  }

  /** What happens behind a member. */
  lemma {:induction false} MemberThen(s: Text, result: seq<Member>, round: Rounding, m: Member, after: Text)
    requires ReadMember(s, result, round) == Read(m, after)
    ensures var next, all := SkipWhitespace(after), result + [m];
            ReadMembers(s, result, round) ==
            if StartsWith(next, CLOSE_OBJECT) then Read(Obj(all), next[1..])
            else if StartsWith(next, COMMA) then ReadMembers(SkipWhitespace(next[1..]), all, round)
            else Failed(ExpectedComma, |next|)
  {
  }

  lemma {:induction false} NothingToSkip(s: Text, rest: Text)
    requires s != [] && !IsWhitespace(s[0])
    ensures SkipWhitespace(s + rest) == s + rest
  {
    assert (s + rest)[0] == s[0];
  }

  lemma {:induction false} LiteralTail(literal: Text, rest: Text)
    requires literal != []
    ensures var s := literal + rest; s[0] == literal[0] && literal <= s && s[|literal|..] == rest
  {
  }

  lemma {:induction false} LiteralReads(literal: Text, value: JSON, round: Rounding, rest: Text)
    requires (literal == NULL && value == Null) || (literal == TRUE && value == Bool(true))
             || (literal == FALSE && value == Bool(false))
    ensures ReadValue(literal + rest, round) == Read(value, rest)
  {
    LiteralTail(literal, rest);
    NothingToSkip(literal, rest);
  }

  lemma {:induction false} NumberDispatch(s: Text, round: Rounding, n: Num, rest: Text)
    requires s != [] && (s[0] == 0x2D || IsDigit(s[0])) && ReadNumber(s, round) == Read(n, rest)
    ensures ReadValue(s, round) == Read(Number(n), rest)
  {
    assert SkipWhitespace(s) == s;
    assert s[0] !in {QUOTE, OPEN_OBJECT, OPEN_ARRAY, TRUE[0], FALSE[0], NULL[0]};
  }

  // ---------------------------------------------------------------------
  // Whatever the parser returns can be canonicalized
  // ---------------------------------------------------------------------

  /** Every finite number is one the engine can hold. */
  ghost predicate Representable(v: JSON, round: Rounding) {
    match v
    case Number(n) => round(n) == n
    case Arr(items) => forall i :: 0 <= i < |items| ==> Representable(items[i], round)
    case Obj(members) => forall i :: 0 <= i < |members| ==> Representable(members[i].value, round)
    case _ => true
  }

  ghost predicate Parseable(v: JSON, round: Rounding) {
    Accepted(v) && WellFormed(v) && Representable(v, round)
  }

  ghost predicate ParseableMembers(members: seq<Member>, round: Rounding) {
    && DistinctKeys(members)
    && forall i :: 0 <= i < |members| ==> ValidUnicode(members[i].key) && Parseable(members[i].value, round)
  }

  lemma {:induction false} ReadValueParseable(s: Text, round: Rounding)
    requires IsRounding(round)
    ensures ReadValue(s, round).Read? ==> Parseable(ReadValue(s, round).value, round)
    decreases |s|, 3
  {
    var t := SkipWhitespace(s);
    if t != [] && t[0] == OPEN_OBJECT {
      var first := SkipWhitespace(t[1..]);
      if !StartsWith(first, CLOSE_OBJECT) {
        ReadMembersParseable(first, [], round);
      }
    } else if t != [] && t[0] == OPEN_ARRAY {
      var first := SkipWhitespace(t[1..]);
      if !StartsWith(first, CLOSE_ARRAY) {
        ReadElementsParseable(first, [], round);
      }
    }
  }

  lemma {:induction false} ReadElementsParseable(s: Text, result: seq<JSON>, round: Rounding)
    requires IsRounding(round)
    requires forall i :: 0 <= i < |result| ==> Parseable(result[i], round)
    ensures ReadElements(s, result, round).Read? ==> Parseable(ReadElements(s, result, round).value, round)
    decreases |s|, 4
  {
    ReadValueParseable(s, round);
    var p := ReadValue(s, round);
    if p.Read? {
      var next := SkipWhitespace(p.rest);
      if !StartsWith(next, CLOSE_ARRAY) && StartsWith(next, COMMA) {
        ReadElementsParseable(SkipWhitespace(next[1..]), result + [p.value], round);
      }
    }
  }

  lemma {:induction false} ReadMembersParseable(s: Text, result: seq<Member>, round: Rounding)
    requires IsRounding(round) && ParseableMembers(result, round)
    ensures ReadMembers(s, result, round).Read? ==> Parseable(ReadMembers(s, result, round).value, round)
    decreases |s|, 4
  {
    var p := ReadMember(s, result, round);
    if p.Read? {
      ReadValueParseable(SkipWhitespace(SkipWhitespace(ReadString(s).rest)[1..]), round);
      assert ParseableMembers(result + [p.value], round);
      var next := SkipWhitespace(p.rest);
      if !StartsWith(next, CLOSE_OBJECT) && StartsWith(next, COMMA) {
        ReadMembersParseable(SkipWhitespace(next[1..]), result + [p.value], round);
      }
    }
  }

  /** No text makes the parser fail in the surrogate check itself: every failure has a code and a position. */
  lemma {:induction false} ReadValueNeverThrows(s: Text, round: Rounding)
    ensures !ReadValue(s, round).Thrown?
    decreases |s|, 3
  {
    var t := SkipWhitespace(s);
    if t != [] && t[0] == QUOTE {
      FinalCheckNeverThrows(t[1..], []);
    } else if t != [] && t[0] == OPEN_OBJECT {
      var first := SkipWhitespace(t[1..]);
      if !StartsWith(first, CLOSE_OBJECT) {
        ReadMembersNeverThrows(first, [], round);
      }
    } else if t != [] && t[0] == OPEN_ARRAY {
      var first := SkipWhitespace(t[1..]);
      if !StartsWith(first, CLOSE_ARRAY) {
        ReadElementsNeverThrows(first, [], round);
      }
    }
  }

  lemma {:induction false} ReadElementsNeverThrows(s: Text, result: seq<JSON>, round: Rounding)
    ensures !ReadElements(s, result, round).Thrown?
    decreases |s|, 4
  {
    ReadValueNeverThrows(s, round);
    var p := ReadValue(s, round);
    if p.Read? {
      var next := SkipWhitespace(p.rest);
      if !StartsWith(next, CLOSE_ARRAY) && StartsWith(next, COMMA) {
        ReadElementsNeverThrows(SkipWhitespace(next[1..]), result + [p.value], round);
      }
    }
  }

  lemma {:induction false} ReadMembersNeverThrows(s: Text, result: seq<Member>, round: Rounding)
    ensures !ReadMembers(s, result, round).Thrown?
    decreases |s|, 4
  {
    if StartsWith(s, QUOTE) {
      FinalCheckNeverThrows(s[1..], []);
      var key := ReadString(s);
      if key.Read? && StartsWith(SkipWhitespace(key.rest), COLON) {
        ReadValueNeverThrows(SkipWhitespace(SkipWhitespace(key.rest)[1..]), round);
      }
      var p := ReadMember(s, result, round);
      if p.Read? {
        var next := SkipWhitespace(p.rest);
        if !StartsWith(next, CLOSE_OBJECT) && StartsWith(next, COMMA) {
          ReadMembersNeverThrows(SkipWhitespace(next[1..]), result + [p.value], round);
        }
      }
    }
  }
}
