/** JSON values as JavaScript holds them, and the canonical text of section 12 of the bundle specification. */
module Json {
  import opened Utf16
  import opened Sorting
  import opened Numbers
  import opened Strings

  /** `Unsupported` is what has no JSON form: undefined, a function, a symbol, a bigint. */
  datatype JSON =
    | Null
    | Bool(b: bool)
    | Number(n: Num)
    | Str(text: Text)
    | Arr(items: seq<JSON>)
    | Obj(members: seq<Member>)
    | Unsupported

  datatype Member = Member(key: Text, value: JSON)

  // ---------------------------------------------------------------------
  // What a JavaScript object guarantees
  // ---------------------------------------------------------------------

  ghost predicate DistinctKeys(members: seq<Member>) {
    forall i, j :: 0 <= i < j < |members| ==> members[i].key != members[j].key
  }

  /** No object at any depth has two members of one name. */
  ghost predicate WellFormed(v: JSON) {
    match v
    case Arr(items) => forall i :: 0 <= i < |items| ==> WellFormed(items[i])
    case Obj(members) =>
      DistinctKeys(members) && forall i :: 0 <= i < |members| ==> WellFormed(members[i].value)
    case _ => true
  }

  /** Equal up to the order of members at every depth, and up to the sign of zero. */
  ghost predicate Same(a: JSON, b: JSON) {
    match a
    case Number(n) => b.Number? && UnsignedZero(n) == UnsignedZero(b.n)
    case Arr(items) =>
      b.Arr? && |items| == |b.items| && forall i :: 0 <= i < |items| ==> Same(items[i], b.items[i])
    case Obj(members) =>
      && b.Obj? && |members| == |b.members|
      && forall i :: 0 <= i < |members| ==> HasPartner(members[i], b.members)
    case _ => a == b
  }

  ghost predicate HasPartner(m: Member, others: seq<Member>) {
    exists j :: 0 <= j < |others| && m.key == others[j].key && Same(m.value, others[j].value)
  }

  // ---------------------------------------------------------------------
  // Canonical text
  // ---------------------------------------------------------------------

  datatype Rejection = NotFinite | IllFormedText(found: Surrogates) | UnsupportedValue

  datatype Canonical = Canon(text: Text) | Rejected(why: Rejection) {
    predicate IsFailure() { Rejected? }

    function PropagateFailure(): Canonical
      requires Rejected?
    {
      this
    }

    function Extract(): Text
      requires Canon?
    {
      text
    }
  }

  predicate KeyLeq(a: Member, b: Member) { Compare(a.key, b.key) <= 0 }

  function SortMembers(members: seq<Member>): seq<Member> { Sort(members, KeyLeq) }

  function Size(v: JSON): nat {
    match v
    case Arr(items) => 1 + ItemsSize(items)
    case Obj(members) => 1 + MembersSize(members)
    case _ => 0
  }

  function ItemsSize(items: seq<JSON>): nat {
    if items == [] then 0 else 1 + Size(items[0]) + ItemsSize(items[1..])
  }

  function MembersSize(members: seq<Member>): nat {
    if members == [] then 0 else 1 + Size(members[0].value) + MembersSize(members[1..])
  }

  const NULL: Text := [0x6E, 0x75, 0x6C, 0x6C]
  const TRUE: Text := [0x74, 0x72, 0x75, 0x65]
  const FALSE: Text := [0x66, 0x61, 0x6C, 0x73, 0x65]
  const COLON: CodeUnit := 0x3A
  const OPEN_OBJECT: CodeUnit := 0x7B
  const CLOSE_OBJECT: CodeUnit := 0x7D

  function Canonicalize(v: JSON): Canonical
    decreases Size(v), 1
  {
    match v
    case Null => Canon(NULL)
    case Bool(b) => Canon(if b then TRUE else FALSE)
    case Number(n) => if n.Finite? then Canon(PrintNumber(n)) else Rejected(NotFinite)
    case Str(text) => CanonicalString(text)
    case Arr(items) =>
      var body :- CanonicalizeItems(items);
      Canon([OPEN_ARRAY] + body + [CLOSE_ARRAY])
    case Obj(members) =>
      var sorted := SortMembers(members);
      SortKeepsSize(members);
      var body :- CanonicalizeMembers(sorted);
      Canon([OPEN_OBJECT] + body + [CLOSE_OBJECT])
    case Unsupported => Rejected(UnsupportedValue)
  }

  function CanonicalString(text: Text): Canonical {
    if ValidUnicode(text) then Canon(Quote(text)) else Rejected(IllFormedText(CheckUnicode(text)))
  }

  /** The elements in order, joined by commas. */
  function CanonicalizeItems(items: seq<JSON>): Canonical
    decreases ItemsSize(items), 0
  {
    if items == [] then Canon([])
    else
      var first :- Canonicalize(items[0]);
      if |items| == 1 then Canon(first)
      else
        var rest :- CanonicalizeItems(items[1..]);
        Canon(first + ([COMMA] + rest))
  }

  function CanonicalizeMember(m: Member): Canonical
    decreases Size(m.value), 2
  {
    var key :- CanonicalString(m.key);
    var value :- Canonicalize(m.value);
    Canon(key + ([COLON] + value))
  }

  /** The members in the order given, joined by commas. */
  function CanonicalizeMembers(members: seq<Member>): Canonical
    decreases MembersSize(members), 0
  {
    if members == [] then Canon([])
    else
      var first :- CanonicalizeMember(members[0]);
      if |members| == 1 then Canon(first)
      else
        var rest :- CanonicalizeMembers(members[1..]);
        Canon(first + ([COMMA] + rest))
  }

  lemma {:induction false} InsertSize(m: Member, members: seq<Member>)
    ensures MembersSize(Insert(m, members, KeyLeq)) == MembersSize([m] + members)
  {
    var s := Insert(m, members, KeyLeq);
    assert ([m] + members)[1..] == members;
    if members != [] && !KeyLeq(m, members[0]) {
      InsertSize(m, members[1..]);
      assert s[1..] == Insert(m, members[1..], KeyLeq);
      assert ([m] + members[1..])[1..] == members[1..];
    }
  }

  lemma {:induction false} SortKeepsSize(members: seq<Member>)
    ensures MembersSize(SortMembers(members)) == MembersSize(members)
  {
    if members != [] {
      SortKeepsSize(members[1..]);
      InsertSize(members[0], SortMembers(members[1..]));
      assert ([members[0]] + SortMembers(members[1..]))[1..] == SortMembers(members[1..]);
    }
  }

  // ---------------------------------------------------------------------
  // What is accepted
  // ---------------------------------------------------------------------

  /** Every number finite, every string and key free of unpaired surrogates, nothing without a JSON form. */
  ghost predicate Accepted(v: JSON) {
    match v
    case Number(n) => n.Finite?
    case Str(text) => ValidUnicode(text)
    case Arr(items) => forall i :: 0 <= i < |items| ==> Accepted(items[i])
    case Obj(members) => forall i :: 0 <= i < |members| ==> AcceptedMember(members[i])
    case Unsupported => false
    case _ => true
  }

  ghost predicate AcceptedMember(m: Member) {
    ValidUnicode(m.key) && Accepted(m.value)
  }

  lemma {:induction false} SortMembership(members: seq<Member>)
    ensures forall m :: m in SortMembers(members) <==> m in members
    ensures |SortMembers(members)| == |members|
  {
    SortPermutes(members, KeyLeq);
    PermutationMembers(SortMembers(members), members);
  }

  /** Canonicalization succeeds exactly on accepted values. */
  lemma {:induction false} SucceedsExactlyOnAccepted(v: JSON)
    ensures Canonicalize(v).Canon? <==> Accepted(v)
    decreases Size(v), 1
  {
    match v
    case Arr(items) => ItemsSucceed(items);
    case Obj(members) =>
      SortKeepsSize(members);
      MembersSucceed(SortMembers(members));
      SortMembership(members);
      var sorted := SortMembers(members);
      assert (forall i :: 0 <= i < |sorted| ==> AcceptedMember(sorted[i])) <==>
             (forall m :: m in sorted ==> AcceptedMember(m));
      assert (forall i :: 0 <= i < |members| ==> AcceptedMember(members[i])) <==>
             (forall m :: m in members ==> AcceptedMember(m));
    case _ =>
  }

  lemma {:induction false} ItemsSucceed(items: seq<JSON>)
    ensures CanonicalizeItems(items).Canon? <==> forall i :: 0 <= i < |items| ==> Accepted(items[i])
    decreases ItemsSize(items), 0
  {
    if items != [] {
      SucceedsExactlyOnAccepted(items[0]);
      ItemsSucceed(items[1..]);
      assert forall i :: 0 < i < |items| ==> items[i] == items[1..][i - 1];
    }
  }

  lemma {:induction false} MembersSucceed(members: seq<Member>)
    ensures CanonicalizeMembers(members).Canon? <==> forall i :: 0 <= i < |members| ==> AcceptedMember(members[i])
    decreases MembersSize(members), 0
  {
    if members != [] {
      SucceedsExactlyOnAccepted(members[0].value);
      MembersSucceed(members[1..]);
      assert forall i :: 0 < i < |members| ==> members[i] == members[1..][i - 1];
    }
  }

  // ---------------------------------------------------------------------
  // Normal forms
  // ---------------------------------------------------------------------

  /** Members sorted at every depth, every zero unsigned. */
  function Normal(v: JSON): JSON {
    match v
    case Number(n) => Number(UnsignedZero(n))
    case Arr(items) => Arr(NormalItems(items))
    case Obj(members) => Obj(SortMembers(NormalMembers(members)))
    case _ => v
  }

  function NormalItems(items: seq<JSON>): (r: seq<JSON>)
    ensures |r| == |items|
    ensures forall i :: 0 <= i < |r| ==> r[i] == Normal(items[i])
  {
    if items == [] then [] else [Normal(items[0])] + NormalItems(items[1..])
  }

  function NormalMembers(members: seq<Member>): (r: seq<Member>)
    ensures |r| == |members|
    ensures forall i :: 0 <= i < |r| ==> r[i] == Member(members[i].key, Normal(members[i].value))
  {
    if members == [] then []
    else [Member(members[0].key, Normal(members[0].value))] + NormalMembers(members[1..])
  }

  lemma {:induction false} KeyLeqOrders()
    ensures Ordering(KeyLeq)
  {
    forall a: Member, b: Member ensures KeyLeq(a, b) || KeyLeq(b, a) {
      CompareIsLexicographic(a.key, b.key);
    }
    forall a: Member, b: Member, c: Member | KeyLeq(a, b) && KeyLeq(b, c) ensures KeyLeq(a, c) {
      CompareTransitive(a.key, b.key, c.key);
    }
  }

  lemma {:induction false} DistinctKeysToldApart(members: seq<Member>)
    requires DistinctKeys(members)
    ensures ToldApart(members, KeyLeq) && NoRepeats(members)
  {
    forall i, j | 0 <= i < |members| && 0 <= j < |members| && i != j
      ensures !(KeyLeq(members[i], members[j]) && KeyLeq(members[j], members[i]))
    {
      CompareIsLexicographic(members[i].key, members[j].key);
      assert members[i].key != members[j].key;
    }
  }

  lemma {:induction false} InsertCommutesWithNormal(m: Member, members: seq<Member>)
    ensures NormalMembers(Insert(m, members, KeyLeq)) ==
            Insert(Member(m.key, Normal(m.value)), NormalMembers(members), KeyLeq)
  {
    if members == [] || KeyLeq(m, members[0]) {
      assert ([m] + members)[1..] == members;
    } else {
      var s := Insert(m, members, KeyLeq);
      assert s[1..] == Insert(m, members[1..], KeyLeq);
      InsertCommutesWithNormal(m, members[1..]);
      assert NormalMembers(members)[1..] == NormalMembers(members[1..]);
    }
  }

  lemma {:induction false} SortCommutesWithNormal(members: seq<Member>)
    ensures SortMembers(NormalMembers(members)) == NormalMembers(SortMembers(members))
  {
    if members != [] {
      SortCommutesWithNormal(members[1..]);
      InsertCommutesWithNormal(members[0], SortMembers(members[1..]));
      assert NormalMembers(members)[1..] == NormalMembers(members[1..]);
    }
  }

  /** The canonical text, or the reason there is none, depends on the normal form only. */
  lemma {:induction false} CanonicalizeNormal(v: JSON)
    ensures Canonicalize(Normal(v)) == Canonicalize(v)
    decreases Size(v), 1
  {
    match v
    case Arr(items) => CanonicalizeNormalItems(items);
    case Obj(members) =>
      var sorted := SortMembers(members);
      SortKeepsSize(members);
      SortCommutesWithNormal(members);
      KeyLeqOrders();
      SortOrders(NormalMembers(members), KeyLeq);
      SortFixesOrdered(SortMembers(NormalMembers(members)), KeyLeq);
      CanonicalizeNormalMembers(sorted);
    case _ =>
  }

  lemma {:induction false} CanonicalizeNormalItems(items: seq<JSON>)
    ensures CanonicalizeItems(NormalItems(items)) == CanonicalizeItems(items)
    decreases ItemsSize(items), 0
  {
    if items != [] {
      CanonicalizeNormal(items[0]);
      CanonicalizeNormalItems(items[1..]);
      assert NormalItems(items)[1..] == NormalItems(items[1..]);
    }
  }

  lemma {:induction false} CanonicalizeNormalMembers(members: seq<Member>)
    ensures CanonicalizeMembers(NormalMembers(members)) == CanonicalizeMembers(members)
    decreases MembersSize(members), 0
  {
    if members != [] {
      CanonicalizeNormal(members[0].value);
      CanonicalizeNormalMembers(members[1..]);
      assert NormalMembers(members)[1..] == NormalMembers(members[1..]);
    }
  }

  /** Two values have one normal form exactly when they are equal up to member order. */
  lemma {:induction false} NormalDecidesSame(a: JSON, b: JSON)
    requires WellFormed(a) && WellFormed(b)
    ensures Normal(a) == Normal(b) <==> Same(a, b)
    decreases a
  {
    match (a, b)
    case (Arr(xs), Arr(ys)) =>
      if |xs| == |ys| {
        forall i | 0 <= i < |xs| ensures Normal(xs[i]) == Normal(ys[i]) <==> Same(xs[i], ys[i]) {
          NormalDecidesSame(xs[i], ys[i]);
        }
        assert NormalItems(xs) == NormalItems(ys) <==> forall i :: 0 <= i < |xs| ==> Normal(xs[i]) == Normal(ys[i]);
      }
    case (Obj(xs), Obj(ys)) =>
      forall i, j | 0 <= i < |xs| && 0 <= j < |ys|
        ensures Normal(xs[i].value) == Normal(ys[j].value) <==> Same(xs[i].value, ys[j].value)
      {
        NormalDecidesSame(xs[i].value, ys[j].value);
      }
      NormalObjectsDecideSame(xs, ys);
    case _ =>
  }

  lemma {:induction false} NormalObjectsDecideSame(xs: seq<Member>, ys: seq<Member>)
    requires DistinctKeys(xs) && DistinctKeys(ys)
    requires forall i, j :: 0 <= i < |xs| && 0 <= j < |ys| ==>
               (Normal(xs[i].value) == Normal(ys[j].value) <==> Same(xs[i].value, ys[j].value))
    ensures Normal(Obj(xs)) == Normal(Obj(ys)) <==> Same(Obj(xs), Obj(ys))
  {
    var ns, ms := NormalMembers(xs), NormalMembers(ys);
    forall i | 0 <= i < |xs| ensures HasPartner(xs[i], ys) <==> ns[i] in ms {
      if HasPartner(xs[i], ys) {
        var j :| 0 <= j < |ys| && xs[i].key == ys[j].key && Same(xs[i].value, ys[j].value);
        assert ms[j] == ns[i];
      }
      if ns[i] in ms {
        var j :| 0 <= j < |ms| && ms[j] == ns[i];
        assert xs[i].key == ys[j].key && Same(xs[i].value, ys[j].value);
      }
    }
    SortedDecidesContained(ns, ms);
  }

  /** Sorting decides whether two lists of distinctly named members hold the same members. */
  lemma {:induction false} SortedDecidesContained(xs: seq<Member>, ys: seq<Member>)
    requires DistinctKeys(xs) && DistinctKeys(ys)
    ensures SortMembers(xs) == SortMembers(ys) <==>
            |xs| == |ys| && forall i :: 0 <= i < |xs| ==> xs[i] in ys
  {
    DistinctKeysToldApart(xs);
    DistinctKeysToldApart(ys);
    KeyLeqOrders();
    SortMembership(xs);
    SortMembership(ys);
    if SortMembers(xs) == SortMembers(ys) {
      forall i | 0 <= i < |xs| ensures xs[i] in ys {
        assert xs[i] in SortMembers(xs);
      }
    }
    if |xs| == |ys| && forall i :: 0 <= i < |xs| ==> xs[i] in ys {
      ContainedIsPermutation(xs, ys);
      SortForgetsArrangement(xs, ys, KeyLeq);
    }
  }

  lemma {:induction false} SameElementsSameLength(xs: seq<Member>, ys: seq<Member>)
    requires DistinctKeys(xs) && DistinctKeys(ys) && forall m :: m in xs <==> m in ys
    ensures |xs| == |ys|
  {
    DistinctKeysToldApart(xs);
    DistinctKeysToldApart(ys);
    NoRepeatsCounts(xs);
    NoRepeatsCounts(ys);
    assert Elements(xs) == Elements(ys);
  }

  /** The text of an object is that of its set of members. */
  lemma {:induction false} SameMembersSameText(xs: seq<Member>, ys: seq<Member>)
    requires DistinctKeys(xs) && DistinctKeys(ys) && forall m :: m in xs <==> m in ys
    ensures Canonicalize(Obj(xs)) == Canonicalize(Obj(ys))
  {
    SameElementsSameLength(xs, ys);
    SortedDecidesContained(xs, ys);
    SortKeepsSize(xs);
    SortKeepsSize(ys);
  }

  /** Names in strictly ascending order, as section 3.2.3 of RFC 8785 asks. */
  ghost predicate KeysAscend(members: seq<Member>) {
    forall i, j :: 0 <= i < j < |members| ==> Precedes(members[i].key, members[j].key)
  }

  lemma {:induction false} KeysAscendIsOrdered(members: seq<Member>)
    requires DistinctKeys(members)
    ensures KeysAscend(members) <==> Ordered(members, KeyLeq)
  {
    forall i, j | 0 <= i < j < |members|
      ensures Precedes(members[i].key, members[j].key) <==> KeyLeq(members[i], members[j])
    {
      CompareIsLexicographic(members[i].key, members[j].key);
      assert members[i].key != members[j].key;
    }
  }

  lemma {:induction false} DistinctKeysPermute(members: seq<Member>, arranged: seq<Member>)
    requires DistinctKeys(members) && Permutation(members, arranged)
    ensures DistinctKeys(arranged)
  {
    DistinctKeysToldApart(members);
    KeyLeqOrders();
    ToldApartPermutes(members, arranged, KeyLeq);
    forall i, j | 0 <= i < j < |arranged| ensures arranged[i].key != arranged[j].key {
      CompareIsLexicographic(arranged[i].key, arranged[j].key);
      CompareIsLexicographic(arranged[j].key, arranged[i].key);
    }
  }

  /** The one rearrangement of distinctly named members with ascending names, whatever algorithm finds it. */
  lemma {:induction false} SortedMembersUnique(members: seq<Member>, arranged: seq<Member>)
    requires DistinctKeys(members)
    ensures Permutation(members, arranged) && KeysAscend(arranged) <==> arranged == SortMembers(members)
  {
    var sorted := SortMembers(members);
    DistinctKeysToldApart(members);
    KeyLeqOrders();
    SortOrders(members, KeyLeq);
    SortPermutes(members, KeyLeq);
    if Permutation(members, arranged) {
      DistinctKeysPermute(members, arranged);
      KeysAscendIsOrdered(arranged);
      if Ordered(arranged, KeyLeq) {
        ToldApartPermutes(members, arranged, KeyLeq);
        OrderedArrangementUnique(arranged, sorted, KeyLeq);
      }
    }
  }
}
