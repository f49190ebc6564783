/** Reading and writing members of JavaScript objects, and the JSON clone the builders start from: what it keeps,
    what it drops, what it turns into null, and that a clone of a clone is itself. */
module Objects {
  import opened Utf16
  import opened Numbers
  import opened Json
  import Sorting

  datatype Option<+T> = None | Some(value: T)

  /** `members[key]`. */
  function Get(members: seq<Member>, key: Text): Option<JSON> {
    if members == [] then None
    else if members[0].key == key then Some(members[0].value)
    else Get(members[1..], key)
  }

  /** `value[key]` for any value that is not null or undefined. */
  function Property(v: JSON, key: Text): Option<JSON> {
    if v.Obj? then Get(v.members, key) else None
  }

  /** `members[key] = value`: in place when the name is there, at the end otherwise. */
  function Set(members: seq<Member>, key: Text, value: JSON): seq<Member> {
    if members == [] then [Member(key, value)]
    else if members[0].key == key then [Member(key, value)] + members[1..]
    else [members[0]] + Set(members[1..], key, value)
  }

  /** The members under any other name, in their order. */
  function Without(members: seq<Member>, key: Text): seq<Member> {
    if members == [] then []
    else if members[0].key == key then Without(members[1..], key)
    else [members[0]] + Without(members[1..], key)
  }

  lemma {:induction false} WithoutMembers(members: seq<Member>, key: Text)
    ensures forall m :: m in Without(members, key) <==> m in members && m.key != key
    ensures DistinctKeys(members) ==> DistinctKeys(Without(members, key))
  {
    if members != [] {
      WithoutMembers(members[1..], key);
      var r := Without(members[1..], key);
      assert members == [members[0]] + members[1..];
      if DistinctKeys(members) {
        assert forall i :: 0 <= i < |r| ==> r[i] in members[1..];
        assert forall i :: 0 <= i < |members[1..]| ==> members[1..][i].key != members[0].key;
      }
    }
  }

  lemma {:induction false} WithoutAfterSet(members: seq<Member>, key: Text, value: JSON)
    ensures Without(Set(members, key, value), key) == Without(members, key)
  {
    if members != [] {
      if members[0].key != key {
        WithoutAfterSet(members[1..], key, value);
        assert Set(members, key, value)[1..] == Set(members[1..], key, value);
      }
    }
  }

  lemma {:induction false} SetKeepsDistinct(members: seq<Member>, key: Text, value: JSON)
    requires DistinctKeys(members)
    ensures DistinctKeys(Set(members, key, value))
    ensures forall k :: k != key ==> Get(Set(members, key, value), k) == Get(members, k)
    ensures Get(Set(members, key, value), key) == Some(value)
    ensures forall m :: m in Set(members, key, value) ==> m in members || m == Member(key, value)
  {
    var r := Set(members, key, value);
    if members != [] && members[0].key != key {
      SetKeepsDistinct(members[1..], key, value);
      assert r[1..] == Set(members[1..], key, value);
      forall i | 0 < i < |r| ensures r[i].key != members[0].key {
        assert r[i] in r[1..];
      }
    } else if members != [] {
      assert r[1..] == members[1..];
    }
  }

  lemma {:induction false} SetTwice(members: seq<Member>, key: Text, value: JSON)
    ensures Set(Set(members, key, value), key, value) == Set(members, key, value)
  {
    if members != [] && members[0].key != key {
      SetTwice(members[1..], key, value);
      assert Set(members, key, value)[1..] == Set(members[1..], key, value);
    }
  }

  lemma {:induction false} GetFinds(members: seq<Member>, i: nat)
    requires DistinctKeys(members) && i < |members|
    ensures Get(members, members[i].key) == Some(members[i].value)
  {
    if i > 0 {
      assert members[0].key != members[i].key;
      GetFinds(members[1..], i - 1);
    }
  }

  lemma {:induction false} AllAnswer(members: seq<Member>)
    requires DistinctKeys(members)
    ensures forall i :: 0 <= i < |members| ==> Get(members, members[i].key) == Some(members[i].value)
  {
    forall i | 0 <= i < |members| ensures Get(members, members[i].key) == Some(members[i].value) {
      GetFinds(members, i);
    }
  }

  lemma {:induction false} GetIsMember(members: seq<Member>, key: Text)
    ensures Get(members, key).Some? ==> Member(key, Get(members, key).value) in members
    ensures Get(members, key).None? ==> forall m :: m in members ==> m.key != key
  {
    if members != [] && members[0].key != key {
      GetIsMember(members[1..], key);
    }
  }

  /** An object with a member of this name and value. */
  ghost predicate Holds(v: JSON, name: Text, value: JSON) {
    v.Obj? && Member(name, value) in v.members
  }

  /** A property is read as what the object holds, and as nothing exactly when it holds nothing of that name. */
  lemma {:induction false} HoldsExactly(v: JSON, name: Text, value: JSON)
    requires v.Obj? ==> DistinctKeys(v.members)
    ensures Property(v, name) == Some(value) <==> Holds(v, name, value)
    ensures Property(v, name) == None <==> forall other :: !Holds(v, name, other)
  {
    if v.Obj? {
      GetIsMember(v.members, name);
      forall other | Holds(v, name, other) ensures Property(v, name) == Some(other) {
        var i :| 0 <= i < |v.members| && v.members[i] == Member(name, other);
        GetFinds(v.members, i);
      }
      if Property(v, name).Some? {
        assert Holds(v, name, Property(v, name).value);
      }
    }
  }

  /** Assignment replaces the value where the name stands, and puts a new name behind the others. */
  lemma {:induction false} SetInPlace(front: seq<Member>, back: seq<Member>, key: Text, found: JSON, value: JSON)
    requires forall m :: m in front ==> m.key != key
    ensures Set(front, key, value) == front + [Member(key, value)]
    ensures Set(front + ([Member(key, found)] + back), key, value) == front + ([Member(key, value)] + back)
  {
    var whole := front + ([Member(key, found)] + back);
    if front == [] {
      assert whole == [Member(key, found)] + back;
      assert whole[1..] == back;
    } else {
      assert front[0] in front && whole[0] == front[0];
      assert whole[1..] == front[1..] + ([Member(key, found)] + back);
      SetInPlace(front[1..], back, key, found, value);
      assert front == [front[0]] + front[1..];
    }
  }

  // ---------------------------------------------------------------------
  // Sameness, member by member
  // ---------------------------------------------------------------------

  /** Equal objects answer every name alike. */
  lemma {:induction false} SameObjectsAgree(a: seq<Member>, b: seq<Member>, key: Text)
    requires DistinctKeys(a) && DistinctKeys(b) && Same(Obj(a), Obj(b))
    ensures Get(a, key).Some? ==> Get(b, key).Some? && Same(Get(a, key).value, Get(b, key).value)
  {
    GetIsMember(a, key);
    if Get(a, key).Some? {
      var i :| 0 <= i < |a| && a[i] == Member(key, Get(a, key).value);
      assert HasPartner(a[i], b);
      var j :| 0 <= j < |b| && a[i].key == b[j].key && Same(a[i].value, b[j].value);
      GetFinds(b, j);
    }
  }

  function Names(members: seq<Member>): (r: seq<Text>) {
    seq(|members|, i requires 0 <= i < |members| => members[i].key)
  }

  /** Partners go both ways: no name is repeated on the other side, and every member there is one. */
  lemma {:induction false} PartnersBack(a: seq<Member>, b: seq<Member>, j: nat) returns (i: nat)
    requires DistinctKeys(a) && Same(Obj(a), Obj(b)) && j < |b|
    ensures DistinctKeys(b)
    ensures i < |a| && a[i].key == b[j].key && Same(a[i].value, b[j].value)
  {
    forall name | name in Names(a) ensures name in Names(b) {
      var k :| 0 <= k < |a| && Names(a)[k] == name;
      assert HasPartner(a[k], b);
      var l :| 0 <= l < |b| && a[k].key == b[l].key && Same(a[k].value, b[l].value);
      assert Names(b)[l] == name;
    }
    Sorting.ContainedIsPermutation(Names(a), Names(b));
    forall k, l | 0 <= k < l < |b| ensures b[k].key != b[l].key {
      assert Names(b)[k] != Names(b)[l];
    }
    Sorting.PermutationMembers(Names(a), Names(b));
    assert Names(b)[j] in Names(a);
    i :| 0 <= i < |a| && Names(a)[i] == Names(b)[j];
    assert HasPartner(a[i], b);
  }

  /** What equals a well-formed value is well-formed. */
  lemma {:induction false} SameIsWellFormed(a: JSON, b: JSON)
    requires WellFormed(a) && Same(a, b)
    ensures WellFormed(b)
    decreases a
  {
    match a
    case Arr(items) =>
      forall i | 0 <= i < |items| ensures WellFormed(b.items[i]) {
        SameIsWellFormed(items[i], b.items[i]);
      }
    case Obj(members) =>
      forall j | 0 <= j < |b.members| ensures DistinctKeys(b.members) && WellFormed(b.members[j].value) {
        var i := PartnersBack(members, b.members, j);
        SameIsWellFormed(members[i].value, b.members[j].value);
      }
    case _ =>
  }

  /** Objects with the same names in the same places are equal exactly when their values are, one by one. */
  lemma {:induction false} SameKeyByKey(a: seq<Member>, b: seq<Member>)
    requires |a| == |b| && DistinctKeys(a) && forall i :: 0 <= i < |a| ==> a[i].key == b[i].key
    ensures Same(Obj(a), Obj(b)) <==> forall i :: 0 <= i < |a| ==> Same(a[i].value, b[i].value)
  {
    if Same(Obj(a), Obj(b)) {
      forall i | 0 <= i < |a| ensures Same(a[i].value, b[i].value) {
        assert HasPartner(a[i], b);
      var j :| 0 <= j < |b| && a[i].key == b[j].key && Same(a[i].value, b[j].value);
        assert a[j].key == a[i].key;
      }
    }
    if forall i :: 0 <= i < |a| ==> Same(a[i].value, b[i].value) {
      Pairwise(a, b);
    }
  }

  // ---------------------------------------------------------------------
  // JSON.parse(JSON.stringify(value))
  // ---------------------------------------------------------------------

  /** The clone of anything `JSON.stringify` writes: NaN and the infinities become null, -0 becomes 0,
      members without a JSON form disappear, elements without one become null. */
  function Clone(v: JSON): JSON {
    match v
    case Number(n) => if n.Finite? then Number(UnsignedZero(n)) else Null
    case Arr(items) => Arr(CloneItems(items))
    case Obj(members) => Obj(CloneMembers(members))
    case _ => v
  }

  function CloneItems(items: seq<JSON>): (r: seq<JSON>)
    ensures |r| == |items|
    ensures forall i :: 0 <= i < |r| ==> r[i] == if items[i].Unsupported? then Null else Clone(items[i])
  {
    if items == [] then []
    else [if items[0].Unsupported? then Null else Clone(items[0])] + CloneItems(items[1..])
  }

  function CloneMembers(members: seq<Member>): seq<Member> {
    if members == [] then []
    else if members[0].value.Unsupported? then CloneMembers(members[1..])
    else [Member(members[0].key, Clone(members[0].value))] + CloneMembers(members[1..])
  }

  /** The places of the members that have a JSON form, in order. */
  ghost predicate AreKept(kept: seq<nat>, members: seq<Member>) {
    Sorting.Climbs(kept) && forall k :: k in kept <==> 0 <= k < |members| && members[k].value != Unsupported
  }

  lemma {:induction false} OneFurther(kept: seq<nat>, members: seq<Member>) returns (all: seq<nat>)
    requires members != [] && AreKept(kept, members[1..])
    ensures AreKept(all, members)
    ensures var first := if members[0].value == Unsupported then 0 else 1;
            && |all| == first + |kept| && (first == 1 ==> all[0] == 0)
            && forall i :: 0 <= i < |kept| ==> all[first + i] == kept[i] + 1
  {
    var moved := seq(|kept|, i requires 0 <= i < |kept| => kept[i] + 1);
    all := if members[0].value == Unsupported then moved else [0] + moved;
    forall k ensures k in all <==> 0 <= k < |members| && members[k].value != Unsupported {
      assert k - 1 in kept <==> 0 <= k - 1 < |members[1..]| && members[1..][k - 1].value != Unsupported;
      if k - 1 in kept {
        var i :| 0 <= i < |kept| && kept[i] == k - 1;
        assert moved[i] == k;
        assert all[|all| - |kept| + i] == k;
      }
    }
  }

  /** `c` is what the JSON text of `v` reads as: a number without a JSON form becomes null, the sign of zero goes, the
      elements of a list stay in their places with null for what has no JSON form, and an object keeps, in order,
      the members that have one. */
  ghost predicate IsClone(c: JSON, v: JSON)
    decreases v
  {
    match v
    case Number(n) =>
      if n == NonFinite then c == Null
      else if n.digits == [] then c == Number(Finite(false, [], 0))
      else c == v
    case Arr(items) =>
      && c.Arr? && |c.items| == |items|
      && forall i :: 0 <= i < |items| ==>
           if items[i] == Unsupported then c.items[i] == Null else IsClone(c.items[i], items[i])
    case Obj(members) =>
      && c.Obj?
      && exists kept :: AreKept(kept, members) && |c.members| == |kept| && forall i :: 0 <= i < |kept| ==>
           kept[i] < |members| && IsMemberClone(c.members[i], members[kept[i]])
    case _ => c == v
  }

  ghost predicate IsMemberClone(c: Member, m: Member)
    decreases m
  {
    c.key == m.key && IsClone(c.value, m.value)
  }

  lemma {:induction false} CloneKeeps(members: seq<Member>) returns (kept: seq<nat>)
    ensures AreKept(kept, members) && |CloneMembers(members)| == |kept|
    ensures forall i :: 0 <= i < |kept| ==>
              kept[i] < |members| &&
              CloneMembers(members)[i] == Member(members[kept[i]].key, Clone(members[kept[i]].value))
  {
    if members == [] {
      kept := [];
    } else {
      var later := CloneKeeps(members[1..]);
      kept := OneFurther(later, members);
      var first := |kept| - |later|;
      forall i | 0 <= i < |kept|
        ensures kept[i] < |members|
        ensures CloneMembers(members)[i] == Member(members[kept[i]].key, Clone(members[kept[i]].value))
      {
        assert kept[i] in kept;
        if i >= first {
          assert kept[i] == later[i - first] + 1 && members[1..][later[i - first]] == members[kept[i]];
        }
      }
    }
  }

  ghost predicate CloneKnown(v: JSON) {
    forall c :: c == Clone(v) <==> IsClone(c, v)
  }

  /** Cloning gives that value, and nothing else is one. */
  lemma {:induction false} ClonedExactly(v: JSON, c: JSON)
    ensures c == Clone(v) <==> IsClone(c, v)
    decreases v
  {
    match v
    case Arr(items) =>
      forall i | 0 <= i < |items| ensures CloneKnown(items[i]) {
        forall x ensures x == Clone(items[i]) <==> IsClone(x, items[i]) {
          ClonedExactly(items[i], x);
        }
      }
      ClonedList(items, c);
    case Obj(members) =>
      forall i | 0 <= i < |members| ensures CloneKnown(members[i].value) {
        forall x ensures x == Clone(members[i].value) <==> IsClone(x, members[i].value) {
          ClonedExactly(members[i].value, x);
        }
      }
      ClonedRecord(members, c);
    case _ =>
  }

  lemma {:induction false} ClonedList(items: seq<JSON>, c: JSON)
    requires forall i :: 0 <= i < |items| ==> CloneKnown(items[i])
    ensures c == Clone(Arr(items)) <==> IsClone(c, Arr(items))
  {
    var cloned := CloneItems(items);
    if c == Arr(cloned) {
      assert forall i :: 0 <= i < |items| ==> items[i] != Unsupported ==> IsClone(cloned[i], items[i]);
    }
    if IsClone(c, Arr(items)) {
      forall i | 0 <= i < |items| ensures c.items[i] == cloned[i] {
        assert CloneKnown(items[i]);
        if items[i] != Unsupported {
          assert IsClone(c.items[i], items[i]);
        }
      }
      assert c.items == cloned;
    }
  }

  lemma {:induction false} ClonedRecord(members: seq<Member>, c: JSON)
    requires forall i :: 0 <= i < |members| ==> CloneKnown(members[i].value)
    ensures c == Clone(Obj(members)) <==> IsClone(c, Obj(members))
  {
    var kept := CloneKeeps(members);
    var cloned := CloneMembers(members);
    forall i, m | 0 <= i < |kept| ensures m == cloned[i] <==> IsMemberClone(m, members[kept[i]]) {
      assert CloneKnown(members[kept[i]].value);
    }
    if IsClone(c, Obj(members)) {
      RecordKeeps(members, kept, cloned, c.members);
    }
  }

  lemma {:induction false} RecordKeeps(members: seq<Member>, kept: seq<nat>, cloned: seq<Member>, found: seq<Member>)
    requires AreKept(kept, members) && |cloned| == |kept| && IsClone(Obj(found), Obj(members))
    requires forall i :: 0 <= i < |kept| ==> kept[i] < |members|
    requires forall i, m :: 0 <= i < |kept| ==> (m == cloned[i] <==> IsMemberClone(m, members[kept[i]]))
    ensures found == cloned
  {
    var others :| AreKept(others, members) && |found| == |others| && forall i :: 0 <= i < |others| ==>
                    others[i] < |members| && IsMemberClone(found[i], members[others[i]]);
    Sorting.ClimbUnique(kept, others);
  }

  lemma {:induction false} CloneTwice(v: JSON)
    ensures Clone(Clone(v)) == Clone(v)
    ensures Clone(v).Unsupported? <==> v.Unsupported?
  {
    match v
    case Arr(items) =>
      forall i | 0 <= i < |items| ensures Clone(Clone(items[i])) == Clone(items[i]) &&
                                          (Clone(items[i]).Unsupported? <==> items[i].Unsupported?) {
        CloneTwice(items[i]);
      }
      assert CloneItems(CloneItems(items)) == CloneItems(items);
    case Obj(members) => CloneMembersTwice(members);
    case _ =>
  }

  lemma {:induction false} CloneMembersTwice(members: seq<Member>)
    ensures CloneMembers(CloneMembers(members)) == CloneMembers(members)
    ensures forall m :: m in CloneMembers(members) ==> exists w :: w in members && w.key == m.key
    ensures DistinctKeys(members) ==> DistinctKeys(CloneMembers(members))
  {
    if members != [] {
      CloneTwice(members[0].value);
      CloneMembersTwice(members[1..]);
      var r := CloneMembers(members[1..]);
      if !members[0].value.Unsupported? {
        assert CloneMembers(members)[1..] == r;
      }
      if DistinctKeys(members) {
        assert DistinctKeys(members[1..]);
        forall i | 0 <= i < |r| ensures r[i].key != members[0].key {
          var w :| w in members[1..] && w.key == r[i].key;
        }
      }
    }
  }

  lemma {:induction false} CloneSet(members: seq<Member>, key: Text, value: JSON)
    requires CloneMembers(members) == members && Clone(value) == value && !value.Unsupported?
    ensures CloneMembers(Set(members, key, value)) == Set(members, key, value)
  {
    if members != [] {
      ClonedTail(members);
      if members[0].key == key {
        assert ([Member(key, value)] + members[1..])[1..] == members[1..];
      } else {
        CloneSet(members[1..], key, value);
        assert Set(members, key, value)[1..] == Set(members[1..], key, value);
      }
    } else {
      assert [Member(key, value)][1..] == [];
    }
  }

  lemma {:induction false} CloneShortens(members: seq<Member>)
    ensures |CloneMembers(members)| <= |members|
  {
    if members != [] {
      CloneShortens(members[1..]);
    }
  }

  lemma {:induction false} ClonedTail(members: seq<Member>)
    requires members != [] && CloneMembers(members) == members
    ensures !members[0].value.Unsupported? && Clone(members[0].value) == members[0].value
    ensures CloneMembers(members[1..]) == members[1..]
  {
    CloneShortens(members[1..]);
    assert members == [members[0]] + members[1..];
    if !members[0].value.Unsupported? {
      assert CloneMembers(members)[1..] == CloneMembers(members[1..]);
    }
  }

  /** What cloning keeps of a value. */
  ghost predicate Cloned(v: JSON) {
    && Accepted(Clone(v)) && Same(Clone(v), v) && Same(v, Clone(v))
    && (WellFormed(v) ==> WellFormed(Clone(v)))
  }

  /** An accepted value and its clone are the same up to the sign of zero. */
  lemma {:induction false} CloneOfAccepted(v: JSON)
    requires Accepted(v)
    ensures Cloned(v)
  {
    match v
    case Arr(items) =>
      forall i | 0 <= i < |items| ensures Cloned(items[i]) {
        CloneOfAccepted(items[i]);
      }
    case Obj(members) =>
      forall i | 0 <= i < |members| ensures AcceptedMember(members[i]) && Cloned(members[i].value) {
        assert AcceptedMember(members[i]);
        CloneOfAccepted(members[i].value);
      }
      CloneOfMembers(members);
    case _ =>
  }

  lemma {:induction false} CloneOfMembers(members: seq<Member>)
    requires forall i :: 0 <= i < |members| ==> AcceptedMember(members[i]) && Cloned(members[i].value)
    ensures Cloned(Obj(members))
  {
    CloneKeepsAll(members);
    var r := CloneMembers(members);
    forall i | 0 <= i < |members| ensures ClonedMember(members[i], r[i]) {
      assert AcceptedMember(members[i]) && Cloned(members[i].value);
    }
    Pairwise(r, members);
    Pairwise(members, r);
    ClonedObject(members, r);
  }

  ghost predicate ClonedMember(m: Member, r: Member) {
    && r.key == m.key && AcceptedMember(r) && Same(r.value, m.value) && Same(m.value, r.value)
    && (WellFormed(m.value) ==> WellFormed(r.value))
  }

  lemma {:induction false} ClonedObject(members: seq<Member>, r: seq<Member>)
    requires |r| == |members| && forall i :: 0 <= i < |r| ==> ClonedMember(members[i], r[i])
    ensures Accepted(Obj(r))
    ensures WellFormed(Obj(members)) ==> WellFormed(Obj(r))
  {
    assert forall i :: 0 <= i < |r| ==> AcceptedMember(r[i]);
    if WellFormed(Obj(members)) {
      forall i | 0 <= i < |r| ensures WellFormed(r[i].value) {
        assert ClonedMember(members[i], r[i]);
      }
      forall i, j | 0 <= i < j < |r| ensures r[i].key != r[j].key {
        assert ClonedMember(members[i], r[i]) && ClonedMember(members[j], r[j]);
      }
    }
  }

  lemma {:induction false} Pairwise(a: seq<Member>, b: seq<Member>)
    requires |a| == |b|
    requires forall i :: 0 <= i < |a| ==> a[i].key == b[i].key && Same(a[i].value, b[i].value)
    ensures Same(Obj(a), Obj(b))
  {
    forall i | 0 <= i < |a| ensures HasPartner(a[i], b) {
      assert a[i].key == b[i].key && Same(a[i].value, b[i].value);
    }
  }

  lemma {:induction false} CloneKeepsAll(members: seq<Member>)
    requires forall i :: 0 <= i < |members| ==> AcceptedMember(members[i])
    ensures var r := CloneMembers(members);
            |r| == |members| && forall i :: 0 <= i < |r| ==> r[i] == Member(members[i].key, Clone(members[i].value))
  {
    if members != [] {
      assert AcceptedMember(members[0]);
      forall i | 0 <= i < |members[1..]| ensures AcceptedMember(members[1..][i]) {
        assert members[1..][i] == members[i + 1];
      }
      CloneKeepsAll(members[1..]);
      var r := CloneMembers(members);
      assert Accepted(members[0].value);
      assert !members[0].value.Unsupported?;
      assert r == [Member(members[0].key, Clone(members[0].value))] + CloneMembers(members[1..]);
      forall i | 0 < i < |r| ensures r[i] == Member(members[i].key, Clone(members[i].value)) {
        assert members[1..][i - 1] == members[i];
      }
    }
  }

  // ---------------------------------------------------------------------
  // Data the digest functions take
  // ---------------------------------------------------------------------

  /** A value with distinct names at every depth that can be canonicalized. */
  ghost predicate GoodValue(v: JSON) {
    WellFormed(v) && Accepted(v)
  }

  ghost predicate GoodObject(p: JSON) { p.Obj? && GoodValue(p) }

  lemma {:induction false} TextIsGood(s: string)
    requires IsAscii(s)
    ensures GoodValue(Str(Ascii(s)))
  {
    AsciiValid(s);
  }

  lemma {:induction false} GoodClone(v: JSON)
    requires GoodValue(v)
    ensures GoodValue(Clone(v))
  {
    CloneOfAccepted(v);
  }

  lemma {:induction false} GoodMembers(members: seq<Member>)
    requires DistinctKeys(members)
    requires forall i :: 0 <= i < |members| ==> ValidUnicode(members[i].key)
    requires forall i :: 0 <= i < |members| ==> GoodValue(members[i].value)
    ensures GoodObject(Obj(members))
  {
    forall i | 0 <= i < |members| ensures AcceptedMember(members[i]) && WellFormed(members[i].value) {
      assert GoodValue(members[i].value);
    }
  }

  /** Names written in ASCII are free of surrogates. */
  lemma {:induction false} NamesValid(members: seq<Member>, names: seq<string>)
    requires |members| == |names|
    requires forall i :: 0 <= i < |names| ==> IsAscii(names[i]) && members[i].key == Ascii(names[i])
    ensures forall i :: 0 <= i < |members| ==> ValidUnicode(members[i].key)
  {
    forall i | 0 <= i < |members| ensures ValidUnicode(members[i].key) {
      AsciiValid(names[i]);
    }
  }

  /** The clone of an object answers every name with the clone of its value. */
  lemma {:induction false} CloneAnswers(members: seq<Member>)
    requires GoodObject(Obj(members))
    ensures forall i :: 0 <= i < |members| ==>
              Get(CloneMembers(members), members[i].key) == Some(Clone(members[i].value))
  {
    forall i | 0 <= i < |members| ensures AcceptedMember(members[i]) {
    }
    CloneKeepsAll(members);
    CloneMembersTwice(members);
    AllAnswer(CloneMembers(members));
  }

  /** The normal form of an object answers every name with the normal form of its value. */
  lemma {:induction false} NormalAnswers(members: seq<Member>)
    requires DistinctKeys(members)
    ensures forall i :: 0 <= i < |members| ==>
              Get(Normal(Obj(members)).members, members[i].key) == Some(Normal(members[i].value))
  {
    var ns := NormalMembers(members);
    var sorted := SortMembers(ns);
    Sorting.SortPermutes(ns, KeyLeq);
    DistinctKeysPermute(ns, sorted);
    SortMembership(ns);
    AllAnswer(sorted);
    forall i | 0 <= i < |members| ensures Get(sorted, members[i].key) == Some(Normal(members[i].value)) {
      assert ns[i] in sorted;
      var j :| 0 <= j < |sorted| && sorted[j] == ns[i];
    }
  }
}
