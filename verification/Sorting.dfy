/** `Array.prototype.sort` under a comparator: the result is an ordered rearrangement, and where the
    comparator tells the elements apart there is only one such arrangement, so nothing depends on the
    algorithm. Insertion sort stands for whatever the engine uses; like that, it leaves elements that
    tie in the order they came in. The lemmas are generic: object members, issue codes, fixture paths
    and proofs are all sorted through them. */
module Sorting {

  ghost predicate Total<T(!new)>(leq: (T, T) -> bool) {
    forall a, b :: leq(a, b) || leq(b, a)
  }

  ghost predicate Transitive<T(!new)>(leq: (T, T) -> bool) {
    forall a, b, c :: leq(a, b) && leq(b, c) ==> leq(a, c)
  }

  ghost predicate Ordering<T(!new)>(leq: (T, T) -> bool) {
    Total(leq) && Transitive(leq)
  }

  ghost predicate Ordered<T>(s: seq<T>, leq: (T, T) -> bool) {
    forall i, j :: 0 <= i < j < |s| ==> leq(s[i], s[j])
  }

  /** Distinct positions hold elements the comparator tells apart. */
  ghost predicate ToldApart<T>(s: seq<T>, leq: (T, T) -> bool) {
    forall i, j :: 0 <= i < |s| && 0 <= j < |s| && i != j ==> !(leq(s[i], s[j]) && leq(s[j], s[i]))
  }

  ghost predicate Permutation<T>(a: seq<T>, b: seq<T>) {
    multiset(a) == multiset(b)
  }

  function Insert<T>(x: T, s: seq<T>, leq: (T, T) -> bool): seq<T> {
    if s == [] || leq(x, s[0]) then [x] + s else [s[0]] + Insert(x, s[1..], leq)
  }

  function Sort<T>(s: seq<T>, leq: (T, T) -> bool): seq<T> {
    if s == [] then [] else Insert(s[0], Sort(s[1..], leq), leq)
  }

  lemma {:induction false} InsertPermutes<T>(x: T, s: seq<T>, leq: (T, T) -> bool)
    ensures multiset(Insert(x, s, leq)) == multiset{x} + multiset(s)
  {
    if s == [] || leq(x, s[0]) {
    } else {
      InsertPermutes(x, s[1..], leq);
      assert s == [s[0]] + s[1..];
    }
  }

  lemma {:induction false} SortPermutes<T>(s: seq<T>, leq: (T, T) -> bool)
    ensures Permutation(Sort(s, leq), s)
    ensures |Sort(s, leq)| == |s|
  {
    if s != [] {
      SortPermutes(s[1..], leq);
      InsertPermutes(s[0], Sort(s[1..], leq), leq);
      assert s == [s[0]] + s[1..];
    }
    assert |multiset(Sort(s, leq))| == |multiset(s)|;
  }

  lemma {:induction false} InsertOrders<T(!new)>(x: T, s: seq<T>, leq: (T, T) -> bool)
    requires Ordering(leq) && Ordered(s, leq)
    ensures Ordered(Insert(x, s, leq), leq)
  {
    if s == [] {
    } else if leq(x, s[0]) {
    } else {
      var tail := Insert(x, s[1..], leq);
      InsertOrders(x, s[1..], leq);
      InsertPermutes(x, s[1..], leq);
      forall j | 0 <= j < |tail| ensures leq(s[0], tail[j]) {
        assert tail[j] in multiset(tail);
        assert tail[j] == x || tail[j] in s[1..];
      }
    }
  }

  lemma {:induction false} SortOrders<T(!new)>(s: seq<T>, leq: (T, T) -> bool)
    requires Ordering(leq)
    ensures Ordered(Sort(s, leq), leq)
  {
    if s != [] {
      SortOrders(s[1..], leq);
      InsertOrders(s[0], Sort(s[1..], leq), leq);
    }
  }

  lemma {:induction false} PermutationMembers<T>(a: seq<T>, b: seq<T>)
    requires Permutation(a, b)
    ensures forall x :: x in a <==> x in b
    ensures |a| == |b|
  {
    assert forall x :: x in a <==> x in multiset(a);
    assert forall x :: x in b <==> x in multiset(b);
    assert |multiset(a)| == |a| && |multiset(b)| == |b|;
  }

  lemma {:induction false} SameLeast<T(!new)>(a: seq<T>, b: seq<T>, leq: (T, T) -> bool)
    requires Total(leq) && Ordered(a, leq) && Ordered(b, leq)
    requires ToldApart(a, leq) && Permutation(a, b) && a != []
    ensures b != [] && a[0] == b[0]
  {
    PermutationMembers(a, b);
    assert b[0] in a && a[0] in b;
    var i :| 0 <= i < |a| && a[i] == b[0];
    var j :| 0 <= j < |b| && b[j] == a[0];
    assert leq(a[0], a[i]) && leq(b[0], b[j]);
  }

  lemma {:induction false} PermutationTails<T>(a: seq<T>, b: seq<T>)
    requires a != [] && b != [] && a[0] == b[0] && Permutation(a, b)
    ensures Permutation(a[1..], b[1..])
  {
    assert a == [a[0]] + a[1..] && b == [b[0]] + b[1..];
    assert multiset(a[1..]) == multiset(a) - multiset{a[0]};
    assert multiset(b[1..]) == multiset(b) - multiset{b[0]};
  }

  lemma {:induction false} ToldApartTail<T>(a: seq<T>, leq: (T, T) -> bool)
    requires ToldApart(a, leq) && a != []
    ensures ToldApart(a[1..], leq)
  {
    forall i, j | 0 <= i < |a[1..]| && 0 <= j < |a[1..]| && i != j
      ensures !(leq(a[1..][i], a[1..][j]) && leq(a[1..][j], a[1..][i]))
    {
      assert a[1..][i] == a[i + 1] && a[1..][j] == a[j + 1];
    }
  }

  /** The ordered arrangement is unique when no two positions tie. */
  lemma {:induction false} OrderedArrangementUnique<T(!new)>(a: seq<T>, b: seq<T>, leq: (T, T) -> bool)
    requires Ordering(leq) && Ordered(a, leq) && Ordered(b, leq)
    requires ToldApart(a, leq) && Permutation(a, b)
    ensures a == b
  {
    PermutationMembers(a, b);
    if a != [] {
      SameLeast(a, b, leq);
      PermutationTails(a, b);
      ToldApartTail(a, leq);
      OrderedArrangementUnique(a[1..], b[1..], leq);
      assert a == [a[0]] + a[1..] && b == [b[0]] + b[1..];
    }
  }

  lemma {:induction false} ToldApartPermutes<T(!new)>(a: seq<T>, b: seq<T>, leq: (T, T) -> bool)
    requires Total(leq) && Permutation(a, b) && ToldApart(a, leq)
    ensures ToldApart(b, leq)
  {
    PermutationMembers(a, b);
    forall i, j | 0 <= i < |b| && 0 <= j < |b| && i != j
      ensures !(leq(b[i], b[j]) && leq(b[j], b[i]))
    {
      assert b[i] in a && b[j] in a;
      var p :| 0 <= p < |a| && a[p] == b[i];
      var q :| 0 <= q < |a| && a[q] == b[j];
      if p == q {
        RepeatedElement(b, i, j);
        SingleOccurrence(a, p, leq);
        assert false;
      }
    }
  }

  lemma {:induction false} RepeatedElement<T>(s: seq<T>, i: nat, j: nat)
    requires i < |s| && j < |s| && i != j && s[i] == s[j]
    ensures multiset(s)[s[i]] >= 2
  {
    var lo, hi := if i < j then i else j, if i < j then j else i;
    assert s == s[..lo] + [s[lo]] + s[lo + 1..hi] + [s[hi]] + s[hi + 1..];
    assert multiset(s) ==
           multiset(s[..lo]) + multiset{s[lo]} + multiset(s[lo + 1..hi]) + multiset{s[hi]} + multiset(s[hi + 1..]);
  }

  lemma {:induction false} SingleOccurrence<T(!new)>(s: seq<T>, p: nat, leq: (T, T) -> bool)
    requires p < |s| && Total(leq) && ToldApart(s, leq)
    ensures multiset(s)[s[p]] == 1
  {
    assert leq(s[p], s[p]);
    assert s == s[..p] + [s[p]] + s[p + 1..];
    assert multiset(s) == multiset(s[..p]) + multiset{s[p]} + multiset(s[p + 1..]);
    assert s[p] !in s[..p] && s[p] !in s[p + 1..];
    assert s[p] !in multiset(s[..p]) && s[p] !in multiset(s[p + 1..]);
  }

  /** Sorting forgets the arrangement it was given. */
  lemma {:induction false} SortForgetsArrangement<T(!new)>(a: seq<T>, b: seq<T>, leq: (T, T) -> bool)
    requires Ordering(leq) && Permutation(a, b) && ToldApart(a, leq)
    ensures Sort(a, leq) == Sort(b, leq)
  {
    SortPermutes(a, leq);
    SortPermutes(b, leq);
    SortOrders(a, leq);
    SortOrders(b, leq);
    ToldApartPermutes(a, Sort(a, leq), leq);
    OrderedArrangementUnique(Sort(a, leq), Sort(b, leq), leq);
  }

  /** What is already in order stays as it is. */
  lemma {:induction false} SortFixesOrdered<T>(s: seq<T>, leq: (T, T) -> bool)
    requires Ordered(s, leq)
    ensures Sort(s, leq) == s
  {
    if s != [] {
      SortFixesOrdered(s[1..], leq);
      assert s == [s[0]] + s[1..];
      if |s| > 1 {
        assert leq(s[0], s[1]);
      }
    }
  }

  lemma {:induction false} WithoutPosition<T>(s: seq<T>, k: nat)
    requires k < |s|
    ensures multiset(s) == multiset{s[k]} + multiset(s[..k] + s[k + 1..])
  {
    assert s == s[..k] + [s[k]] + s[k + 1..];
  }

  lemma {:induction false} RemoveFromBoth<T>(a: seq<T>, b: seq<T>, k: nat)
    requires a != [] && k < |b| && a[0] == b[k] && Permutation(a, b)
    ensures Permutation(a[1..], b[..k] + b[k + 1..])
  {
    WithoutPosition(a, 0);
    WithoutPosition(b, k);
    assert a[..0] + a[1..] == a[1..];
    assert multiset(a[1..]) == multiset(a) - multiset{a[0]};
    assert multiset(b[..k] + b[k + 1..]) == multiset(b) - multiset{b[k]};
  }

  lemma {:induction false} AddToBoth<T>(a: seq<T>, b: seq<T>, k: nat)
    requires a != [] && k < |b| && a[0] == b[k] && Permutation(a[1..], b[..k] + b[k + 1..])
    ensures Permutation(a, b)
  {
    WithoutPosition(a, 0);
    WithoutPosition(b, k);
    assert a[..0] + a[1..] == a[1..];
  }

  ghost predicate NoRepeats<T>(s: seq<T>) {
    forall i, j :: 0 <= i < j < |s| ==> s[i] != s[j]
  }

  function Elements<T(==)>(s: seq<T>): set<T> { set x | x in s }

  lemma {:induction false} ElementsOfTail<T>(s: seq<T>)
    requires s != []
    ensures Elements(s) == {s[0]} + Elements(s[1..])
  {
    assert s == [s[0]] + s[1..];
  }

  lemma {:induction false} AddOne<T>(x: T, all: set<T>)
    requires x !in all
    ensures |{x} + all| == 1 + |all| && multiset({x} + all) == multiset{x} + multiset(all)
  {
  }

  lemma {:induction false} NoRepeatsCounts<T>(s: seq<T>)
    requires NoRepeats(s)
    ensures |Elements(s)| == |s|
    ensures multiset(s) == multiset(Elements(s))
  {
    if s == [] {
      assert Elements(s) == {};
    } else {
      assert s[0] !in s[1..];
      NoRepeatsCounts(s[1..]);
      ElementsOfTail(s);
      AddOne(s[0], Elements(s[1..]));
      assert s == [s[0]] + s[1..];
    }
  }

  lemma {:induction false} CountedOnce<T>(s: seq<T>)
    ensures |Elements(s)| <= |s| && (|Elements(s)| == |s| ==> NoRepeats(s))
  {
    if s == [] {
      assert Elements(s) == {};
    } else {
      CountedOnce(s[1..]);
      ElementsOfTail(s);
      if s[0] in s[1..] {
        assert Elements(s) == Elements(s[1..]);
      } else {
        AddOne(s[0], Elements(s[1..]));
      }
    }
  }

  /** Two lists of one length, the first duplicate-free and inside the second, rearrange each other. */
  lemma {:induction false} ContainedIsPermutation<T>(a: seq<T>, b: seq<T>)
    requires NoRepeats(a) && |a| == |b|
    requires forall x :: x in a ==> x in b
    ensures NoRepeats(b) && Permutation(a, b)
  {
    NoRepeatsCounts(a);
    CountedOnce(b);
    assert Elements(a) <= Elements(b);
    assert |Elements(b) - Elements(a)| == |Elements(b)| - |Elements(a)|;
    assert Elements(b) - Elements(a) == {};
    assert Elements(a) == Elements(b);
    NoRepeatsCounts(b);
  }

  // ---------------------------------------------------------------------
  // Places in a list
  // ---------------------------------------------------------------------

  /** Strictly ascending places. */
  ghost predicate Climbs(places: seq<nat>) {
    forall i, j :: 0 <= i < j < |places| ==> places[i] < places[j]
  }

  /** Ascending places are told by which they are. */
  lemma {:induction false} ClimbUnique(a: seq<nat>, b: seq<nat>)
    requires Climbs(a) && Climbs(b) && forall k :: k in a <==> k in b
    ensures a == b
  {
    var least := if b == [] then 0 else b[0];
    assert b == [] || least in b;
    if a != [] {
      assert a[0] in b && b != [];
      assert b[0] in a;
      forall k ensures k in a[1..] <==> k in b[1..] {
        assert k in a[1..] <==> k in a && k != a[0];
        assert k in b[1..] <==> k in b && k != b[0];
      }
      ClimbUnique(a[1..], b[1..]);
      assert a == [a[0]] + a[1..] && b == [b[0]] + b[1..];
    }
  }

  /** Every place once. */
  ghost predicate IsArrangement(order: seq<nat>, n: nat) {
    && |order| == n && (forall i :: 0 <= i < n ==> order[i] < n)
    && forall i, j :: 0 <= i < j < n ==> order[i] != order[j]
  }

  lemma {:induction false} InsertPlace<T>(x: T, s: seq<T>, leq: (T, T) -> bool) returns (p: nat)
    ensures p <= |s| && Insert(x, s, leq) == s[..p] + [x] + s[p..]
    ensures forall i :: 0 <= i < p ==> !leq(x, s[i])
  {
    if s == [] || leq(x, s[0]) {
      p := 0;
    } else {
      var q := InsertPlace(x, s[1..], leq);
      p := q + 1;
      assert s[..p] == [s[0]] + s[1..][..q] && s[p..] == s[1..][q..];
      forall i | 0 <= i < p ensures !leq(x, s[i]) {
        assert i > 0 ==> s[i] == s[1..][i - 1];
      }
    }
  }

  /** Elements that tie keep the order they came in. */
  ghost predicate IsStable<T>(s: seq<T>, order: seq<nat>, leq: (T, T) -> bool)
    requires IsArrangement(order, |s|)
  {
    forall i, j :: 0 <= i < j < |order| && leq(s[order[j]], s[order[i]]) ==> order[i] < order[j]
  }

  /** A new first element put at place `p` of an arrangement. */
  function PutFirst(order: seq<nat>, p: nat): (r: seq<nat>)
    requires p <= |order|
    ensures |r| == |order| + 1
    ensures forall i :: 0 <= i < |r| ==> r[i] == if i < p then order[i] + 1 else if i == p then 0 else order[i - 1] + 1
  {
    seq(|order| + 1, i requires 0 <= i <= |order| =>
      if i < p then order[i] + 1 else if i == p then 0 else order[i - 1] + 1)
  }

  lemma {:induction false} PutFirstArranges(order: seq<nat>, p: nat, n: nat)
    requires IsArrangement(order, n) && p <= n
    ensures IsArrangement(PutFirst(order, p), n + 1)
  {
  }

  lemma {:induction false} PutFirstStable<T>(s: seq<T>, order: seq<nat>, p: nat, leq: (T, T) -> bool)
    requires s != [] && IsArrangement(order, |s| - 1) && IsStable(s[1..], order, leq) && p <= |order|
    requires forall i :: 0 <= i < p ==> !leq(s[0], s[1..][order[i]])
    ensures IsArrangement(PutFirst(order, p), |s|) && IsStable(s, PutFirst(order, p), leq)
  {
    PutFirstArranges(order, p, |order|);
    var all := PutFirst(order, p);
    forall i | 0 <= i < p ensures !leq(s[0], s[all[i]]) {
      assert s[all[i]] == s[1..][order[i]];
    }
    forall i, j | 0 <= i < j < |all| && leq(s[all[j]], s[all[i]]) ensures all[i] < all[j] {
      if i != p && j != p {
        var a, b := if i < p then i else i - 1, if j < p then j else j - 1;
        assert s[all[i]] == s[1..][order[a]] && s[all[j]] == s[1..][order[b]];
      }
    }
  }

  lemma {:induction false} PutFirstPicks<T>(s: seq<T>, sorted: seq<T>, order: seq<nat>, p: nat)
    requires s != [] && IsArrangement(order, |s| - 1) && |sorted| == |order| && p <= |order|
    requires forall i :: 0 <= i < |order| ==> sorted[i] == s[1..][order[i]]
    ensures forall i :: 0 <= i < |s| ==>
              0 <= PutFirst(order, p)[i] < |s| && (sorted[..p] + [s[0]] + sorted[p..])[i] == s[PutFirst(order, p)[i]]
  {
    PutFirstArranges(order, p, |order|);
  }

  /** Where the elements of the sorted list came from. */
  lemma {:induction false} SortArranges<T>(s: seq<T>, leq: (T, T) -> bool) returns (order: seq<nat>)
    ensures IsArrangement(order, |s|) && IsStable(s, order, leq)
    ensures |Sort(s, leq)| == |s| && forall i :: 0 <= i < |s| ==> Sort(s, leq)[i] == s[order[i]]
  {
    if s == [] {
      order := [];
    } else {
      var later := SortArranges(s[1..], leq);
      var p := InsertPlace(s[0], Sort(s[1..], leq), leq);
      PutFirstStable(s, later, p, leq);
      PutFirstPicks(s, Sort(s[1..], leq), later, p);
      order := PutFirst(later, p);
    }
  }
}
