/** Outcome events and their causal parents: the checks of structural verification, and what a cycle would be. */
module Causality {
  import opened Utf16
  import opened Sorting
  import opened Strings
  import opened Json
  import opened Utf8
  import opened Objects
  import opened Digests
  import opened Containment

  const PARENTS: Text := Ascii("parent_event_digests")

  /** The text under `object_digest.value`, where there is one. */
  function DeclaredHex(event: JSON): Option<Text> {
    match Property(event, OBJECT_DIGEST)
    case None => None
    case Some(digest) =>
      match Property(digest, VALUE)
      case Some(Str(hex)) => if hex == [] then None else Some(hex)
      case _ => None
  }

  /** What a loop over a value goes through; a boolean, a number or an object cannot be looped over. */
  datatype Iteration = NotIterable | Entries(list: seq<JSON>)

  /** The loop over `event.parent_event_digests ?? []`; a string there is gone through character by character. */
  function ParentEntries(event: JSON): Iteration {
    match Property(event, PARENTS)
    case None => Entries([])
    case Some(value) =>
      match value
      case Arr(items) => Entries(items)
      case Str(text) => Entries(Characters(text))
      case Null => Entries([])
      case Unsupported => Entries([])
      case _ => NotIterable
  }

  function Characters(text: Text): seq<JSON> {
    if text == [] then [] else [Str(text[..CharLength(text)])] + Characters(text[CharLength(text)..])
  }

  predicate Iterable(event: JSON) { ParentEntries(event).Entries? }

  function ParentsOf(event: JSON): seq<JSON> {
    if Iterable(event) then ParentEntries(event).list else []
  }

  datatype ParentIssue = NotADigest | NotFound | SelfParent
  datatype Issue = Issue(event: nat, what: ParentIssue)

  /** The verdict on one parent entry of one event. */
  function JudgeParent(parent: JSON, own: Option<Text>, known: set<Text>): Option<ParentIssue> {
    if !ValidDigest(parent) then Some(NotADigest)
    else if DigestHex(parent) !in known then Some(NotFound)
    else if Some(DigestHex(parent)) == own then Some(SelfParent)
    else None
  }

  function KnownDigests(events: seq<JSON>): set<Text> {
    set e | e in events && DeclaredHex(e).Some? :: DeclaredHex(e).value
  }

  function IssueAt(i: nat, parent: JSON, own: Option<Text>, known: set<Text>): seq<Issue> {
    var judged := JudgeParent(parent, own, known);
    if judged.None? then [] else [Issue(i, judged.value)]
  }

  /** The issues of a list of parents of event `i`, in order. */
  function IssuesOfEvent(i: nat, parents: seq<JSON>, own: Option<Text>, known: set<Text>): seq<Issue> {
    if parents == [] then []
    else IssuesOfEvent(i, parents[..|parents| - 1], own, known) + IssueAt(i, parents[|parents| - 1], own, known)
  }

  function IssuesAt(events: seq<JSON>, i: nat): seq<Issue>
    requires i < |events|
  {
    IssuesOfEvent(i, ParentsOf(events[i]), DeclaredHex(events[i]), KnownDigests(events))
  }

  function IssuesPerEvent(events: seq<JSON>): (r: seq<seq<Issue>>)
    ensures |r| == |events|
    ensures forall i :: 0 <= i < |events| ==> r[i] == IssuesAt(events, i)
  {
    seq(|events|, i requires 0 <= i < |events| => IssuesAt(events, i))
  }

  function Concat(parts: seq<seq<Issue>>): seq<Issue> {
    if parts == [] then [] else Concat(parts[..|parts| - 1]) + parts[|parts| - 1]
  }

  /** The issues of all events, in order. */
  function ParentIssues(events: seq<JSON>): seq<Issue> { Concat(IssuesPerEvent(events)) }

  /** The inner loop of the verifier's parent check. */
  method CheckParentsOf(i: nat, parents: seq<JSON>, own: Option<Text>, known: set<Text>) returns (issues: seq<Issue>)
    ensures issues == IssuesOfEvent(i, parents, own, known)
  {
    issues := [];
    for k := 0 to |parents|
      invariant issues == IssuesOfEvent(i, parents[..k], own, known)
    {
      assert parents[..k + 1][..k] == parents[..k];
      var judged := JudgeParent(parents[k], own, known);
      if judged.Some? {
        issues := issues + [Issue(i, judged.value)];
      }
    }
    assert parents[..|parents|] == parents;
  }

  method CheckEvent(events: seq<JSON>, i: nat, known: set<Text>) returns (threw: bool, issues: seq<Issue>)
    requires i < |events| && known == KnownDigests(events)
    ensures threw <==> !Iterable(events[i])
    ensures !threw ==> issues == IssuesAt(events, i)
  {
    var entries := ParentEntries(events[i]);
    if entries.NotIterable? {
      return true, [];
    }
    issues := CheckParentsOf(i, entries.list, DeclaredHex(events[i]), known);
    threw := false;
  }

  /** The outer loop; it throws on an event whose parents are no list. */
  method CollectIssues(events: seq<JSON>, known: set<Text>) returns (threw: bool, issues: seq<Issue>)
    requires known == KnownDigests(events)
    ensures threw <==> !AllIterable(events)
    ensures !threw ==> issues == ParentIssues(events)
  {
    ghost var parts := IssuesPerEvent(events);
    issues := [];
    for i := 0 to |events|
      invariant forall k :: 0 <= k < i ==> Iterable(events[k])
      invariant issues == Concat(parts[..i])
    {
      var stuck, more := CheckEvent(events, i, known);
      if stuck {
        return true, issues;
      }
      ConcatStep(parts, i);
      issues := issues + more;
    }
    assert parts[..|parts|] == parts;
    threw := false;
  }

  lemma {:induction false} ConcatStep(parts: seq<seq<Issue>>, i: nat)
    requires i < |parts|
    ensures Concat(parts[..i + 1]) == Concat(parts[..i]) + parts[i]
  {
    assert parts[..i + 1][..i] == parts[..i];
  }

  /** The parent check over all events. It throws exactly when some event's parents cannot be looped over; otherwise
      it reports every entry that is no digest, or one that no event declares, or the event's own, in order. */
  method CheckParents(events: seq<JSON>) returns (threw: bool, issues: seq<Issue>)
    ensures threw <==> !AllIterable(events)
    ensures !threw ==> issues == ParentIssues(events)
    ensures !threw && issues == [] <==> ParentsResolve(events)
    ensures AllWellFormed(events) ==> (threw <==> exists i :: 0 <= i < |events| && CannotLoop(events[i]))
    ensures AllWellFormed(events) && !threw ==>
              forall lists :: LoopsOverEach(events, lists) ==> ReportsAll(issues, lists, events)
  {
    threw, issues := CollectIssues(events, KnownDigests(events));
    NoIssues(events);
    if AllWellFormed(events) {
      ThrowsExactly(events);
      if !threw {
        forall lists | LoopsOverEach(events, lists) ensures ReportsAll(issues, lists, events) {
          IssuesExactly(events, lists);
        }
      }
    }
  }

  ghost predicate AllIterable(events: seq<JSON>) {
    forall i :: 0 <= i < |events| ==> Iterable(events[i])
  }

  /** Every parent entry is a digest declared by another event of the bundle. */
  ghost predicate ParentsResolve(events: seq<JSON>) {
    AllIterable(events) && forall i :: 0 <= i < |events| ==> ParentsResolveAt(events, i)
  }

  ghost predicate ParentsResolveAt(events: seq<JSON>, i: nat)
    requires i < |events|
  {
    forall k :: 0 <= k < |ParentsOf(events[i])| ==> Resolves(ParentsOf(events[i])[k], DeclaredHex(events[i]), events)
  }

  ghost predicate Resolves(parent: JSON, own: Option<Text>, events: seq<JSON>) {
    && ValidDigest(parent)
    && Some(DigestHex(parent)) != own
    && exists j :: 0 <= j < |events| && DeclaredHex(events[j]) == Some(DigestHex(parent))
  }

  lemma {:induction false} KnownIsDeclared(events: seq<JSON>, hex: Text)
    ensures hex in KnownDigests(events) <==> exists j :: 0 <= j < |events| && DeclaredHex(events[j]) == Some(hex)
  {
    if hex in KnownDigests(events) {
      var e :| e in events && DeclaredHex(e) == Some(hex);
      var j :| 0 <= j < |events| && events[j] == e;
      assert DeclaredHex(events[j]) == Some(hex);
    }
  }

  lemma {:induction false} JudgeIsResolves(parent: JSON, own: Option<Text>, events: seq<JSON>)
    ensures JudgeParent(parent, own, KnownDigests(events)).None? <==> Resolves(parent, own, events)
  {
    if ValidDigest(parent) {
      KnownIsDeclared(events, DigestHex(parent));
    }
  }

  lemma {:induction false} NoIssueAt(i: nat, parent: JSON, own: Option<Text>, events: seq<JSON>)
    ensures IssueAt(i, parent, own, KnownDigests(events)) == [] <==> Resolves(parent, own, events)
  {
    JudgeIsResolves(parent, own, events);
  }

  lemma {:induction false} NothingInBoth(a: seq<Issue>, b: seq<Issue>)
    ensures a + b == [] <==> a == [] && b == []
  {
    if a != [] {
      assert (a + b)[0] == a[0];
    }
    assert |a + b| == |a| + |b|;
  }

  lemma {:induction false} NoIssuesOfEvent(i: nat, parents: seq<JSON>, own: Option<Text>, events: seq<JSON>)
    ensures IssuesOfEvent(i, parents, own, KnownDigests(events)) == [] <==>
            forall k :: 0 <= k < |parents| ==> Resolves(parents[k], own, events)
  {
    if parents != [] {
      var last, known := |parents| - 1, KnownDigests(events);
      NoIssuesOfEvent(i, parents[..last], own, events);
      NoIssueAt(i, parents[last], own, events);
      NothingInBoth(IssuesOfEvent(i, parents[..last], own, known), IssueAt(i, parents[last], own, known));
      assert parents == parents[..last] + [parents[last]];
    }
  }

  lemma {:induction false} NoIssuesAt(events: seq<JSON>, i: nat)
    requires i < |events|
    ensures IssuesAt(events, i) == [] <==> ParentsResolveAt(events, i)
  {
    NoIssuesOfEvent(i, ParentsOf(events[i]), DeclaredHex(events[i]), events);
  }

  lemma {:induction false} NothingConcatenated(parts: seq<seq<Issue>>)
    ensures Concat(parts) == [] <==> forall i :: 0 <= i < |parts| ==> parts[i] == []
  {
    if parts != [] {
      var last := |parts| - 1;
      NothingConcatenated(parts[..last]);
      NothingInBoth(Concat(parts[..last]), parts[last]);
      assert parts == parts[..last] + [parts[last]];
    }
  }

  lemma {:induction false} NoIssues(events: seq<JSON>)
    ensures ParentIssues(events) == [] <==> forall i :: 0 <= i < |events| ==> ParentsResolveAt(events, i)
  {
    NothingConcatenated(IssuesPerEvent(events));
    forall i | 0 <= i < |events| ensures IssuesAt(events, i) == [] <==> ParentsResolveAt(events, i) {
      NoIssuesAt(events, i);
    }
  }

  // ---------------------------------------------------------------------
  // What is reported, from the members of the events alone
  // ---------------------------------------------------------------------

  /** The event declares a digest of this value. */
  ghost predicate Declares(event: JSON, hex: Text) {
    hex != [] && exists digest ::
      Holds(event, Ascii("object_digest"), digest) && Holds(digest, Ascii("value"), Str(hex))
  }

  lemma {:induction false} HeldIsWellFormed(v: JSON, name: Text, value: JSON)
    requires WellFormed(v) && Holds(v, name, value)
    ensures WellFormed(value)
  {
  }

  lemma {:induction false} DeclaresExactly(event: JSON, hex: Text)
    requires WellFormed(event)
    ensures DeclaredHex(event) == Some(hex) <==> Declares(event, hex)
  {
    forall digest ensures Property(event, OBJECT_DIGEST) == Some(digest) <==> Holds(event, OBJECT_DIGEST, digest) {
      HoldsExactly(event, OBJECT_DIGEST, digest);
    }
    forall digest | Holds(event, OBJECT_DIGEST, digest)
      ensures Property(digest, VALUE) == Some(Str(hex)) <==> Holds(digest, VALUE, Str(hex))
    {
      HeldIsWellFormed(event, OBJECT_DIGEST, digest);
      HoldsExactly(digest, VALUE, Str(hex));
    }
  }

  /** The text falls into these characters: surrogate pairs and single units. */
  ghost predicate FallsInto(text: Text, entries: seq<JSON>)
    decreases |text|
  {
    if text == [] then entries == []
    else
      exists units: nat, c: int ::
        && 0 < units <= |text| && FirstCodePoint(text, units, c)
        && entries != [] && entries[0] == Str(text[..units]) && FallsInto(text[units..], entries[1..])
  }

  lemma {:induction false} CharactersExactly(text: Text, entries: seq<JSON>)
    ensures entries == Characters(text) <==> FallsInto(text, entries)
    decreases |text|
  {
    if text != [] {
      var n := CharLength(text);
      var units, c := EncodeFront(text);
      assert FirstCodePoint(text, n, c);
      if entries != [] {
        CharactersExactly(text[n..], entries[1..]);
        assert entries == [entries[0]] + entries[1..];
      }
    }
  }

  /** What the loop goes through: the listed entries, the characters of a string, nothing for what is absent. */
  ghost predicate LoopsOver(event: JSON, entries: seq<JSON>) {
    var name := Ascii("parent_event_digests");
    || Holds(event, name, Arr(entries))
    || (exists text :: Holds(event, name, Str(text)) && FallsInto(text, entries))
    || (entries == [] && forall value :: Holds(event, name, value) ==> value == Null || value == Unsupported)
  }

  ghost predicate CannotLoop(event: JSON) {
    exists value :: Holds(event, Ascii("parent_event_digests"), value) && (value.Bool? || value.Number? || value.Obj?)
  }

  lemma {:induction false} LoopsExactly(event: JSON, entries: seq<JSON>)
    requires WellFormed(event)
    ensures ParentEntries(event) == NotIterable <==> CannotLoop(event)
    ensures ParentEntries(event) == Entries(entries) <==> LoopsOver(event, entries)
  {
    forall value ensures Property(event, PARENTS) == Some(value) <==> Holds(event, PARENTS, value) {
      HoldsExactly(event, PARENTS, value);
    }
    forall text ensures entries == Characters(text) <==> FallsInto(text, entries) {
      CharactersExactly(text, entries);
    }
  }

  /** What is wrong with one entry of event `i`. */
  ghost predicate Wrong(events: seq<JSON>, i: nat, entry: JSON, what: ParentIssue)
    requires i < |events|
  {
    match what
    case NotADigest => forall hex :: !IsDigestOf(entry, hex)
    case NotFound =>
      exists hex :: IsDigestOf(entry, hex) && forall j :: 0 <= j < |events| ==> !Declares(events[j], hex)
    case SelfParent => exists hex :: IsDigestOf(entry, hex) && Declares(events[i], hex)
  }

  ghost predicate AllWellFormed(events: seq<JSON>) {
    forall i :: 0 <= i < |events| ==> WellFormed(events[i])
  }

  lemma {:induction false} JudgedExactly(events: seq<JSON>, i: nat, entry: JSON, what: ParentIssue)
    requires AllWellFormed(events) && i < |events|
    ensures JudgeParent(entry, DeclaredHex(events[i]), KnownDigests(events)) == Some(what) <==>
            Wrong(events, i, entry, what)
  {
    forall hex ensures ValidDigest(entry) && DigestHex(entry) == hex <==> IsDigestOf(entry, hex) {
      ValidDigestExactly(entry, hex);
    }
    if ValidDigest(entry) {
      var hex := DigestHex(entry);
      forall j | 0 <= j < |events| ensures DeclaredHex(events[j]) == Some(hex) <==> Declares(events[j], hex) {
        DeclaresExactly(events[j], hex);
      }
      KnownIsDeclared(events, hex);
      assert IsDigestOf(entry, hex);
    }
  }

  /** Entry `entry` of event `event`. */
  datatype Place = Place(event: nat, entry: nat)

  ghost predicate Before(p: Place, q: Place) {
    p.event < q.event || (p.event == q.event && p.entry < q.entry)
  }

  ghost predicate InOrder(places: seq<Place>) {
    forall m, n :: 0 <= m < n < |places| ==> Before(places[m], places[n])
  }

  /** The issue says what is wrong with the entry at this place. */
  ghost predicate Tells(issue: Issue, p: Place, lists: seq<seq<JSON>>, events: seq<JSON>)
    requires |lists| == |events|
  {
    && p.event < |lists| && p.entry < |lists[p.event]|
    && issue.event == p.event && Wrong(events, p.event, lists[p.event][p.entry], issue.what)
  }

  /** The issues are those of all the entries that something is wrong with, in the order of the first `n` events. */
  ghost predicate Reports(issues: seq<Issue>, places: seq<Place>, lists: seq<seq<JSON>>, events: seq<JSON>, n: nat)
    requires |lists| == |events|
  {
    && |places| == |issues| && InOrder(places)
    && (forall m :: 0 <= m < |places| ==> places[m].event < n && Tells(issues[m], places[m], lists, events))
    && forall p: Place, what :: p.event < n && Tells(Issue(p.event, what), p, lists, events) ==> p in places
  }

  /** Places `ks` of the parents of event `i` are the ones with an issue. */
  ghost predicate EventReports(issues: seq<Issue>, ks: seq<nat>, i: nat, parents: seq<JSON>, events: seq<JSON>)
    requires i < |events|
  {
    && |ks| == |issues| && Climbs(ks)
    && (forall m :: 0 <= m < |ks| ==>
          ks[m] < |parents| && issues[m].event == i && Wrong(events, i, parents[ks[m]], issues[m].what))
    && forall k, what :: 0 <= k < |parents| && Wrong(events, i, parents[k], what) ==> k in ks
  }

  lemma {:induction false} OneMoreEntry(issues: seq<Issue>, ks: seq<nat>, i: nat, parents: seq<JSON>, last: JSON,
                                        events: seq<JSON>) returns (more: seq<nat>)
    requires AllWellFormed(events) && i < |events| && EventReports(issues, ks, i, parents, events)
    ensures EventReports(issues + IssueAt(i, last, DeclaredHex(events[i]), KnownDigests(events)), more, i,
                         parents + [last], events)
  {
    var found := IssueAt(i, last, DeclaredHex(events[i]), KnownDigests(events));
    more := if found == [] then ks else ks + [|parents|];
    forall what ensures JudgeParent(last, DeclaredHex(events[i]), KnownDigests(events)) == Some(what) <==>
                        Wrong(events, i, last, what) {
      JudgedExactly(events, i, last, what);
    }
    assert forall k :: k in more <==> k in ks || (found != [] && k == |parents|);
  }

  lemma {:induction false} EventExplained(events: seq<JSON>, i: nat, parents: seq<JSON>) returns (ks: seq<nat>)
    requires AllWellFormed(events) && i < |events|
    ensures var issues := IssuesOfEvent(i, parents, DeclaredHex(events[i]), KnownDigests(events));
            EventReports(issues, ks, i, parents, events)
  {
    if parents == [] {
      ks := [];
    } else {
      var last := |parents| - 1;
      var front := EventExplained(events, i, parents[..last]);
      ks := OneMoreEntry(IssuesOfEvent(i, parents[..last], DeclaredHex(events[i]), KnownDigests(events)), front, i,
                         parents[..last], parents[last], events);
      assert parents == parents[..last] + [parents[last]];
    }
  }

  function PlacesIn(i: nat, ks: seq<nat>): (r: seq<Place>)
    ensures |r| == |ks|
    ensures forall m :: 0 <= m < |r| ==> r[m] == Place(i, ks[m])
  {
    seq(|ks|, m requires 0 <= m < |ks| => Place(i, ks[m]))
  }

  lemma {:induction false} OneMoreEvent(issues: seq<Issue>, places: seq<Place>, more: seq<Issue>, ks: seq<nat>,
                                        lists: seq<seq<JSON>>, events: seq<JSON>, n: nat)
    requires |lists| == |events| && n < |events| && Reports(issues, places, lists, events, n)
    requires EventReports(more, ks, n, lists[n], events)
    ensures Reports(issues + more, places + PlacesIn(n, ks), lists, events, n + 1)
  {
    var all := places + PlacesIn(n, ks);
    forall m | 0 <= m < |all| ensures all[m].event < n + 1 && Tells((issues + more)[m], all[m], lists, events) {
      if m >= |places| {
        assert all[m] == Place(n, ks[m - |places|]);
      }
    }
    forall p: Place, what | p.event < n + 1 && Tells(Issue(p.event, what), p, lists, events) ensures p in all {
      if p.event == n {
        assert p.entry in ks;
        var m :| 0 <= m < |ks| && ks[m] == p.entry;
        assert all[|places| + m] == p;
      }
    }
  }

  lemma {:induction false} EventsExplained(events: seq<JSON>, lists: seq<seq<JSON>>, n: nat)
    returns (places: seq<Place>)
    requires AllWellFormed(events) && |lists| == |events| && n <= |events|
    requires forall i :: 0 <= i < |events| ==> lists[i] == ParentsOf(events[i])
    ensures Reports(Concat(IssuesPerEvent(events)[..n]), places, lists, events, n)
  {
    if n == 0 {
      places := [];
    } else {
      var front := EventsExplained(events, lists, n - 1);
      var ks := EventExplained(events, n - 1, lists[n - 1]);
      ConcatStep(IssuesPerEvent(events), n - 1);
      OneMoreEvent(Concat(IssuesPerEvent(events)[..n - 1]), front, IssuesAt(events, n - 1), ks, lists, events, n - 1);
      places := front + PlacesIn(n - 1, ks);
    }
  }

  ghost predicate LoopsOverEach(events: seq<JSON>, lists: seq<seq<JSON>>) {
    |lists| == |events| && forall i :: 0 <= i < |events| ==> LoopsOver(events[i], lists[i])
  }

  /** The issues are those of all the entries that are no digest, or one that no event declares, or the event's
      own, in the order of the entries. */
  ghost predicate ReportsAll(issues: seq<Issue>, lists: seq<seq<JSON>>, events: seq<JSON>)
    requires |lists| == |events|
  {
    exists places :: Reports(issues, places, lists, events, |events|)
  }

  lemma {:induction false} IssuesExactly(events: seq<JSON>, lists: seq<seq<JSON>>)
    requires AllWellFormed(events) && AllIterable(events) && LoopsOverEach(events, lists)
    ensures ReportsAll(ParentIssues(events), lists, events)
  {
    forall i | 0 <= i < |events| ensures lists[i] == ParentsOf(events[i]) {
      LoopsExactly(events[i], lists[i]);
    }
    var places := EventsExplained(events, lists, |events|);
    assert IssuesPerEvent(events)[..|events|] == IssuesPerEvent(events);
  }

  lemma {:induction false} ThrowsExactly(events: seq<JSON>)
    requires AllWellFormed(events)
    ensures AllIterable(events) <==> forall i :: 0 <= i < |events| ==> !CannotLoop(events[i])
  {
    forall i | 0 <= i < |events| ensures Iterable(events[i]) <==> !CannotLoop(events[i]) {
      LoopsExactly(events[i], []);
    }
  }

  // ---------------------------------------------------------------------
  // The causal graph
  // ---------------------------------------------------------------------

  /** What stage 5 and stage 6 of structural verification establish about the events. */
  ghost predicate EventsVerified(events: seq<JSON>, hash: Hash) {
    && (forall i :: 0 <= i < |events| ==> events[i].Obj? && VerifyObjectDigest(events[i], hash) == Sound)
    && ParentsResolve(events)
  }

  /** Event `i` names event `j` as a causal parent. */
  ghost predicate HasParent(events: seq<JSON>, i: nat, j: nat)
    requires i < |events| && j < |events|
  {
    exists k :: 0 <= k < |ParentsOf(events[i])| && ValidDigest(ParentsOf(events[i])[k])
                && DeclaredHex(events[j]) == Some(DigestHex(ParentsOf(events[i])[k]))
  }

  /** What an event's digest is computed over. */
  function Covered(event: JSON): CanonicalBytes
    requires event.Obj?
  {
    CanonicalizeBytes(Obj(Without(event.members, OBJECT_DIGEST)))
  }

  /** The event can be digested. */
  predicate HasBytes(event: JSON) { event.Obj? && Covered(event).CanonBytes? }

  function CoveredBytes(event: JSON): Bytes
    requires HasBytes(event)
  {
    Covered(event).bytes
  }

  /** The bytes under the child's digest spell out the hash of the bytes under the parent's. */
  ghost predicate SpellsHashOf(child: JSON, parent: JSON, hash: Hash) {
    HasBytes(child) && HasBytes(parent) && Within(Encode(hash(CoveredBytes(parent))), CoveredBytes(child))
  }

  lemma {:induction false} Sha256IsPlain(hex: Text)
    requires IsSha256(hex)
    ensures Plain(hex)
  {
  }

  /** A digest's hexadecimal text stands in the canonical text of the digest object. */
  lemma {:induction false} HexWithinDigest(digest: JSON)
    requires ValidDigest(digest) && Canonicalize(digest).Canon?
    ensures Within(DigestHex(digest), Canonicalize(digest).text)
  {
    var hex := DigestHex(digest);
    Sha256IsPlain(hex);
    PlainWithinText(hex);
    GetIsMember(digest.members, VALUE);
    ValueWithinObject(digest.members, Member(VALUE, Str(hex)));
    WithinTransitive(hex, Canonicalize(Str(hex)).text, Canonicalize(digest).text);
  }

  lemma {:induction false} CharactersAreStrings(text: Text, k: nat)
    requires k < |Characters(text)|
    ensures Characters(text)[k].Str?
  {
    if k > 0 {
      CharactersAreStrings(text[CharLength(text)..], k - 1);
    }
  }

  /** A digest among the parents can only stand in a list. */
  lemma {:induction false} ParentsAreListed(event: JSON, k: nat)
    requires k < |ParentsOf(event)| && ValidDigest(ParentsOf(event)[k])
    ensures Property(event, PARENTS) == Some(Arr(ParentsOf(event)))
  {
    var found := Property(event, PARENTS);
    if found.Some? && found.value.Str? {
      CharactersAreStrings(found.value.text, k);
    }
  }

  /** The bytes under an event's digest hold the digest of each of its parents. */
  lemma {:induction false} ParentHexCovered(event: JSON, hash: Hash, k: nat)
    requires event.Obj? && VerifyObjectDigest(event, hash) == Sound
    requires k < |ParentsOf(event)| && ValidDigest(ParentsOf(event)[k])
    ensures HasBytes(event) && Within(Encode(DigestHex(ParentsOf(event)[k])), CoveredBytes(event))
  {
    SoundDigest(event, hash);
    var covered := Without(event.members, OBJECT_DIGEST);
    var text := Canonicalize(Obj(covered)).text;
    var parents := ParentsOf(event);
    var hex := DigestHex(parents[k]);
    ParentsAreListed(event, k);
    GetIsMember(event.members, PARENTS);
    WithoutMembers(event.members, OBJECT_DIGEST);
    assert |PARENTS| != |OBJECT_DIGEST|;
    ValueWithinObject(covered, Member(PARENTS, Arr(parents)));
    ElementWithinArray(parents, k);
    HexWithinDigest(parents[k]);
    WithinTransitive(hex, Canonicalize(parents[k]).text, Canonicalize(Arr(parents)).text);
    WithinTransitive(hex, Canonicalize(Arr(parents)).text, text);
    CanonicalTextValid(Obj(covered));
    Sha256IsPlain(hex);
    PlainRunEncodes(hex, text);
  }

  /** One parent link: the child's covered bytes spell out the hash of the parent's covered bytes. */
  lemma {:induction false} ParentLink(events: seq<JSON>, hash: Hash, i: nat, j: nat)
    requires EventsVerified(events, hash) && i < |events| && j < |events| && HasParent(events, i, j)
    ensures SpellsHashOf(events[i], events[j], hash)
  {
    var k :| 0 <= k < |ParentsOf(events[i])| && ValidDigest(ParentsOf(events[i])[k])
             && DeclaredHex(events[j]) == Some(DigestHex(ParentsOf(events[i])[k]));
    ParentHexCovered(events[i], hash, k);
    SoundDigest(events[j], hash);
  }

  /** A walk from event to causal parent, and on. */
  ghost predicate ParentPath(events: seq<JSON>, path: seq<nat>) {
    && path != []
    && (forall k :: 0 <= k < |path| ==> path[k] < |events|)
    && (forall k :: 0 <= k < |path| - 1 ==> HasParent(events, path[k], path[k + 1]))
  }

  lemma {:induction false} NotOwnParent(events: seq<JSON>, i: nat)
    requires ParentsResolve(events) && i < |events|
    ensures !HasParent(events, i, i)
  {
    assert ParentsResolveAt(events, i);
    forall k | 0 <= k < |ParentsOf(events[i])|
      ensures ValidDigest(ParentsOf(events[i])[k]) && DeclaredHex(events[i]) != Some(DigestHex(ParentsOf(events[i])[k]))
    {
      assert Resolves(ParentsOf(events[i])[k], DeclaredHex(events[i]), events);
    }
  }

  /** Although the checks forbid only self-parenting, a longer cycle would be a cycle of hash
      preimages: bytes each spelling out the hash of the next, round to the first. */
  lemma {:induction false} CausalCycleIsHashCycle(events: seq<JSON>, hash: Hash, path: seq<nat>)
    requires EventsVerified(events, hash) && ParentPath(events, path)
    requires |path| > 1 && path[0] == path[|path| - 1]
    ensures |path| > 2 && path[1] != path[0]
    ensures forall k :: 0 <= k < |path| - 1 ==> SpellsHashOf(events[path[k]], events[path[k + 1]], hash)
  {
    forall k | 0 <= k < |path| - 1 ensures SpellsHashOf(events[path[k]], events[path[k + 1]], hash) {
      ParentLink(events, hash, path[k], path[k + 1]);
    }
    NotOwnParent(events, path[0]);
    assert HasParent(events, path[0], path[1]);
  }
}
