/** Revision histories: each payload lists the digest of the payload before it, so the digest
    of the last one fixes them all. */
module History {
  import opened Utf16
  import opened Json
  import opened Utf8
  import opened Objects
  import opened Digests

  const BUNDLE_ID: Text := Ascii("bundle_id")
  const ACTION_ID: Text := Ascii("action_id")
  const CREATED_AT: Text := Ascii("created_at")
  const ISSUERS: Text := Ascii("issuers")
  const EVENTS: Text := Ascii("events")
  const EVIDENCE: Text := Ascii("evidence")
  const RELATIONSHIPS: Text := Ascii("relationships")
  const PREDECESSORS: Text := Ascii("predecessor_bundle_digests")
  const EXTENSIONS: Text := Ascii("extensions")
  const VERSION_0_1: Text := Ascii("0.1")
  const TP_JSON_0_1: Text := Ascii("TP-JSON-0.1")

  /** What one revision supplies; the link to its predecessor is not among it. */
  datatype Revision = Revision(bundleId: JSON, actionId: JSON, createdAt: JSON, issuers: JSON, events: JSON,
                               evidence: JSON, relationships: JSON, extensions: JSON)

  /** The revision with its lists and extensions cloned. */
  function ClonedRevision(r: Revision): Revision {
    r.(issuers := Clone(r.issuers), events := Clone(r.events), evidence := Clone(r.evidence),
       relationships := Clone(r.relationships), extensions := Clone(r.extensions))
  }

  function PayloadMembers(r: Revision, predecessors: JSON): seq<Member> {
    [Member(SPEC_VERSION, Str(VERSION_0_1)), Member(PROFILE, Str(TP_JSON_0_1)),
     Member(BUNDLE_ID, r.bundleId), Member(ACTION_ID, r.actionId), Member(CREATED_AT, r.createdAt),
     Member(ISSUERS, r.issuers), Member(EVENTS, r.events), Member(EVIDENCE, r.evidence),
     Member(RELATIONSHIPS, r.relationships), Member(PREDECESSORS, predecessors), Member(EXTENSIONS, r.extensions)]
  }

  /** The payload `createEvidenceBundle` builds around a list of predecessor digests. */
  function Payload(r: Revision, predecessors: JSON): JSON {
    Obj(PayloadMembers(ClonedRevision(r), Clone(predecessors)))
  }

  function BytesOf(p: JSON): Bytes
    requires CanonicalizeBytes(p).CanonBytes?
  {
    CanonicalizeBytes(p).bytes
  }

  /** The first payload has no predecessor, each later one lists exactly the digest of the one before. */
  ghost predicate Linked(h: seq<JSON>, hash: Hash) {
    && h != []
    && (forall i :: 0 <= i < |h| ==> GoodObject(h[i]))
    && Get(h[0].members, PREDECESSORS) == Some(Arr([]))
    && forall i :: 0 < i < |h| ==> LinkedTo(h[i - 1], h[i], hash)
  }

  ghost predicate LinkedTo(previous: JSON, next: JSON, hash: Hash)
    requires next.Obj?
  {
    CanonicalizeBytes(previous).CanonBytes?
    && Get(next.members, PREDECESSORS) == Some(Arr([DigestObject(hash(BytesOf(previous)))]))
  }

  lemma {:induction false} GoodObjectBytes(p: JSON)
    requires GoodObject(p)
    ensures CanonicalizeBytes(p).CanonBytes?
  {
    SucceedsExactlyOnAccepted(p);
  }

  ghost predicate PayloadsCollide(p: JSON, q: JSON, hash: Hash) {
    && CanonicalizeBytes(p).CanonBytes? && CanonicalizeBytes(q).CanonBytes?
    && Collision(hash, CanonicalizeBytes(p).bytes, CanonicalizeBytes(q).bytes)
  }

  /** As many revisions before the head, the two histories hold different payloads under one hash. */
  ghost predicate CollidesAt(h1: seq<JSON>, h2: seq<JSON>, hash: Hash, i: nat, j: nat) {
    i < |h1| && j < |h2| && |h1| - i == |h2| - j && PayloadsCollide(h1[i], h2[j], hash)
  }

  ghost predicate SamePayloads(h1: seq<JSON>, h2: seq<JSON>) {
    |h1| == |h2| && forall i :: 0 <= i < |h1| ==> Same(h1[i], h2[i])
  }

  lemma {:induction false} LinkedPrefix(h: seq<JSON>, hash: Hash)
    requires Linked(h, hash) && |h| > 1
    ensures Linked(h[..|h| - 1], hash)
    ensures LinkedTo(h[|h| - 2], h[|h| - 1], hash)
  {
    var p := h[..|h| - 1];
    forall i | 0 < i < |p| ensures LinkedTo(p[i - 1], p[i], hash) {
      assert LinkedTo(h[i - 1], h[i], hash);
    }
  }

  /** The same head payload lists the same predecessor, or none on both sides. */
  lemma {:induction false} SameHeadSameLink(p: JSON, q: JSON)
    requires GoodObject(p) && GoodObject(q) && Same(p, q)
    ensures Get(p.members, PREDECESSORS).Some? ==>
              Get(q.members, PREDECESSORS).Some?
              && Same(Get(p.members, PREDECESSORS).value, Get(q.members, PREDECESSORS).value)
  {
    SameObjectsAgree(p.members, q.members, PREDECESSORS);
  }

  /** Two histories that end in one payload digest are equal payload by payload, their length
      included, or some pair of their payloads is an explicit collision. */
  lemma {:induction false} HeadDigestFixesHistory(h1: seq<JSON>, h2: seq<JSON>, hash: Hash)
    requires Linked(h1, hash) && Linked(h2, hash)
    requires DigestValue(h1[|h1| - 1], hash) == DigestValue(h2[|h2| - 1], hash)
    ensures SamePayloads(h1, h2) || exists i: nat, j: nat :: CollidesAt(h1, h2, hash, i, j)
    decreases |h1|
  {
    var p, q := h1[|h1| - 1], h2[|h2| - 1];
    DigestDecidesSame(p, q, hash);
    if !Same(p, q) {
      assert CollidesAt(h1, h2, hash, |h1| - 1, |h2| - 1);
    } else {
      SameHeadSameLink(p, q);
      if |h1| > 1 && |h2| > 1 {
        EarlierHistories(h1, h2, hash);
      } else if |h1| > 1 {
        LinkedPrefix(h1, hash);
      } else if |h2| > 1 {
        LinkedPrefix(h2, hash);
      }
    }
  }

  lemma {:induction false} EarlierHistories(h1: seq<JSON>, h2: seq<JSON>, hash: Hash)
    requires Linked(h1, hash) && Linked(h2, hash) && |h1| > 1 && |h2| > 1
    requires Same(h1[|h1| - 1], h2[|h2| - 1])
    ensures SamePayloads(h1, h2) || exists i: nat, j: nat :: CollidesAt(h1, h2, hash, i, j)
    decreases |h1|, 0
  {
    var e1, e2 := h1[..|h1| - 1], h2[..|h2| - 1];
    LinkedPrefix(h1, hash);
    LinkedPrefix(h2, hash);
    LinkedDigestsAgree(h1[|h1| - 2], h1[|h1| - 1], h2[|h2| - 2], h2[|h2| - 1], hash);
    HeadDigestFixesHistory(e1, e2, hash);
    if SamePayloads(e1, e2) {
      PayloadsBehindHead(h1, h2);
    } else {
      var i: nat, j: nat :| CollidesAt(e1, e2, hash, i, j);
      CollisionBehindHead(h1, h2, hash, i, j);
    }
  }

  lemma {:induction false} LinkedDigestsAgree(p1: JSON, n1: JSON, p2: JSON, n2: JSON, hash: Hash)
    requires GoodObject(n1) && GoodObject(n2) && Same(n1, n2)
    requires LinkedTo(p1, n1, hash) && LinkedTo(p2, n2, hash)
    ensures DigestValue(p1, hash) == DigestValue(p2, hash)
  {
    SameHeadSameLink(n1, n2);
    var a, b := [DigestObject(hash(BytesOf(p1)))], [DigestObject(hash(BytesOf(p2)))];
    assert Same(a[0], b[0]);
    SameDigests(hash(BytesOf(p1)), hash(BytesOf(p2)));
  }

  lemma {:induction false} PayloadsBehindHead(h1: seq<JSON>, h2: seq<JSON>)
    requires h1 != [] && h2 != [] && SamePayloads(h1[..|h1| - 1], h2[..|h2| - 1])
    requires Same(h1[|h1| - 1], h2[|h2| - 1])
    ensures SamePayloads(h1, h2)
  {
    forall i | 0 <= i < |h1| ensures Same(h1[i], h2[i]) {
      if i < |h1| - 1 {
        assert Same(h1[..|h1| - 1][i], h2[..|h2| - 1][i]);
      }
    }
  }

  lemma {:induction false} CollisionBehindHead(h1: seq<JSON>, h2: seq<JSON>, hash: Hash, i: nat, j: nat)
    requires h1 != [] && h2 != [] && CollidesAt(h1[..|h1| - 1], h2[..|h2| - 1], hash, i, j)
    ensures CollidesAt(h1, h2, hash, i, j)
  {
  }

  // ---------------------------------------------------------------------
  // Histories as the builder makes them
  // ---------------------------------------------------------------------

  ghost predicate GoodRevision(r: Revision) {
    && GoodValue(r.bundleId) && GoodValue(r.actionId) && GoodValue(r.createdAt) && GoodValue(r.issuers)
    && GoodValue(r.events) && GoodValue(r.evidence) && GoodValue(r.relationships) && GoodValue(r.extensions)
  }

  /** A run of revisions: the first payload without predecessor, then one payload a revision,
      each built on the digest of the payload before it. */
  function Run(revisions: seq<Revision>, hash: Hash): seq<JSON> {
    if revisions == [] then []
    else
      var earlier := Run(revisions[..|revisions| - 1], hash);
      var predecessors :=
        if earlier == [] then Arr([])
        else match DigestValue(earlier[|earlier| - 1], hash)
          case Done(digest) => Arr([digest])
          case _ => Arr([]);
      earlier + [Payload(revisions[|revisions| - 1], predecessors)]
  }

  lemma {:induction false} PayloadKeysDistinct(r: Revision, predecessors: JSON)
    ensures DistinctKeys(PayloadMembers(r, predecessors))
  {
    assert SPEC_VERSION[0] == 0x73 && PROFILE[0] == 0x70 && PREDECESSORS[0] == 0x70;
    assert |PROFILE| == 7 && |PREDECESSORS| == 26;
    assert BUNDLE_ID[0] == 0x62 && ACTION_ID[0] == 0x61 && CREATED_AT[0] == 0x63;
    assert ISSUERS[0] == 0x69 && RELATIONSHIPS[0] == 0x72;
    assert EVENTS[0] == 0x65 && EVIDENCE[0] == 0x65 && EXTENSIONS[0] == 0x65;
    assert |EVENTS| == 6 && |EVIDENCE| == 8 && |EXTENSIONS| == 10;
  }

  const PAYLOAD_NAMES: seq<string> :=
    ["spec_version", "profile", "bundle_id", "action_id", "created_at", "issuers", "events", "evidence",
     "relationships", "predecessor_bundle_digests", "extensions"]

  lemma {:induction false} PayloadNamesAscii()
    ensures forall i :: 0 <= i < |PAYLOAD_NAMES| ==> IsAscii(PAYLOAD_NAMES[i])
  {
    FirstNamesAscii();
    LastNamesAscii();
  }

  lemma {:induction false} FirstNamesAscii()
    ensures forall i :: 0 <= i < 6 ==> IsAscii(PAYLOAD_NAMES[i])
  {
  }

  lemma {:induction false} LastNamesAscii()
    ensures forall i :: 6 <= i < |PAYLOAD_NAMES| ==> IsAscii(PAYLOAD_NAMES[i])
  {
  }

  lemma {:induction false} PayloadKeysNamed(r: Revision, predecessors: JSON)
    requires forall i :: 0 <= i < |PAYLOAD_NAMES| ==> IsAscii(PAYLOAD_NAMES[i])
    ensures |PayloadMembers(r, predecessors)| == |PAYLOAD_NAMES|
    ensures forall i :: 0 <= i < |PAYLOAD_NAMES| ==> PayloadMembers(r, predecessors)[i].key == Ascii(PAYLOAD_NAMES[i])
  {
  }

  lemma {:induction false} PayloadMembersGood(r: Revision, predecessors: JSON)
    requires GoodRevision(r) && GoodValue(predecessors)
    ensures GoodObject(Obj(PayloadMembers(r, predecessors)))
  {
    var members := PayloadMembers(r, predecessors);
    PayloadKeysDistinct(r, predecessors);
    PayloadNamesAscii();
    PayloadKeysNamed(r, predecessors);
    NamesValid(members, PAYLOAD_NAMES);
    TextIsGood("0.1");
    TextIsGood("TP-JSON-0.1");
    GoodMembers(members);
  }

  lemma {:induction false} PayloadIsGood(r: Revision, predecessors: JSON)
    requires GoodRevision(r) && GoodValue(predecessors)
    ensures GoodObject(Payload(r, predecessors))
  {
    GoodClone(r.issuers);
    GoodClone(r.events);
    GoodClone(r.evidence);
    GoodClone(r.relationships);
    GoodClone(r.extensions);
    GoodClone(predecessors);
    PayloadMembersGood(ClonedRevision(r), Clone(predecessors));
  }

  lemma {:induction false} DigestListIsGood(hex: Text)
    requires IsSha256(hex)
    ensures GoodValue(Arr([DigestObject(hex)])) && Clone(Arr([DigestObject(hex)])) == Arr([DigestObject(hex)])
  {
    DigestObjectIsGood(hex);
    DigestObjectCloned(hex);
    assert CloneItems([DigestObject(hex)]) == [DigestObject(hex)];
  }

  ghost predicate HoldsProfile(p: JSON, r: Revision) {
    && Holds(p, Ascii("spec_version"), Str(Ascii("0.1"))) && Holds(p, Ascii("profile"), Str(Ascii("TP-JSON-0.1")))
    && Holds(p, Ascii("bundle_id"), r.bundleId) && Holds(p, Ascii("action_id"), r.actionId)
    && Holds(p, Ascii("created_at"), r.createdAt)
  }

  ghost predicate HoldsLists(p: JSON, r: Revision) {
    && Holds(p, Ascii("issuers"), Clone(r.issuers)) && Holds(p, Ascii("events"), Clone(r.events))
    && Holds(p, Ascii("evidence"), Clone(r.evidence)) && Holds(p, Ascii("relationships"), Clone(r.relationships))
    && Holds(p, Ascii("extensions"), Clone(r.extensions))
  }

  ghost predicate HoldsPredecessors(p: JSON, predecessors: JSON) {
    Holds(p, Ascii("predecessor_bundle_digests"), predecessors)
  }

  /** The payload holds the version and the profile, the revision's parts under their names, its lists and extensions
      cloned, and besides those ten members only the predecessors. */
  ghost predicate HoldsRevision(p: JSON, r: Revision, predecessors: JSON) {
    && p.Obj? && DistinctKeys(p.members) && |p.members| == 11
    && HoldsProfile(p, r) && HoldsLists(p, r) && HoldsPredecessors(p, predecessors)
  }

  /** A payload holds its revision. */
  lemma {:induction false} PayloadParts(r: Revision, predecessors: JSON)
    ensures HoldsRevision(Payload(r, predecessors), r, Clone(predecessors))
  {
    var p := Payload(r, predecessors);
    PayloadKeysDistinct(ClonedRevision(r), Clone(predecessors));
    PayloadMembersAnswer(ClonedRevision(r), Clone(predecessors));
    forall name, value | Get(p.members, name) == Some(value) ensures Holds(p, name, value) {
      HoldsExactly(p, name, value);
    }
  }

  lemma {:induction false} PredecessorsAnswer(r: Revision, predecessors: JSON)
    ensures Get(Payload(r, predecessors).members, PREDECESSORS) == Some(Clone(predecessors))
  {
    PayloadMembersAnswer(ClonedRevision(r), Clone(predecessors));
  }

  lemma {:induction false} PayloadMembersAnswer(r: Revision, predecessors: JSON)
    ensures var members := PayloadMembers(r, predecessors);
            && Get(members, SPEC_VERSION) == Some(Str(VERSION_0_1)) && Get(members, PROFILE) == Some(Str(TP_JSON_0_1))
            && Get(members, BUNDLE_ID) == Some(r.bundleId) && Get(members, ACTION_ID) == Some(r.actionId)
            && Get(members, CREATED_AT) == Some(r.createdAt) && Get(members, ISSUERS) == Some(r.issuers)
            && Get(members, EVENTS) == Some(r.events) && Get(members, EVIDENCE) == Some(r.evidence)
            && Get(members, RELATIONSHIPS) == Some(r.relationships) && Get(members, PREDECESSORS) == Some(predecessors)
            && Get(members, EXTENSIONS) == Some(r.extensions)
  {
    var members := PayloadMembers(r, predecessors);
    PayloadKeysDistinct(r, predecessors);
    AllAnswer(members);
    assert members[0].key == SPEC_VERSION && members[1].key == PROFILE && members[2].key == BUNDLE_ID;
    assert members[3].key == ACTION_ID && members[4].key == CREATED_AT && members[5].key == ISSUERS;
    assert members[6].key == EVENTS && members[7].key == EVIDENCE && members[8].key == RELATIONSHIPS;
    assert members[9].key == PREDECESSORS && members[10].key == EXTENSIONS;
  }

  lemma {:induction false} FirstPayload(r: Revision, hash: Hash)
    requires GoodRevision(r)
    ensures Linked([Payload(r, Arr([]))], hash)
  {
    NoPredecessors();
    PayloadIsGood(r, Arr([]));
    PredecessorsAnswer(r, Arr([]));
    LinkedAlone(Payload(r, Arr([])), hash);
  }

  lemma {:induction false} NoPredecessors()
    ensures GoodValue(Arr([])) && Clone(Arr([])) == Arr([])
  {
  }

  lemma {:induction false} LinkedAlone(p: JSON, hash: Hash)
    requires GoodObject(p) && Get(p.members, PREDECESSORS) == Some(Arr([]))
    ensures Linked([p], hash)
  {
  }

  lemma {:induction false} RunStep(revisions: seq<Revision>, hash: Hash)
    requires revisions != []
    ensures var last := |revisions| - 1;
            var earlier := Run(revisions[..last], hash);
            && (last == 0 ==> Run(revisions, hash) == [Payload(revisions[last], Arr([]))])
            && (earlier != [] && DigestValue(earlier[|earlier| - 1], hash).Done? ==>
                Run(revisions, hash) ==
                earlier + [Payload(revisions[last], Arr([DigestValue(earlier[|earlier| - 1], hash).value]))])
  {
  }

  ghost predicate GoodRevisions(rs: seq<Revision>) {
    rs != [] && forall i :: 0 <= i < |rs| ==> GoodRevision(rs[i])
  }

  /** Whatever revisions are made, their history is linked. */
  lemma {:induction false} RunIsLinked(revisions: seq<Revision>, hash: Hash)
    requires HexHash(hash) && GoodRevisions(revisions)
    ensures Linked(Run(revisions, hash), hash)
    ensures |Run(revisions, hash)| == |revisions|
  {
    var last := |revisions| - 1;
    RunStep(revisions, hash);
    if last == 0 {
      FirstPayload(revisions[last], hash);
    } else {
      RunIsLinked(revisions[..last], hash);
      LinkOnto(Run(revisions[..last], hash), revisions[last], hash);
    }
  }

  lemma {:induction false} LinkOnto(earlier: seq<JSON>, r: Revision, hash: Hash)
    requires HexHash(hash) && Linked(earlier, hash) && GoodRevision(r)
    ensures DigestValue(earlier[|earlier| - 1], hash).Done?
    ensures Linked(earlier + [Payload(r, Arr([DigestValue(earlier[|earlier| - 1], hash).value]))], hash)
  {
    var previous := earlier[|earlier| - 1];
    GoodObjectBytes(previous);
    var hex := hash(BytesOf(previous));
    DigestListIsGood(hex);
    PayloadIsGood(r, Arr([DigestObject(hex)]));
    PredecessorsAnswer(r, Arr([DigestObject(hex)]));
    LinkExtends(earlier, Payload(r, Arr([DigestObject(hex)])), hash);
  }

  lemma {:induction false} LinkExtends(earlier: seq<JSON>, next: JSON, hash: Hash)
    requires Linked(earlier, hash) && GoodObject(next) && LinkedTo(earlier[|earlier| - 1], next, hash)
    ensures Linked(earlier + [next], hash)
  {
    var h := earlier + [next];
    forall i | 0 < i < |h| ensures LinkedTo(h[i - 1], h[i], hash) {
      if i < |earlier| {
        assert LinkedTo(earlier[i - 1], earlier[i], hash);
      }
    }
  }

  /** Payload `i` has no predecessor if it is the first, and otherwise the digest of the payload before it. */
  ghost predicate Follows(list: seq<JSON>, h: seq<JSON>, i: nat, hash: Hash)
    requires i < |h|
  {
    if i == 0 then list == []
    else
      && CanonicalizeBytes(h[i - 1]).CanonBytes?
      && |list| == 1 && IsDigestOf(list[0], hash(CanonicalizeBytes(h[i - 1]).bytes))
  }

  ghost predicate HoldsAt(revisions: seq<Revision>, h: seq<JSON>, i: nat, hash: Hash)
    requires i < |revisions| && i < |h|
  {
    exists list :: HoldsRevision(h[i], revisions[i], Arr(list)) && Follows(list, h, i, hash)
  }

  /** Every payload holds its revision and the digest of the payload before it: those in front of the last one, and
      the last. */
  ghost predicate AllHeld(revisions: seq<Revision>, h: seq<JSON>, hash: Hash) {
    && |h| == |revisions|
    && (h != [] ==>
          && AllHeld(revisions[..|h| - 1], h[..|h| - 1], hash)
          && HoldsAt(revisions, h, |h| - 1, hash))
  }

  lemma {:induction false} LastHolds(revisions: seq<Revision>, earlier: seq<JSON>, hash: Hash)
    requires HexHash(hash) && earlier != [] && |revisions| == |earlier| + 1
    requires CanonicalizeBytes(earlier[|earlier| - 1]).CanonBytes?
    ensures DigestValue(earlier[|earlier| - 1], hash).Done?
    ensures var link := DigestValue(earlier[|earlier| - 1], hash).value;
            HoldsAt(revisions, earlier + [Payload(revisions[|earlier|], Arr([link]))], |earlier|, hash)
  {
    var previous, r := earlier[|earlier| - 1], revisions[|earlier|];
    var hex := hash(CanonicalizeBytes(previous).bytes);
    var list := [DigestObject(hex)];
    var h := earlier + [Payload(r, Arr(list))];
    DigestValueExactly(previous, hash);
    DigestListIsGood(hex);
    PayloadParts(r, Arr(list));
    assert h[|earlier| - 1] == previous && Follows(list, h, |earlier|, hash);
  }

  lemma {:induction false} FirstHeld(revisions: seq<Revision>, hash: Hash)
    requires |revisions| == 1
    ensures AllHeld(revisions, [Payload(revisions[0], Arr([]))], hash)
  {
    var p := Payload(revisions[0], Arr([]));
    NoPredecessors();
    PayloadParts(revisions[0], Arr([]));
    assert Follows([], [p], 0, hash);
    assert AllHeld(revisions[..0], [p][..0], hash);
  }

  lemma {:induction false} OneMoreHeld(revisions: seq<Revision>, earlier: seq<JSON>, hash: Hash)
    requires HexHash(hash) && |revisions| > 1 && AllHeld(revisions[..|revisions| - 1], earlier, hash)
    requires CanonicalizeBytes(earlier[|earlier| - 1]).CanonBytes?
    ensures DigestValue(earlier[|earlier| - 1], hash).Done?
    ensures var link := DigestValue(earlier[|earlier| - 1], hash).value;
            AllHeld(revisions, earlier + [Payload(revisions[|revisions| - 1], Arr([link]))], hash)
  {
    var last := |revisions| - 1;
    LastHolds(revisions, earlier, hash);
    var h := earlier + [Payload(revisions[last], Arr([DigestValue(earlier[last - 1], hash).value]))];
    assert h[..last] == earlier;
  }

  lemma {:induction false} RunExtends(revisions: seq<Revision>, hash: Hash)
    requires HexHash(hash) && |revisions| > 1
    requires var earlier := Run(revisions[..|revisions| - 1], hash);
             AllHeld(revisions[..|revisions| - 1], earlier, hash)
             && CanonicalizeBytes(earlier[|earlier| - 1]).CanonBytes?
    ensures AllHeld(revisions, Run(revisions, hash), hash)
  {
    OneMoreHeld(revisions, Run(revisions[..|revisions| - 1], hash), hash);
    RunStep(revisions, hash);
  }

  /** Every payload of a run holds its revision and the digest of the payload before it. */
  lemma {:induction false} RunHoldsRevisions(revisions: seq<Revision>, hash: Hash)
    requires HexHash(hash) && GoodRevisions(revisions)
    ensures AllHeld(revisions, Run(revisions, hash), hash)
  {
    var front := revisions[..|revisions| - 1];
    if front == [] {
      RunStep(revisions, hash);
      FirstHeld(revisions, hash);
    } else {
      RunHoldsRevisions(front, hash);
      RunIsLinked(front, hash);
      GoodObjectBytes(Run(front, hash)[|front| - 1]);
      RunExtends(revisions, hash);
    }
  }

  /** The last payloads of the two histories have one digest. */
  ghost predicate OneHead(h1: seq<JSON>, h2: seq<JSON>, hash: Hash) {
    h1 != [] && h2 != [] && DigestValue(h1[|h1| - 1], hash) == DigestValue(h2[|h2| - 1], hash)
  }

  /** Two runs of the builder that end in one payload digest went through the same payloads from
      first to last, or exhibit a collision. */
  lemma {:induction false} RunsWithOneHeadAgree(r1: seq<Revision>, r2: seq<Revision>, hash: Hash)
    requires HexHash(hash) && GoodRevisions(r1) && GoodRevisions(r2)
    ensures var h1, h2 := Run(r1, hash), Run(r2, hash);
            OneHead(h1, h2, hash) ==>
              (|r1| == |r2| && SamePayloads(h1, h2)) || exists i: nat, j: nat :: CollidesAt(h1, h2, hash, i, j)
  {
    RunIsLinked(r1, hash);
    RunIsLinked(r2, hash);
    var h1, h2 := Run(r1, hash), Run(r2, hash);
    if OneHead(h1, h2, hash) {
      HeadDigestFixesHistory(h1, h2, hash);
    }
  }
}
