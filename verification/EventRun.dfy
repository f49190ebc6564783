/** Events as the builders make them, each naming earlier ones as causal parents, and why the
    structural verifier accepts every such run. */
module EventRun {
  import opened Utf16
  import opened Json
  import opened Utf8
  import opened Objects
  import opened Digests
  import opened Causality
  import opened History

  const EVENT_ID: Text := Ascii("event_id")
  const PHASE: Text := Ascii("phase")
  const EVENT_TYPE: Text := Ascii("event_type")
  const STATUS: Text := Ascii("status")
  const OCCURRED_AT: Text := Ascii("occurred_at")
  const RECORDED_AT: Text := Ascii("recorded_at")
  const SOURCE_CLASS: Text := Ascii("source_class")
  const ISSUER_REF: Text := Ascii("issuer_ref")
  const ACTOR: Text := Ascii("actor")
  const SUBJECT: Text := Ascii("subject")
  const CLAIM: Text := Ascii("claim")
  const EVIDENCE_REFS: Text := Ascii("evidence_refs")

  /** What one event supplies; its parents are given by their place among the events already built. */
  datatype Draft = Draft(id: JSON, phase: JSON, eventType: JSON, status: JSON, occurredAt: JSON, recordedAt: JSON,
                         sourceClass: JSON, issuerRef: JSON, actor: JSON, subject: JSON, claim: JSON,
                         evidenceRefs: JSON, parents: seq<nat>)

  /** The object `event` finalizes. */
  function EventMembers(d: Draft, parents: JSON): seq<Member> {
    [Member(EVENT_ID, d.id), Member(PHASE, d.phase), Member(EVENT_TYPE, d.eventType), Member(STATUS, d.status),
     Member(OCCURRED_AT, d.occurredAt), Member(RECORDED_AT, d.recordedAt), Member(SOURCE_CLASS, d.sourceClass),
     Member(ISSUER_REF, d.issuerRef), Member(ACTOR, d.actor), Member(SUBJECT, d.subject), Member(CLAIM, d.claim),
     Member(EVIDENCE_REFS, d.evidenceRefs), Member(PARENTS, parents), Member(EXTENSIONS, Obj([]))]
  }

  /** `earlier.object_digest`. */
  function DigestOf(event: JSON): JSON {
    match Property(event, OBJECT_DIGEST)
    case Some(digest) => digest
    case None => Unsupported
  }

  function DigestsOf(built: seq<JSON>, parents: seq<nat>): (r: seq<JSON>)
    requires forall k :: 0 <= k < |parents| ==> parents[k] < |built|
    ensures |r| == |parents|
    ensures forall k :: 0 <= k < |r| ==> r[k] == DigestOf(built[parents[k]])
  {
    seq(|parents|, k requires 0 <= k < |parents| => DigestOf(built[parents[k]]))
  }

  predicate ParentsEarlier(drafts: seq<Draft>) {
    forall i :: 0 <= i < |drafts| ==> forall k :: 0 <= k < |drafts[i].parents| ==> drafts[i].parents[k] < i
  }

  /** `event`. */
  function BuildEvent(d: Draft, built: seq<JSON>, hash: Hash): Digested<JSON>
    requires forall k :: 0 <= k < |d.parents| ==> d.parents[k] < |built|
  {
    FinalizeObject(Obj(EventMembers(d, Arr(DigestsOf(built, d.parents)))), hash)
  }

  datatype Built = Stopped | Built(events: seq<JSON>)

  /** A run of `event`, one draft after the other. */
  function Build(drafts: seq<Draft>, hash: Hash): (r: Built)
    requires ParentsEarlier(drafts)
    ensures r.Built? ==> |r.events| == |drafts|
  {
    if drafts == [] then Built([])
    else
      var last := |drafts| - 1;
      match Build(drafts[..last], hash)
      case Stopped => Stopped
      case Built(events) =>
        match BuildEvent(drafts[last], events, hash)
        case Done(event) => Built(events + [event])
        case _ => Stopped
  }

  ghost predicate GoodDraft(d: Draft) {
    && GoodValue(d.id) && GoodValue(d.phase) && GoodValue(d.eventType) && GoodValue(d.status)
    && GoodValue(d.occurredAt) && GoodValue(d.recordedAt) && GoodValue(d.sourceClass) && GoodValue(d.issuerRef)
    && GoodValue(d.actor) && GoodValue(d.subject) && GoodValue(d.claim) && GoodValue(d.evidenceRefs)
  }

  // ---------------------------------------------------------------------
  // One event
  // ---------------------------------------------------------------------

  /** The text of each name of an event. */
  const EVENT_NAMES: seq<string> :=
    ["event_id", "phase", "event_type", "status", "occurred_at", "recorded_at", "source_class", "issuer_ref",
     "actor", "subject", "claim", "evidence_refs", "parent_event_digests", "extensions"]

  lemma {:induction false} EventKeysDistinct(d: Draft, parents: JSON)
    ensures DistinctKeys(EventMembers(d, parents))
  {
    assert EVENT_ID[0] == EVENT_TYPE[0] == EVIDENCE_REFS[0] == EXTENSIONS[0] == 0x65;
    assert |EVENT_ID| == 8 && |EVENT_TYPE| == 10 && |EVIDENCE_REFS| == 13 && |EXTENSIONS| == 10;
    assert EVENT_TYPE[1] == 0x76 && EXTENSIONS[1] == 0x78;
    assert STATUS[0] == SOURCE_CLASS[0] == SUBJECT[0] == 0x73;
    assert |STATUS| == 6 && |SOURCE_CLASS| == 12 && |SUBJECT| == 7;
    assert PHASE[0] == PARENTS[0] == 0x70 && |PHASE| == 5 && |PARENTS| == 20;
    assert OCCURRED_AT[0] == 0x6F && RECORDED_AT[0] == 0x72 && ISSUER_REF[0] == 0x69;
    assert ACTOR[0] == 0x61 && CLAIM[0] == 0x63;
  }

  lemma {:induction false} EventNamesAscii()
    ensures forall i :: 0 <= i < |EVENT_NAMES| ==> IsAscii(EVENT_NAMES[i])
  {
    FirstNamesAscii();
    LastNamesAscii();
  }

  lemma {:induction false} FirstNamesAscii()
    ensures forall i :: 0 <= i < 7 ==> IsAscii(EVENT_NAMES[i])
  {
  }

  lemma {:induction false} LastNamesAscii()
    ensures forall i :: 7 <= i < |EVENT_NAMES| ==> IsAscii(EVENT_NAMES[i])
  {
  }

  lemma {:induction false} EventKeysNamed(d: Draft, parents: JSON)
    requires forall i :: 0 <= i < |EVENT_NAMES| ==> IsAscii(EVENT_NAMES[i])
    ensures |EventMembers(d, parents)| == |EVENT_NAMES|
    ensures forall i :: 0 <= i < |EVENT_NAMES| ==> EventMembers(d, parents)[i].key == Ascii(EVENT_NAMES[i])
  {
  }

  lemma {:induction false} EventKeysValid(d: Draft, parents: JSON)
    ensures forall i :: 0 <= i < |EventMembers(d, parents)| ==> ValidUnicode(EventMembers(d, parents)[i].key)
  {
    EventNamesAscii();
    EventKeysNamed(d, parents);
    NamesValid(EventMembers(d, parents), EVENT_NAMES);
  }

  lemma {:induction false} EventIsGood(d: Draft, parents: JSON)
    requires GoodDraft(d) && GoodValue(parents)
    ensures GoodObject(Obj(EventMembers(d, parents)))
  {
    EventKeysDistinct(d, parents);
    EventKeysValid(d, parents);
    GoodMembers(EventMembers(d, parents));
  }

  /** The event declares the hash of something as its digest. */
  ghost predicate DeclaresDigest(event: JSON) {
    && DeclaredHex(event).Some? && IsSha256(DeclaredHex(event).value)
    && DigestOf(event) == DigestObject(DeclaredHex(event).value)
  }

  /** What building leaves: a sound digest, and the parents' digests listed in order. */
  ghost predicate BuiltOn(event: JSON, built: seq<JSON>, parents: seq<nat>, hash: Hash)
    requires forall k :: 0 <= k < |parents| ==> parents[k] < |built|
  {
    && event.Obj? && WellFormed(event) && VerifyObjectDigest(event, hash) == Sound && DeclaresDigest(event)
    && Property(event, PARENTS) == Some(Arr(DigestsOf(built, parents)))
  }

  lemma {:induction false} DigestListGood(built: seq<JSON>, parents: seq<nat>)
    requires forall k :: 0 <= k < |parents| ==> parents[k] < |built|
    requires forall j :: 0 <= j < |built| ==> DeclaresDigest(built[j])
    ensures GoodValue(Arr(DigestsOf(built, parents)))
    ensures Clone(Arr(DigestsOf(built, parents))) == Arr(DigestsOf(built, parents))
  {
    var digests := DigestsOf(built, parents);
    forall k | 0 <= k < |digests| ensures GoodValue(digests[k]) && Clone(digests[k]) == digests[k] {
      assert DeclaresDigest(built[parents[k]]);
      DigestObjectIsGood(DeclaredHex(built[parents[k]]).value);
      DigestObjectCloned(DeclaredHex(built[parents[k]]).value);
    }
    assert CloneItems(digests) == digests;
  }

  lemma {:induction false} DigestDeclared(event: JSON, hex: Text)
    requires Property(event, OBJECT_DIGEST) == Some(DigestObject(hex)) && IsSha256(hex)
    ensures DeclaresDigest(event)
  {
    DigestObjectGets(hex);
  }

  lemma {:induction false} NoNameIsDigest(d: Draft, parents: JSON)
    ensures forall i :: 0 <= i < |EventMembers(d, parents)| ==> EventMembers(d, parents)[i].key != OBJECT_DIGEST
  {
    assert |OBJECT_DIGEST| == 13 && OBJECT_DIGEST[0] == 0x6F && EVIDENCE_REFS[0] == 0x65;
  }

  /** A finished event answers each name with the clone of what was built in under it. */
  lemma {:induction false} EventAnswers(d: Draft, parents: JSON, hash: Hash)
    requires GoodDraft(d) && GoodValue(parents)
    ensures FinalizeObject(Obj(EventMembers(d, parents)), hash).Done?
    ensures FinalizeObject(Obj(EventMembers(d, parents)), hash).value.Obj?
    ensures var members := EventMembers(d, parents);
            var done := FinalizeObject(Obj(members), hash).value.members;
            forall i :: 0 <= i < |members| ==> Get(done, members[i].key) == Some(Clone(members[i].value))
  {
    EventIsGood(d, parents);
    FinalizedMembers(Obj(EventMembers(d, parents)), hash);
    CloneAnswers(EventMembers(d, parents));
    NoNameIsDigest(d, parents);
  }

  lemma {:induction false} NamedParts(d: Draft, parents: JSON, done: seq<Member>)
    requires var ms := EventMembers(d, parents);
             forall i :: 0 <= i < |ms| ==> Get(done, ms[i].key) == Some(Clone(ms[i].value))
    ensures Get(done, EVENT_ID) == Some(Clone(d.id)) && Get(done, PHASE) == Some(Clone(d.phase))
    ensures Get(done, EVENT_TYPE) == Some(Clone(d.eventType)) && Get(done, STATUS) == Some(Clone(d.status))
    ensures Get(done, OCCURRED_AT) == Some(Clone(d.occurredAt)) && Get(done, RECORDED_AT) == Some(Clone(d.recordedAt))
    ensures Get(done, SOURCE_CLASS) == Some(Clone(d.sourceClass)) && Get(done, ISSUER_REF) == Some(Clone(d.issuerRef))
    ensures Get(done, ACTOR) == Some(Clone(d.actor)) && Get(done, SUBJECT) == Some(Clone(d.subject))
    ensures Get(done, CLAIM) == Some(Clone(d.claim)) && Get(done, EVIDENCE_REFS) == Some(Clone(d.evidenceRefs))
    ensures Get(done, PARENTS) == Some(Clone(parents)) && Get(done, EXTENSIONS) == Some(Clone(Obj([])))
  {
    var ms := EventMembers(d, parents);
    assert ms[0].key == EVENT_ID && ms[1].key == PHASE && ms[2].key == EVENT_TYPE && ms[3].key == STATUS;
    assert ms[4].key == OCCURRED_AT && ms[5].key == RECORDED_AT && ms[6].key == SOURCE_CLASS;
    assert ms[7].key == ISSUER_REF && ms[8].key == ACTOR && ms[9].key == SUBJECT && ms[10].key == CLAIM;
    assert ms[11].key == EVIDENCE_REFS && ms[12].key == PARENTS && ms[13].key == EXTENSIONS;
  }

  ghost predicate HoldsKind(event: JSON, d: Draft) {
    && Holds(event, Ascii("event_id"), Clone(d.id)) && Holds(event, Ascii("phase"), Clone(d.phase))
    && Holds(event, Ascii("event_type"), Clone(d.eventType)) && Holds(event, Ascii("status"), Clone(d.status))
  }

  ghost predicate HoldsOrigin(event: JSON, d: Draft) {
    && Holds(event, Ascii("occurred_at"), Clone(d.occurredAt))
    && Holds(event, Ascii("recorded_at"), Clone(d.recordedAt))
    && Holds(event, Ascii("source_class"), Clone(d.sourceClass))
    && Holds(event, Ascii("issuer_ref"), Clone(d.issuerRef))
  }

  ghost predicate HoldsClaim(event: JSON, d: Draft) {
    && Holds(event, Ascii("actor"), Clone(d.actor)) && Holds(event, Ascii("subject"), Clone(d.subject))
    && Holds(event, Ascii("claim"), Clone(d.claim)) && Holds(event, Ascii("evidence_refs"), Clone(d.evidenceRefs))
  }

  /** The list holds, in order, the digests the named events declare. */
  ghost predicate ListsDigests(list: seq<JSON>, built: seq<JSON>, parents: seq<nat>) {
    && |list| == |parents|
    && forall k :: 0 <= k < |parents| ==>
         parents[k] < |built| && Holds(built[parents[k]], Ascii("object_digest"), list[k])
  }

  ghost predicate HoldsLinks(event: JSON, built: seq<JSON>, parents: seq<nat>) {
    && Holds(event, Ascii("extensions"), Obj([]))
    && exists list :: Holds(event, Ascii("parent_event_digests"), Arr(list)) && ListsDigests(list, built, parents)
  }

  /** The event holds the draft's parts, cloned, under their names, no extensions, the digests of its parents in
      order, and besides those fourteen members only its own digest. */
  ghost predicate HoldsDraft(event: JSON, d: Draft, built: seq<JSON>) {
    && event.Obj? && DistinctKeys(event.members) && |event.members| == 15
    && HoldsKind(event, d) && HoldsOrigin(event, d) && HoldsClaim(event, d) && HoldsLinks(event, built, d.parents)
    && exists hex :: HoldsDigest(event.members, hex)
  }

  lemma {:induction false} AnswersAreHeld(event: JSON)
    requires event.Obj? && DistinctKeys(event.members)
    ensures forall name, value :: Get(event.members, name) == Some(value) ==> Holds(event, name, value)
  {
    forall name, value | Get(event.members, name) == Some(value) ensures Holds(event, name, value) {
      HoldsExactly(event, name, value);
    }
  }

  lemma {:induction false} PartsAreHeld(d: Draft, parents: JSON, event: JSON)
    requires event.Obj? && DistinctKeys(event.members)
    requires var ms := EventMembers(d, parents);
             forall i :: 0 <= i < |ms| ==> Get(event.members, ms[i].key) == Some(Clone(ms[i].value))
    ensures HoldsKind(event, d) && HoldsOrigin(event, d) && HoldsClaim(event, d)
    ensures Holds(event, PARENTS, Clone(parents)) && Holds(event, EXTENSIONS, Obj([]))
  {
    NamedParts(d, parents, event.members);
    AnswersAreHeld(event);
    assert Clone(Obj([])) == Obj([]);
  }

  lemma {:induction false} FinalizedCount(v: JSON, hash: Hash)
    requires GoodObject(v) && FinalizeObject(v, hash).Done?
    requires forall i :: 0 <= i < |v.members| ==> v.members[i].key != OBJECT_DIGEST
    ensures FinalizeObject(v, hash).value.Obj? && |FinalizeObject(v, hash).value.members| == |v.members| + 1
  {
    var members := CloneMembers(v.members);
    CloneKeepsAll(v.members);
    var digest := CalculateObjectDigest(Clone(v), hash).value;
    SetInPlace(members, [], OBJECT_DIGEST, Null, digest);
  }

  lemma {:induction false} DigestsAreListed(built: seq<JSON>, parents: seq<nat>)
    requires forall k :: 0 <= k < |parents| ==> parents[k] < |built|
    requires forall j :: 0 <= j < |built| ==> DeclaresDigest(built[j])
    ensures ListsDigests(DigestsOf(built, parents), built, parents)
  {
    forall k | 0 <= k < |parents| ensures Holds(built[parents[k]], OBJECT_DIGEST, DigestsOf(built, parents)[k]) {
      assert DeclaresDigest(built[parents[k]]);
      GetIsMember(built[parents[k]].members, OBJECT_DIGEST);
    }
  }

  /** A finished event holds its draft. */
  lemma {:induction false} EventParts(d: Draft, built: seq<JSON>, hash: Hash, event: JSON)
    requires GoodDraft(d) && HexHash(hash)
    requires forall k :: 0 <= k < |d.parents| ==> d.parents[k] < |built|
    requires forall j :: 0 <= j < |built| ==> DeclaresDigest(built[j])
    requires BuildEvent(d, built, hash) == Done(event)
    ensures HoldsDraft(event, d, built)
  {
    var list := DigestsOf(built, d.parents);
    var whole := Obj(EventMembers(d, Arr(list)));
    DigestListGood(built, d.parents);
    EventIsGood(d, Arr(list));
    FinalizedMembers(whole, hash);
    EventAnswers(d, Arr(list), hash);
    NoNameIsDigest(d, Arr(list));
    FinalizedCount(whole, hash);
    PartsAreHeld(d, Arr(list), event);
    DigestsAreListed(built, d.parents);
    var covered: Bytes :| Get(event.members, OBJECT_DIGEST) == Some(DigestObject(hash(covered)));
    DigestObjectHeld(event.members, hash(covered));
  }

  lemma {:induction false} EventIsBuilt(d: Draft, built: seq<JSON>, hash: Hash)
    requires GoodDraft(d) && HexHash(hash)
    requires forall k :: 0 <= k < |d.parents| ==> d.parents[k] < |built|
    requires forall j :: 0 <= j < |built| ==> DeclaresDigest(built[j])
    ensures BuildEvent(d, built, hash).Done? && BuiltOn(BuildEvent(d, built, hash).value, built, d.parents, hash)
  {
    var parents := Arr(DigestsOf(built, d.parents));
    var event := Obj(EventMembers(d, parents));
    DigestListGood(built, d.parents);
    EventIsGood(d, parents);
    FinalizedMembers(event, hash);
    FinalizedIsSound(event, hash);
    EventAnswers(d, parents, hash);
    assert EventMembers(d, parents)[12].key == PARENTS;
    var done := FinalizeObject(event, hash).value;
    var covered: Bytes :| Get(done.members, OBJECT_DIGEST) == Some(DigestObject(hash(covered)));
    DigestDeclared(done, hash(covered));
    assert |PARENTS| != |OBJECT_DIGEST|;
  }

  // ---------------------------------------------------------------------
  // A whole run
  // ---------------------------------------------------------------------

  ghost predicate GoodDrafts(drafts: seq<Draft>) {
    ParentsEarlier(drafts) && forall i :: 0 <= i < |drafts| ==> GoodDraft(drafts[i])
  }

  ghost predicate AllBuilt(drafts: seq<Draft>, events: seq<JSON>, hash: Hash)
    requires ParentsEarlier(drafts)
  {
    |events| == |drafts| && forall i :: 0 <= i < |events| ==> BuiltAt(drafts, events, i, hash)
  }

  ghost predicate BuiltAt(drafts: seq<Draft>, events: seq<JSON>, i: nat, hash: Hash)
    requires ParentsEarlier(drafts) && |events| == |drafts| && i < |drafts|
  {
    BuiltOn(events[i], events, drafts[i].parents, hash)
  }

  lemma {:induction false} FrontIsGood(drafts: seq<Draft>)
    requires drafts != [] && GoodDrafts(drafts)
    ensures GoodDrafts(drafts[..|drafts| - 1]) && GoodDraft(drafts[|drafts| - 1])
    ensures var d := drafts[|drafts| - 1]; forall k :: 0 <= k < |d.parents| ==> d.parents[k] < |drafts| - 1
  {
  }

  lemma {:induction false} BuildStep(drafts: seq<Draft>, earlier: seq<JSON>, hash: Hash)
    requires drafts != [] && ParentsEarlier(drafts) && Build(drafts[..|drafts| - 1], hash) == Built(earlier)
    requires BuildEvent(drafts[|drafts| - 1], earlier, hash).Done?
    ensures Build(drafts, hash) == Built(earlier + [BuildEvent(drafts[|drafts| - 1], earlier, hash).value])
  {
  }

  /** Building never stops, and each event is built on the ones its draft names. */
  lemma {:induction false} BuildSucceeds(drafts: seq<Draft>, hash: Hash)
    requires HexHash(hash) && GoodDrafts(drafts)
    ensures Build(drafts, hash).Built? && AllBuilt(drafts, Build(drafts, hash).events, hash)
  {
    if drafts != [] {
      var last := |drafts| - 1;
      FrontIsGood(drafts);
      BuildSucceeds(drafts[..last], hash);
      var earlier := Build(drafts[..last], hash).events;
      AllDeclare(drafts[..last], earlier, hash);
      EventIsBuilt(drafts[last], earlier, hash);
      BuildStep(drafts, earlier, hash);
      OneMoreBuilt(drafts, earlier, BuildEvent(drafts[last], earlier, hash).value, hash);
    }
  }

  lemma {:induction false} AllDeclare(drafts: seq<Draft>, events: seq<JSON>, hash: Hash)
    requires ParentsEarlier(drafts) && AllBuilt(drafts, events, hash)
    ensures forall j :: 0 <= j < |events| ==> DeclaresDigest(events[j])
  {
    forall j | 0 <= j < |events| ensures DeclaresDigest(events[j]) {
      assert BuiltAt(drafts, events, j, hash);
    }
  }

  lemma {:induction false} OneMoreBuilt(drafts: seq<Draft>, earlier: seq<JSON>, event: JSON, hash: Hash)
    requires drafts != [] && ParentsEarlier(drafts) && AllBuilt(drafts[..|drafts| - 1], earlier, hash)
    requires BuiltOn(event, earlier, drafts[|drafts| - 1].parents, hash)
    ensures AllBuilt(drafts, earlier + [event], hash)
  {
    var last := |drafts| - 1;
    forall i | 0 <= i < |drafts| ensures BuiltAt(drafts, earlier + [event], i, hash) {
      assert i < last ==> BuiltAt(drafts[..last], earlier, i, hash);
      assert DigestsOf(earlier + [event], drafts[i].parents) == DigestsOf(earlier, drafts[i].parents);
    }
  }

  /** Every event holds its draft. */
  ghost predicate AllHeld(drafts: seq<Draft>, events: seq<JSON>) {
    |events| == |drafts| && forall i :: 0 <= i < |events| ==> HeldAt(drafts, events, i)
  }

  ghost predicate HeldAt(drafts: seq<Draft>, events: seq<JSON>, i: nat)
    requires i < |drafts| && i < |events|
  {
    HoldsDraft(events[i], drafts[i], events)
  }

  lemma {:induction false} LinksAmongMore(event: JSON, built: seq<JSON>, more: seq<JSON>, parents: seq<nat>)
    requires HoldsLinks(event, built, parents) && built <= more
    ensures HoldsLinks(event, more, parents)
  {
    var list :| Holds(event, PARENTS, Arr(list)) && ListsDigests(list, built, parents);
    assert ListsDigests(list, more, parents);
  }

  lemma {:induction false} HeldAmongMore(event: JSON, d: Draft, built: seq<JSON>, more: seq<JSON>)
    requires HoldsDraft(event, d, built) && built <= more
    ensures HoldsDraft(event, d, more)
  {
    LinksAmongMore(event, built, more, d.parents);
  }

  lemma {:induction false} StaysHeld(drafts: seq<Draft>, earlier: seq<JSON>, all: seq<Draft>, events: seq<JSON>,
                                     i: nat)
    requires i < |drafts| == |earlier| && drafts <= all && earlier <= events && HeldAt(drafts, earlier, i)
    ensures HeldAt(all, events, i)
  {
    assert all[i] == drafts[i] && events[i] == earlier[i];
    HeldAmongMore(events[i], all[i], earlier, events);
  }

  lemma {:induction false} OneMoreHeld(drafts: seq<Draft>, earlier: seq<JSON>, event: JSON)
    requires drafts != [] && AllHeld(drafts[..|drafts| - 1], earlier)
    requires HoldsDraft(event, drafts[|drafts| - 1], earlier)
    ensures AllHeld(drafts, earlier + [event])
  {
    var events, last := earlier + [event], |drafts| - 1;
    HeldAmongMore(event, drafts[last], earlier, events);
    assert HeldAt(drafts, events, last);
    forall i | 0 <= i < last ensures HeldAt(drafts, events, i) {
      StaysHeld(drafts[..last], earlier, drafts, events, i);
    }
  }

  /** Every run gives one event a draft, and each holds what its draft supplies. */
  lemma {:induction false} RunHoldsDrafts(drafts: seq<Draft>, hash: Hash)
    requires HexHash(hash) && GoodDrafts(drafts)
    ensures Build(drafts, hash).Built? && AllHeld(drafts, Build(drafts, hash).events)
  {
    if drafts != [] {
      var last := |drafts| - 1;
      FrontIsGood(drafts);
      RunHoldsDrafts(drafts[..last], hash);
      BuildSucceeds(drafts[..last], hash);
      var earlier := Build(drafts[..last], hash).events;
      AllDeclare(drafts[..last], earlier, hash);
      EventIsBuilt(drafts[last], earlier, hash);
      BuildStep(drafts, earlier, hash);
      var event := BuildEvent(drafts[last], earlier, hash).value;
      EventParts(drafts[last], earlier, hash, event);
      OneMoreHeld(drafts, earlier, event);
    }
  }

  /** Event `i` declares the digest of one of its own parents. */
  ghost predicate SharesParentDigest(drafts: seq<Draft>, events: seq<JSON>, i: nat)
    requires ParentsEarlier(drafts) && |events| == |drafts| && i < |drafts|
  {
    exists k :: 0 <= k < |drafts[i].parents| && DeclaredHex(events[drafts[i].parents[k]]) == DeclaredHex(events[i])
  }

  lemma {:induction false} BuiltResolves(drafts: seq<Draft>, events: seq<JSON>, i: nat, hash: Hash)
    requires ParentsEarlier(drafts) && AllBuilt(drafts, events, hash) && i < |events|
    ensures Iterable(events[i])
    ensures ParentsResolveAt(events, i) <==> !SharesParentDigest(drafts, events, i)
  {
    var parents := drafts[i].parents;
    assert BuiltAt(drafts, events, i, hash);
    assert ParentsOf(events[i]) == DigestsOf(events, parents);
    forall k | 0 <= k < |parents|
      ensures Resolves(ParentsOf(events[i])[k], DeclaredHex(events[i]), events) <==>
              DeclaredHex(events[parents[k]]) != DeclaredHex(events[i])
    {
      assert BuiltAt(drafts, events, parents[k], hash);
      DigestObjectGets(DeclaredHex(events[parents[k]]).value);
    }
  }

  lemma {:induction false} AllResolve(drafts: seq<Draft>, events: seq<JSON>, hash: Hash)
    requires ParentsEarlier(drafts) && AllBuilt(drafts, events, hash)
    ensures ParentsResolve(events) <==> forall i :: 0 <= i < |events| ==> !SharesParentDigest(drafts, events, i)
  {
    forall i | 0 <= i < |events|
      ensures Iterable(events[i]) && (ParentsResolveAt(events, i) <==> !SharesParentDigest(drafts, events, i))
    {
      BuiltResolves(drafts, events, i, hash);
    }
  }

  // ---------------------------------------------------------------------
  // Twins: events that declare one digest
  // ---------------------------------------------------------------------

  /** Two of the events are covered by different bytes with one hash. */
  ghost predicate Collides(events: seq<JSON>, hash: Hash) {
    exists a, b :: 0 <= a < |events| && 0 <= b < |events| && Clash(events[a], events[b], hash)
  }

  ghost predicate Clash(p: JSON, q: JSON, hash: Hash) {
    HasBytes(p) && HasBytes(q) && Collision(hash, CoveredBytes(p), CoveredBytes(q))
  }

  lemma {:induction false} TwinsCoverTheSame(p: JSON, q: JSON, hash: Hash)
    requires p.Obj? && q.Obj? && WellFormed(p) && WellFormed(q) && !Clash(p, q, hash)
    requires VerifyObjectDigest(p, hash) == Sound && VerifyObjectDigest(q, hash) == Sound
    requires DeclaredHex(p) == DeclaredHex(q)
    ensures Same(Obj(Without(p.members, OBJECT_DIGEST)), Obj(Without(q.members, OBJECT_DIGEST)))
  {
    SoundDigest(p, hash);
    SoundDigest(q, hash);
    ObjectDigestCovers(p, q, hash);
  }

  lemma {:induction false} GetWithout(members: seq<Member>, key: Text, dropped: Text)
    requires key != dropped
    ensures Get(Without(members, dropped), key) == Get(members, key)
  {
    if members != [] {
      GetWithout(members[1..], key, dropped);
      if members[0].key != dropped {
        assert Without(members, dropped)[1..] == Without(members[1..], dropped);
      }
    }
  }

  lemma {:induction false} TwinsListTheSame(p: JSON, q: JSON, hash: Hash)
    requires p.Obj? && q.Obj? && WellFormed(p) && WellFormed(q)
    requires Same(Obj(Without(p.members, OBJECT_DIGEST)), Obj(Without(q.members, OBJECT_DIGEST)))
    requires Property(p, PARENTS).Some? && Property(q, PARENTS).Some?
    ensures Same(Property(p, PARENTS).value, Property(q, PARENTS).value)
  {
    assert |PARENTS| != |OBJECT_DIGEST|;
    WithoutMembers(p.members, OBJECT_DIGEST);
    WithoutMembers(q.members, OBJECT_DIGEST);
    GetWithout(p.members, PARENTS, OBJECT_DIGEST);
    GetWithout(q.members, PARENTS, OBJECT_DIGEST);
    SameObjectsAgree(Without(p.members, OBJECT_DIGEST), Without(q.members, OBJECT_DIGEST), PARENTS);
  }

  /** Twins name twins as parents, in the same order, unless the hash collides. */
  lemma {:induction false} TwinsHaveTwinParents(drafts: seq<Draft>, events: seq<JSON>, hash: Hash, i: nat, x: nat)
    requires ParentsEarlier(drafts) && AllBuilt(drafts, events, hash) && !Collides(events, hash)
    requires i < |events| && x < |events| && DeclaredHex(events[i]) == DeclaredHex(events[x])
    ensures |drafts[i].parents| == |drafts[x].parents|
    ensures forall k :: 0 <= k < |drafts[i].parents| ==>
              DeclaredHex(events[drafts[i].parents[k]]) == DeclaredHex(events[drafts[x].parents[k]])
  {
    assert BuiltAt(drafts, events, i, hash) && BuiltAt(drafts, events, x, hash);
    assert !Clash(events[i], events[x], hash);
    TwinsCoverTheSame(events[i], events[x], hash);
    TwinsListTheSame(events[i], events[x], hash);
    var ps, qs := drafts[i].parents, drafts[x].parents;
    var ds, es := DigestsOf(events, ps), DigestsOf(events, qs);
    forall k | 0 <= k < |ps| ensures DeclaredHex(events[ps[k]]) == DeclaredHex(events[qs[k]]) {
      assert BuiltAt(drafts, events, ps[k], hash) && BuiltAt(drafts, events, qs[k], hash);
      assert Same(ds[k], es[k]);
      SameDigests(DeclaredHex(events[ps[k]]).value, DeclaredHex(events[qs[k]]).value);
    }
  }

  /** One step along a causal link: a twin of the child has an earlier twin of the parent. */
  lemma {:induction false} TwinStep(drafts: seq<Draft>, events: seq<JSON>, hash: Hash, i: nat, j: nat, x: nat)
    returns (y: nat)
    requires ParentsEarlier(drafts) && AllBuilt(drafts, events, hash) && !Collides(events, hash)
    requires i < |events| && j < |events| && x < |events| && HasParent(events, i, j)
    requires DeclaredHex(events[x]) == DeclaredHex(events[i])
    ensures y < x && DeclaredHex(events[y]) == DeclaredHex(events[j])
  {
    var parents := ParentsOf(events[i]);
    var k :| 0 <= k < |parents| && ValidDigest(parents[k]) && DeclaredHex(events[j]) == Some(DigestHex(parents[k]));
    var p := ListedParent(drafts, events, hash, i, k);
    TwinsHaveTwinParents(drafts, events, hash, i, x);
    y := drafts[x].parents[k];
  }

  /** Entry `k` of a built event's parents is the digest of the parent its draft names. */
  lemma {:induction false} ListedParent(drafts: seq<Draft>, events: seq<JSON>, hash: Hash, i: nat, k: nat)
    returns (p: nat)
    requires ParentsEarlier(drafts) && AllBuilt(drafts, events, hash) && i < |events|
    requires k < |ParentsOf(events[i])|
    ensures k < |drafts[i].parents| && p == drafts[i].parents[k] && ValidDigest(ParentsOf(events[i])[k])
    ensures DeclaredHex(events[p]) == Some(DigestHex(ParentsOf(events[i])[k]))
  {
    assert BuiltAt(drafts, events, i, hash);
    assert ParentsOf(events[i]) == DigestsOf(events, drafts[i].parents);
    p := drafts[i].parents[k];
    assert BuiltAt(drafts, events, p, hash);
    DigestObjectGets(DeclaredHex(events[p]).value);
  }

  /** Along a whole path: a twin of its start leads to an earlier twin of its end. */
  lemma {:induction false} TwinAlong(drafts: seq<Draft>, events: seq<JSON>, hash: Hash, path: seq<nat>, x: nat)
    returns (y: nat)
    requires ParentsEarlier(drafts) && AllBuilt(drafts, events, hash) && !Collides(events, hash)
    requires ParentPath(events, path) && x < |events| && DeclaredHex(events[x]) == DeclaredHex(events[path[0]])
    ensures y <= x && DeclaredHex(events[y]) == DeclaredHex(events[path[|path| - 1]])
    ensures |path| > 1 ==> y < x
    decreases |path|
  {
    if |path| == 1 {
      y := x;
    } else {
      var next := TwinStep(drafts, events, hash, path[0], path[1], x);
      PathTail(events, path);
      y := TwinAlong(drafts, events, hash, path[1..], next);
    }
  }

  lemma {:induction false} PathTail(events: seq<JSON>, path: seq<nat>)
    requires ParentPath(events, path) && |path| > 1
    ensures ParentPath(events, path[1..])
  {
    forall k | 0 <= k < |path[1..]| - 1 ensures HasParent(events, path[1..][k], path[1..][k + 1]) {
      assert HasParent(events, path[k + 1], path[k + 2]);
    }
  }

  /** Going round a cycle of parents leads from any twin of its start to an earlier one, which cannot go on. */
  lemma {:induction false} CycleCollides(drafts: seq<Draft>, events: seq<JSON>, hash: Hash, path: seq<nat>, x: nat)
    requires ParentsEarlier(drafts) && AllBuilt(drafts, events, hash)
    requires ParentPath(events, path) && |path| > 1 && path[0] == path[|path| - 1]
    requires x < |events| && DeclaredHex(events[x]) == DeclaredHex(events[path[0]])
    ensures Collides(events, hash)
    decreases x
  {
    if !Collides(events, hash) {
      var y := TwinAlong(drafts, events, hash, path, x);
      CycleCollides(drafts, events, hash, path, y);
    }
  }

  // ---------------------------------------------------------------------
  // Main results
  // ---------------------------------------------------------------------

  lemma {:induction false} BuiltIsAllBuilt(drafts: seq<Draft>, events: seq<JSON>, hash: Hash)
    requires HexHash(hash) && GoodDrafts(drafts) && Build(drafts, hash) == Built(events)
    ensures AllBuilt(drafts, events, hash)
  {
    BuildSucceeds(drafts, hash);
  }

  /** Every run of the builder passes the digest checks and the parent checks, or two of its events are an
      explicit collision. */
  lemma {:induction false} BuiltEventsVerify(drafts: seq<Draft>, events: seq<JSON>, hash: Hash)
    requires HexHash(hash) && GoodDrafts(drafts) && Build(drafts, hash) == Built(events)
    ensures EventsVerified(events, hash) || Collides(events, hash)
  {
    BuiltIsAllBuilt(drafts, events, hash);
    AllSound(drafts, events, hash);
    AllResolve(drafts, events, hash);
    if i :| 0 <= i < |events| && SharesParentDigest(drafts, events, i) {
      SharedCollides(drafts, events, hash, i);
    }
  }

  lemma {:induction false} AllSound(drafts: seq<Draft>, events: seq<JSON>, hash: Hash)
    requires ParentsEarlier(drafts) && AllBuilt(drafts, events, hash)
    ensures forall i :: 0 <= i < |events| ==> events[i].Obj? && VerifyObjectDigest(events[i], hash) == Sound
  {
    forall i | 0 <= i < |events| ensures events[i].Obj? && VerifyObjectDigest(events[i], hash) == Sound {
      assert BuiltAt(drafts, events, i, hash);
    }
  }

  /** An event with the digest of one of its parents is a cycle of length one. */
  lemma {:induction false} SharedCollides(drafts: seq<Draft>, events: seq<JSON>, hash: Hash, i: nat)
    requires ParentsEarlier(drafts) && AllBuilt(drafts, events, hash) && i < |events|
    requires SharesParentDigest(drafts, events, i)
    ensures Collides(events, hash)
  {
    SharedIsOwnParent(drafts, events, hash, i);
    CycleCollides(drafts, events, hash, [i, i], i);
  }

  lemma {:induction false} SharedIsOwnParent(drafts: seq<Draft>, events: seq<JSON>, hash: Hash, i: nat)
    requires ParentsEarlier(drafts) && AllBuilt(drafts, events, hash) && i < |events|
    requires SharesParentDigest(drafts, events, i)
    ensures HasParent(events, i, i)
  {
    var parents := drafts[i].parents;
    var k :| 0 <= k < |parents| && DeclaredHex(events[parents[k]]) == DeclaredHex(events[i]);
    assert BuiltAt(drafts, events, i, hash);
    assert ParentsOf(events[i]) == DigestsOf(events, parents);
    var p := ListedParent(drafts, events, hash, i, k);
  }

  /** The bundle takes its events from the run, in any order and as often as it likes. */
  ghost predicate TakenFrom(bundle: seq<JSON>, events: seq<JSON>) {
    forall i :: 0 <= i < |bundle| ==> bundle[i] in events
  }

  lemma {:induction false} PathInRun(bundle: seq<JSON>, events: seq<JSON>, path: seq<nat>) returns (found: seq<nat>)
    requires TakenFrom(bundle, events) && ParentPath(bundle, path)
    ensures |found| == |path| && ParentPath(events, found)
    ensures forall k :: 0 <= k < |path| ==> events[found[k]] == bundle[path[k]]
    decreases |path|
  {
    assert bundle[path[0]] in events;
    var e :| 0 <= e < |events| && events[e] == bundle[path[0]];
    if |path| == 1 {
      found := [e];
    } else {
      PathTail(bundle, path);
      var rest := PathInRun(bundle, events, path[1..]);
      found := [e] + rest;
      assert HasParent(bundle, path[0], path[1]);
      assert rest[0] == found[1] && events[rest[0]] == bundle[path[1..][0]];
      forall k | 0 <= k < |found| - 1 ensures HasParent(events, found[k], found[k + 1]) {
        assert k > 0 ==> HasParent(events, rest[k - 1], rest[k]);
      }
      forall k | 0 <= k < |path| ensures events[found[k]] == bundle[path[k]] {
        assert k > 0 ==> found[k] == rest[k - 1] && path[k] == path[1..][k - 1];
      }
    }
  }

  /** In a bundle of built events no non-empty chain of causal parents returns to where it began, or two of
      the built events are an explicit collision. The checks themselves forbid only self-parenting. */
  lemma {:induction false} CausalGraphAcyclic(drafts: seq<Draft>, events: seq<JSON>, bundle: seq<JSON>, hash: Hash,
                                              path: seq<nat>)
    requires HexHash(hash) && GoodDrafts(drafts) && Build(drafts, hash) == Built(events)
    requires TakenFrom(bundle, events) && ParentPath(bundle, path) && |path| > 1
    ensures path[0] != path[|path| - 1] || Collides(events, hash)
  {
    BuiltIsAllBuilt(drafts, events, hash);
    var found := PathInRun(bundle, events, path);
    if path[0] == path[|path| - 1] {
      var last := |found| - 1;
      var closed := found[last := found[0]];
      ClosedPath(events, found);
      CycleCollides(drafts, events, hash, closed, found[0]);
    }
  }

  /** A path whose ends are one event can be closed at one place. */
  lemma {:induction false} ClosedPath(events: seq<JSON>, path: seq<nat>)
    requires ParentPath(events, path) && |path| > 1 && events[path[0]] == events[path[|path| - 1]]
    ensures ParentPath(events, path[|path| - 1 := path[0]])
  {
    var closed := path[|path| - 1 := path[0]];
    forall k | 0 <= k < |closed| - 1 ensures HasParent(events, closed[k], closed[k + 1]) {
      assert HasParent(events, path[k], path[k + 1]);
    }
  }
}
