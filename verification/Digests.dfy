/** What an object digest covers and what a signature input binds, for any hash function at all. */
module Digests {
  import opened Utf16
  import opened Sorting
  import opened Json
  import opened Numbers
  import opened Parsing
  import opened StrictJson
  import opened RoundTrip
  import opened Utf8
  import opened Objects

  /** `sha256Hex`. */
  type Hash = Bytes -> Text

  /** An explicit collision: two different inputs, one output. */
  ghost predicate Collision(hash: Hash, x: Bytes, y: Bytes) {
    x != y && hash(x) == hash(y)
  }

  predicate IsLowerHex(u: CodeUnit) { 0x30 <= u <= 0x39 || 0x61 <= u <= 0x66 }

  /** The pattern of a SHA-256 value: 64 lower-case hexadecimal characters. */
  predicate IsSha256(t: Text) {
    |t| == 64 && forall i :: 0 <= i < 64 ==> IsLowerHex(t[i])
  }

  ghost predicate HexHash(hash: Hash) {
    forall b :: IsSha256(hash(b))
  }

  const ALGORITHM: Text := Ascii("algorithm")
  const VALUE: Text := Ascii("value")
  const SHA_256: Text := Ascii("sha-256")
  const OBJECT_DIGEST: Text := Ascii("object_digest")

  /** The digest object `{ algorithm, value }`. */
  function DigestObject(hex: Text): JSON {
    Obj([Member(ALGORITHM, Str(SHA_256)), Member(VALUE, Str(hex))])
  }

  datatype Digested<+T> = Done(value: T) | Uncanonical(why: Rejection) | NotAnObject

  /** `digestValue`. */
  function DigestValue(v: JSON, hash: Hash): Digested<JSON> {
    match CanonicalizeBytes(v)
    case CanonBytes(bytes) => Done(DigestObject(hash(bytes)))
    case RejectedBytes(why) => Uncanonical(why)
  }

  /** `calculateObjectDigest`: the digest of everything but `object_digest`. */
  function CalculateObjectDigest(v: JSON, hash: Hash): Digested<JSON> {
    if v.Obj? then DigestValue(Obj(Without(v.members, OBJECT_DIGEST)), hash) else NotAnObject
  }

  /** `finalizeObject`: a clone with its digest set. */
  function FinalizeObject(v: JSON, hash: Hash): Digested<JSON> {
    var value := Clone(v);
    match CalculateObjectDigest(value, hash)
    case Done(digest) => Done(Obj(Set(value.members, OBJECT_DIGEST, digest)))
    case Uncanonical(why) => Uncanonical(why)
    case NotAnObject => NotAnObject
  }

  // ---------------------------------------------------------------------
  // Digest equality
  // ---------------------------------------------------------------------

  /** Digests are equal exactly for values equal up to member order, or on an explicit collision. */
  lemma {:induction false} DigestDecidesSame(a: JSON, b: JSON, hash: Hash)
    requires WellFormed(a) && WellFormed(b) && Accepted(a) && Accepted(b)
    ensures DigestValue(a, hash).Done? && DigestValue(b, hash).Done?
    ensures DigestValue(a, hash) == DigestValue(b, hash) <==>
            Same(a, b) || Collision(hash, CanonicalizeBytes(a).bytes, CanonicalizeBytes(b).bytes)
  {
    CanonicalBytesDecideSame(a, b);
    var x, y := hash(CanonicalizeBytes(a).bytes), hash(CanonicalizeBytes(b).bytes);
    assert DigestObject(x).members[1].value == Str(x) && DigestObject(y).members[1].value == Str(y);
  }

  // ---------------------------------------------------------------------
  // Finalizing
  // ---------------------------------------------------------------------

  lemma {:induction false} DigestObjectCloned(hex: Text)
    ensures Clone(DigestObject(hex)) == DigestObject(hex)
  {
    var members := DigestObject(hex).members;
    assert members[1..] == [members[1]] && [members[1]][1..] == [];
    assert CloneMembers([members[1]]) == [members[1]] + CloneMembers([]);
    assert CloneMembers(members) == [members[0]] + CloneMembers(members[1..]);
  }

  /** Finalizing a finalized object changes nothing. */
  lemma {:induction false} FinalizeTwice(v: JSON, hash: Hash)
    requires FinalizeObject(v, hash).Done?
    ensures FinalizeObject(FinalizeObject(v, hash).value, hash) == FinalizeObject(v, hash)
  {
    var members := CloneMembers(v.members);
    var digest := CalculateObjectDigest(Clone(v), hash).value;
    var done := Set(members, OBJECT_DIGEST, digest);
    CloneMembersTwice(v.members);
    DigestObjectCloned(digest.members[1].value.text);
    CloneSet(members, OBJECT_DIGEST, digest);
    assert Clone(Obj(done)) == Obj(done);
    WithoutAfterSet(members, OBJECT_DIGEST, digest);
    SetTwice(members, OBJECT_DIGEST, digest);
  }

  /** Finalizing an accepted object always succeeds; it sets the digest and leaves every other member to the clone. */
  lemma {:induction false} FinalizedMembers(v: JSON, hash: Hash)
    requires v.Obj? && WellFormed(v) && Accepted(v)
    ensures FinalizeObject(v, hash).Done? && FinalizeObject(v, hash).value.Obj?
    ensures WellFormed(FinalizeObject(v, hash).value)
    ensures var done := FinalizeObject(v, hash).value.members;
            && (exists covered: Bytes :: Get(done, OBJECT_DIGEST) == Some(DigestObject(hash(covered))))
            && forall key :: key != OBJECT_DIGEST ==> Get(done, key) == Get(CloneMembers(v.members), key)
  {
    var members := CloneMembers(v.members);
    CloneOfAccepted(v);
    CoveredAccepted(members);
    CoveredWellFormed(Obj(members));
    SucceedsExactlyOnAccepted(Obj(Without(members, OBJECT_DIGEST)));
    var covered := CanonicalizeBytes(Obj(Without(members, OBJECT_DIGEST))).bytes;
    SetKeepsDistinct(members, OBJECT_DIGEST, DigestObject(hash(covered)));
    DigestObjectWellFormed(hash(covered));
    SetKeepsWellFormed(members, OBJECT_DIGEST, DigestObject(hash(covered)));
  }

  lemma {:induction false} SetKeepsWellFormed(members: seq<Member>, key: Text, value: JSON)
    requires WellFormed(Obj(members)) && WellFormed(value)
    ensures WellFormed(Obj(Set(members, key, value)))
  {
    var r := Set(members, key, value);
    SetKeepsDistinct(members, key, value);
    forall i | 0 <= i < |r| ensures WellFormed(r[i].value) {
      assert r[i] in members || r[i] == Member(key, value);
    }
  }

  lemma {:induction false} DigestObjectWellFormed(hex: Text)
    ensures WellFormed(DigestObject(hex))
  {
    assert ALGORITHM != VALUE;
  }

  lemma {:induction false} CoveredAccepted(members: seq<Member>)
    requires Accepted(Obj(members))
    ensures Accepted(Obj(Without(members, OBJECT_DIGEST)))
  {
    var covered := Without(members, OBJECT_DIGEST);
    WithoutMembers(members, OBJECT_DIGEST);
    forall i | 0 <= i < |covered| ensures AcceptedMember(covered[i]) {
      assert covered[i] in members;
    }
  }

  // ---------------------------------------------------------------------
  // Verifying
  // ---------------------------------------------------------------------

  /** `validDigest`: an object of exactly the two members, with the algorithm's name and a well-shaped value. */
  predicate ValidDigest(v: JSON) {
    && v.Obj? && |v.members| == 2
    && Get(v.members, ALGORITHM) == Some(Str(SHA_256))
    && Get(v.members, VALUE).Some? && Get(v.members, VALUE).value.Str?
    && IsSha256(Get(v.members, VALUE).value.text)
  }

  /** The `value` member of a valid digest. */
  function DigestHex(v: JSON): Text
    requires ValidDigest(v)
  {
    Get(v.members, VALUE).value.text
  }

  /** `digestEquals` against a valid digest: algorithm and value both agree. */
  predicate DigestEquals(calculated: JSON, declared: JSON)
    requires ValidDigest(declared)
  {
    && Property(calculated, ALGORITHM) == Property(declared, ALGORITHM)
    && Property(calculated, VALUE) == Property(declared, VALUE)
  }

  datatype DigestIssue = Sound | DigestInvalid | DigestMismatch | CalculationFailed

  /** `verifyObjectDigest` for an object. */
  function VerifyObjectDigest(v: JSON, hash: Hash): DigestIssue
    requires v.Obj?
  {
    var declared := Get(v.members, OBJECT_DIGEST);
    if declared.None? || !ValidDigest(declared.value) then DigestInvalid
    else match CalculateObjectDigest(v, hash)
      case Done(calculated) =>
        if DigestEquals(calculated, declared.value) then Sound else DigestMismatch
      case _ => CalculationFailed
  }

  const DIGEST_NAMES: seq<string> := ["algorithm", "value"]

  lemma {:induction false} DigestObjectIsGood(hex: Text)
    requires IsSha256(hex)
    ensures GoodValue(DigestObject(hex))
  {
    var members := DigestObject(hex).members;
    NoSurrogatesValid(hex);
    NamesValid(members, DIGEST_NAMES);
    TextIsGood("sha-256");
    assert ALGORITHM != VALUE;
    GoodMembers(members);
  }

  lemma {:induction false} DigestObjectGets(hex: Text)
    ensures Get(DigestObject(hex).members, ALGORITHM) == Some(Str(SHA_256))
    ensures Get(DigestObject(hex).members, VALUE) == Some(Str(hex))
    ensures IsSha256(hex) ==> ValidDigest(DigestObject(hex)) && DigestHex(DigestObject(hex)) == hex
  {
    var members := DigestObject(hex).members;
    assert ALGORITHM != VALUE;
    assert members[1..][0] == members[1];
  }

  /** The digest check passes exactly when a valid digest holds the hash of the canonical bytes
      of all the other members. */
  lemma {:induction false} SoundDigest(v: JSON, hash: Hash)
    requires v.Obj?
    ensures VerifyObjectDigest(v, hash) == Sound <==>
            var covered := CanonicalizeBytes(Obj(Without(v.members, OBJECT_DIGEST)));
            && covered.CanonBytes?
            && Get(v.members, OBJECT_DIGEST).Some? && ValidDigest(Get(v.members, OBJECT_DIGEST).value)
            && DigestHex(Get(v.members, OBJECT_DIGEST).value) == hash(covered.bytes)
  {
    var covered := CanonicalizeBytes(Obj(Without(v.members, OBJECT_DIGEST)));
    if covered.CanonBytes? {
      DigestObjectGets(hash(covered.bytes));
    }
  }

  // ---------------------------------------------------------------------
  // Which answer the check gives
  // ---------------------------------------------------------------------

  /** An object of exactly the members `algorithm`, which is sha-256, and `value`, 64 lower-case hexadecimal digits. */
  predicate IsDigestOf(v: JSON, hex: Text) {
    var algorithm := Member(Ascii("algorithm"), Str(Ascii("sha-256")));
    var value := Member(Ascii("value"), Str(hex));
    && (v == Obj([algorithm, value]) || v == Obj([value, algorithm]))
    && |hex| == 64 && forall i :: 0 <= i < 64 ==> 0x30 <= hex[i] <= 0x39 || 0x61 <= hex[i] <= 0x66
  }

  lemma {:induction false} TwoMembers(members: seq<Member>, a: Member, b: Member)
    requires |members| == 2 && a in members && b in members && a != b
    ensures members == [a, b] || members == [b, a]
  {
  }

  lemma {:induction false} ValidDigestExactly(v: JSON, hex: Text)
    ensures ValidDigest(v) && DigestHex(v) == hex <==> IsDigestOf(v, hex)
  {
    assert ALGORITHM != VALUE;
    if ValidDigest(v) && DigestHex(v) == hex {
      GetIsMember(v.members, ALGORITHM);
      GetIsMember(v.members, VALUE);
      TwoMembers(v.members, Member(ALGORITHM, Str(SHA_256)), Member(VALUE, Str(hex)));
    }
    if IsDigestOf(v, hex) {
      GetFinds(v.members, 0);
      GetFinds(v.members, 1);
    }
  }

  /** The object holds a well-formed digest with this value. */
  ghost predicate HoldsDigest(members: seq<Member>, hex: Text) {
    exists m :: m in members && m.key == Ascii("object_digest") && IsDigestOf(m.value, hex)
  }

  lemma {:induction false} HoldsDigestExactly(members: seq<Member>, hex: Text)
    requires DistinctKeys(members)
    ensures HoldsDigest(members, hex) <==>
            var declared := Get(members, OBJECT_DIGEST);
            declared.Some? && ValidDigest(declared.value) && DigestHex(declared.value) == hex
  {
    var declared := Get(members, OBJECT_DIGEST);
    GetIsMember(members, OBJECT_DIGEST);
    if declared.Some? {
      ValidDigestExactly(declared.value, hex);
    }
    if HoldsDigest(members, hex) {
      var m :| m in members && m.key == OBJECT_DIGEST && IsDigestOf(m.value, hex);
      var i :| 0 <= i < |members| && members[i] == m;
      GetFinds(members, i);
    }
  }

  /** All the members under other names, in any order. */
  ghost predicate AllOthers(rest: seq<Member>, members: seq<Member>) {
    DistinctKeys(rest) && forall m :: m in rest <==> m in members && m.key != Ascii("object_digest")
  }

  /** The digest check covers them, whatever their order. */
  lemma {:induction false} OthersAreCovered(rest: seq<Member>, members: seq<Member>)
    requires DistinctKeys(members) && AllOthers(rest, members)
    ensures CanonicalizeBytes(Obj(rest)) == CanonicalizeBytes(Obj(Without(members, OBJECT_DIGEST)))
  {
    var covered := Without(members, OBJECT_DIGEST);
    WithoutMembers(members, OBJECT_DIGEST);
    SameMembersSameText(rest, covered);
  }

  /** Each answer exactly when it applies. The digest is invalid when the object holds no well-formed one. When it
      does, the calculation fails exactly if the other members cannot be canonicalized, and the digest is a
      mismatch or sound as its value is not or is the hash of their canonical bytes. */
  lemma {:induction false} DigestVerdict(v: JSON, rest: seq<Member>, hash: Hash)
    requires v.Obj? && WellFormed(v) && AllOthers(rest, v.members)
    ensures VerifyObjectDigest(v, hash) == DigestInvalid <==> !exists hex :: HoldsDigest(v.members, hex)
    ensures VerifyObjectDigest(v, hash) == CalculationFailed <==>
            exists hex :: HoldsDigest(v.members, hex) && !Accepted(Obj(rest))
    ensures VerifyObjectDigest(v, hash) == DigestMismatch <==>
            exists hex :: && HoldsDigest(v.members, hex) && CanonicalizeBytes(Obj(rest)).CanonBytes?
                          && hash(CanonicalizeBytes(Obj(rest)).bytes) != hex
    ensures VerifyObjectDigest(v, hash) == Sound <==>
            exists hex :: && HoldsDigest(v.members, hex) && CanonicalizeBytes(Obj(rest)).CanonBytes?
                          && hash(CanonicalizeBytes(Obj(rest)).bytes) == hex
  {
    var declared := Get(v.members, OBJECT_DIGEST);
    forall hex ensures HoldsDigest(v.members, hex) <==>
                       declared.Some? && ValidDigest(declared.value) && DigestHex(declared.value) == hex {
      HoldsDigestExactly(v.members, hex);
    }
    OthersAreCovered(rest, v.members);
    SucceedsExactlyOnAccepted(Obj(rest));
    if CanonicalizeBytes(Obj(rest)).CanonBytes? {
      DigestObjectGets(hash(CanonicalizeBytes(Obj(rest)).bytes));
    }
    if declared.Some? && ValidDigest(declared.value) {
      assert HoldsDigest(v.members, DigestHex(declared.value));
    }
  }

  /** A finalized object passes the digest check. */
  lemma {:induction false} FinalizedIsSound(v: JSON, hash: Hash)
    requires WellFormed(v) && HexHash(hash)
    requires FinalizeObject(v, hash).Done?
    ensures FinalizeObject(v, hash).value.Obj?
    ensures VerifyObjectDigest(FinalizeObject(v, hash).value, hash) == Sound
  {
    var members := CloneMembers(v.members);
    CloneMembersTwice(v.members);
    var covered := CanonicalizeBytes(Obj(Without(members, OBJECT_DIGEST))).bytes;
    DigestObjectGets(hash(covered));
    SetKeepsDistinct(members, OBJECT_DIGEST, DigestObject(hash(covered)));
    WithoutAfterSet(members, OBJECT_DIGEST, DigestObject(hash(covered)));
  }

  lemma {:induction false} DigestObjectHeld(members: seq<Member>, hex: Text)
    requires DistinctKeys(members) && IsSha256(hex) && Get(members, OBJECT_DIGEST) == Some(DigestObject(hex))
    ensures HoldsDigest(members, hex)
  {
    DigestObjectGets(hex);
    HoldsDigestExactly(members, hex);
  }

  lemma {:induction false} OthersAfterSet(rest: seq<Member>, members: seq<Member>, value: JSON)
    requires DistinctKeys(members) && AllOthers(rest, members)
    ensures AllOthers(rest, Set(members, OBJECT_DIGEST, value))
  {
    WithoutMembers(members, OBJECT_DIGEST);
    WithoutMembers(Set(members, OBJECT_DIGEST, value), OBJECT_DIGEST);
    WithoutAfterSet(members, OBJECT_DIGEST, value);
  }

  /** Finalizing fails exactly on what is no object, and for the reason the other members of the clone cannot be
      canonicalized. Otherwise the clone keeps all the others and holds the hash of their canonical bytes. */
  lemma {:induction false} FinalizeExactly(v: JSON, rest: seq<Member>, hash: Hash)
    requires WellFormed(v) && HexHash(hash)
    requires v.Obj? ==> Clone(v).Obj? && AllOthers(rest, Clone(v).members)
    ensures FinalizeObject(v, hash) == NotAnObject <==> !v.Obj?
    ensures v.Obj? ==>
              forall why :: FinalizeObject(v, hash) == Uncanonical(why) <==> Canonicalize(Obj(rest)) == Rejected(why)
    ensures FinalizeObject(v, hash).Done? ==>
              && CanonicalizeBytes(Obj(rest)).CanonBytes?
              && FinalizeObject(v, hash).value.Obj? && DistinctKeys(FinalizeObject(v, hash).value.members)
              && AllOthers(rest, FinalizeObject(v, hash).value.members)
              && HoldsDigest(FinalizeObject(v, hash).value.members, hash(CanonicalizeBytes(Obj(rest)).bytes))
  {
    if v.Obj? {
      var members := CloneMembers(v.members);
      CloneMembersTwice(v.members);
      OthersAreCovered(rest, members);
      if FinalizeObject(v, hash).Done? {
        var hex := hash(CanonicalizeBytes(Obj(rest)).bytes);
        SetKeepsDistinct(members, OBJECT_DIGEST, DigestObject(hex));
        OthersAfterSet(rest, members, DigestObject(hex));
        DigestObjectHeld(Set(members, OBJECT_DIGEST, DigestObject(hex)), hex);
      }
    }
  }

  /** A digest is given exactly for what can be canonicalized, and its value is the hash of the canonical bytes. */
  lemma {:induction false} DigestValueExactly(v: JSON, hash: Hash)
    requires HexHash(hash)
    ensures DigestValue(v, hash).Done? <==> CanonicalizeBytes(v).CanonBytes?
    ensures DigestValue(v, hash).Done? ==> IsDigestOf(DigestValue(v, hash).value, hash(CanonicalizeBytes(v).bytes))
    ensures forall why :: DigestValue(v, hash) == Uncanonical(why) <==> Canonicalize(v) == Rejected(why)
  {
    if CanonicalizeBytes(v).CanonBytes? {
      var hex := hash(CanonicalizeBytes(v).bytes);
      DigestObjectGets(hex);
      ValidDigestExactly(DigestObject(hex), hex);
    }
  }

  lemma {:induction false} SameDigests(x: Text, y: Text)
    requires Same(DigestObject(x), DigestObject(y))
    ensures x == y
  {
    var a, b := DigestObject(x).members, DigestObject(y).members;
    assert ALGORITHM != VALUE;
    SameKeyByKey(a, b);
    assert Same(a[1].value, b[1].value);
  }

  /** Two objects whose digests are sound and equal agree, up to member order, on everything the digest
      covers; otherwise their covered bytes are an explicit collision. Nothing but `object_digest` escapes. */
  lemma {:induction false} ObjectDigestCovers(a: JSON, b: JSON, hash: Hash)
    requires a.Obj? && b.Obj? && WellFormed(a) && WellFormed(b)
    requires VerifyObjectDigest(a, hash) == Sound && VerifyObjectDigest(b, hash) == Sound
    ensures var coveredA, coveredB := Obj(Without(a.members, OBJECT_DIGEST)), Obj(Without(b.members, OBJECT_DIGEST));
            && CanonicalizeBytes(coveredA).CanonBytes? && CanonicalizeBytes(coveredB).CanonBytes?
            && (DigestHex(Get(a.members, OBJECT_DIGEST).value) == DigestHex(Get(b.members, OBJECT_DIGEST).value) <==>
                Same(coveredA, coveredB)
                || Collision(hash, CanonicalizeBytes(coveredA).bytes, CanonicalizeBytes(coveredB).bytes))
  {
    SoundDigest(a, hash);
    SoundDigest(b, hash);
    CoveredWellFormed(a);
    CoveredWellFormed(b);
    SucceedsExactlyOnAccepted(Obj(Without(a.members, OBJECT_DIGEST)));
    SucceedsExactlyOnAccepted(Obj(Without(b.members, OBJECT_DIGEST)));
    CanonicalBytesDecideSame(Obj(Without(a.members, OBJECT_DIGEST)), Obj(Without(b.members, OBJECT_DIGEST)));
  }

  lemma {:induction false} CoveredWellFormed(v: JSON)
    requires v.Obj? && WellFormed(v)
    ensures WellFormed(Obj(Without(v.members, OBJECT_DIGEST)))
  {
    var covered := Without(v.members, OBJECT_DIGEST);
    WithoutMembers(v.members, OBJECT_DIGEST);
    forall i | 0 <= i < |covered| ensures WellFormed(covered[i].value) {
      assert covered[i] in v.members;
    }
  }

  // ---------------------------------------------------------------------
  // Signature input
  // ---------------------------------------------------------------------

  const DOMAIN: Text := Ascii("domain")
  const PROFILE: Text := Ascii("profile")
  const SPEC_VERSION: Text := Ascii("spec_version")
  const TARGET_DIGEST: Text := Ascii("target_digest")
  const TARGET_TYPE: Text := Ascii("target_type")
  const SIGNATURE_DOMAIN: Text := Ascii("org.timeproofs.signature.v0.1")

  /** What a signature binds; in the source these are whatever the bundle holds, not only strings. */
  datatype SignatureContext = SignatureContext(specVersion: JSON, profile: JSON, targetType: JSON, targetDigest: JSON)

  function SignatureObject(c: SignatureContext): JSON {
    Obj([Member(DOMAIN, Str(SIGNATURE_DOMAIN)), Member(PROFILE, c.profile), Member(SPEC_VERSION, c.specVersion),
         Member(TARGET_DIGEST, c.targetDigest), Member(TARGET_TYPE, c.targetType)])
  }

  function BuildSignatureInput(c: SignatureContext): CanonicalBytes {
    CanonicalizeBytes(SignatureObject(c))
  }

  ghost predicate GoodContext(c: SignatureContext) {
    && WellFormed(c.specVersion) && WellFormed(c.profile) && WellFormed(c.targetType) && WellFormed(c.targetDigest)
    && Accepted(c.specVersion) && Accepted(c.profile) && Accepted(c.targetType) && Accepted(c.targetDigest)
  }

  const SIGNATURE_NAMES: seq<string> := ["domain", "profile", "spec_version", "target_digest", "target_type"]

  lemma {:induction false} SignatureNames(c: SignatureContext)
    ensures |SignatureObject(c).members| == |SIGNATURE_NAMES|
    ensures forall i :: 0 <= i < |SIGNATURE_NAMES| ==>
              IsAscii(SIGNATURE_NAMES[i]) && SignatureObject(c).members[i].key == Ascii(SIGNATURE_NAMES[i])
  {
  }

  lemma {:induction false} SignatureObjectIsData(c: SignatureContext)
    requires GoodContext(c)
    ensures WellFormed(SignatureObject(c)) && Accepted(SignatureObject(c))
  {
    var members := SignatureObject(c).members;
    SignatureKeysDistinct(c);
    SignatureNames(c);
    NamesValid(members, SIGNATURE_NAMES);
    AsciiValid("org.timeproofs.signature.v0.1");
    SignatureValuesGood(c);
    forall i | 0 <= i < |members| ensures AcceptedMember(members[i]) && WellFormed(members[i].value) {
    }
  }

  lemma {:induction false} SignatureValuesGood(c: SignatureContext)
    requires GoodContext(c) && ValidUnicode(SIGNATURE_DOMAIN)
    ensures forall i :: 0 <= i < |SignatureObject(c).members| ==>
              Accepted(SignatureObject(c).members[i].value) && WellFormed(SignatureObject(c).members[i].value)
  {
  }

  lemma {:induction false} SignatureKeysDistinct(c: SignatureContext)
    ensures DistinctKeys(SignatureObject(c).members)
  {
    assert DOMAIN[0] != PROFILE[0] && DOMAIN[0] != SPEC_VERSION[0] && PROFILE[0] != SPEC_VERSION[0];
    assert TARGET_DIGEST[0] == TARGET_TYPE[0] == 0x74;
    assert |TARGET_DIGEST| != |TARGET_TYPE|;
  }

  lemma {:induction false} EverythingExact(v: JSON)
    requires GoodValue(v)
    ensures Parseable(v, Exact)
  {
    EverythingRepresentable(v);
  }

  /** The bytes of data decode, and what they decode to parses to the data in normal form. */
  lemma {:induction false} BytesParse(v: JSON)
    requires GoodValue(v)
    ensures Canonicalize(v).Canon? && Decode(Encode(Canonicalize(v).text)) == Decoded(Canonicalize(v).text)
    ensures ParseStrict(Canonicalize(v).text, Exact) == Read(Normal(v), [])
  {
    EverythingExact(v);
    ParseUndoesCanonicalize(v, Exact);
    CanonicalTextValid(v);
    DecodeInvertsEncode(Canonicalize(v).text);
  }

  lemma {:induction false} PartsUnderNames(c: SignatureContext)
    requires GoodContext(c)
    ensures var members := Normal(SignatureObject(c)).members;
            && Get(members, DOMAIN) == Some(Str(SIGNATURE_DOMAIN)) && Get(members, PROFILE) == Some(Normal(c.profile))
            && Get(members, SPEC_VERSION) == Some(Normal(c.specVersion))
            && Get(members, TARGET_DIGEST) == Some(Normal(c.targetDigest))
            && Get(members, TARGET_TYPE) == Some(Normal(c.targetType))
  {
    var ms := SignatureObject(c).members;
    SignatureObjectIsData(c);
    NormalAnswers(ms);
    assert ms[0].key == DOMAIN && ms[1].key == PROFILE && ms[2].key == SPEC_VERSION;
    assert ms[3].key == TARGET_DIGEST && ms[4].key == TARGET_TYPE;
  }

  ghost predicate SignedDomain(signed: JSON) {
    Holds(signed, Ascii("domain"), Str(Ascii("org.timeproofs.signature.v0.1")))
  }

  ghost predicate SignedProfile(signed: JSON, profile: JSON, specVersion: JSON) {
    Holds(signed, Ascii("profile"), profile) && Holds(signed, Ascii("spec_version"), specVersion)
  }

  ghost predicate SignedTarget(signed: JSON, targetDigest: JSON, targetType: JSON) {
    Holds(signed, Ascii("target_digest"), targetDigest) && Holds(signed, Ascii("target_type"), targetType)
  }

  /** The object holds under each name the part of the context that belongs there, and nothing else. */
  ghost predicate Signs(signed: JSON, c: SignatureContext) {
    && signed.Obj? && |signed.members| == 5 && DistinctKeys(signed.members)
    && SignedDomain(signed) && SignedProfile(signed, Normal(c.profile), Normal(c.specVersion))
    && SignedTarget(signed, Normal(c.targetDigest), Normal(c.targetType))
  }

  lemma {:induction false} NormalKeepsCount(members: seq<Member>)
    requires DistinctKeys(members)
    ensures |Normal(Obj(members)).members| == |members| && DistinctKeys(Normal(Obj(members)).members)
  {
    var ns := NormalMembers(members);
    SortPermutes(ns, KeyLeq);
    DistinctKeysPermute(ns, SortMembers(ns));
  }

  lemma {:induction false} NormalSigns(c: SignatureContext)
    requires GoodContext(c)
    ensures Signs(Normal(SignatureObject(c)), c)
  {
    var signed := Normal(SignatureObject(c));
    SignatureObjectIsData(c);
    NormalKeepsCount(SignatureObject(c).members);
    PartsUnderNames(c);
    HoldsExactly(signed, DOMAIN, Str(SIGNATURE_DOMAIN));
    HoldsExactly(signed, PROFILE, Normal(c.profile));
    HoldsExactly(signed, SPEC_VERSION, Normal(c.specVersion));
    HoldsExactly(signed, TARGET_DIGEST, Normal(c.targetDigest));
    HoldsExactly(signed, TARGET_TYPE, Normal(c.targetType));
  }

  /** The signed bytes tell what was signed: decoded and parsed, they are an object that holds under each name the
      part of the context that belongs there, in its normal form, and nothing else. */
  lemma {:induction false} SignatureParts(c: SignatureContext) returns (text: Text, signed: JSON)
    requires GoodContext(c)
    ensures BuildSignatureInput(c).CanonBytes? && Decode(BuildSignatureInput(c).bytes) == Decoded(text)
    ensures ParseStrict(text, Exact) == Read(signed, []) && Signs(signed, c)
  {
    var whole := SignatureObject(c);
    SignatureObjectIsData(c);
    BytesParse(whole);
    text := Canonicalize(whole).text;
    signed := Normal(whole);
    NormalSigns(c);
  }

  ghost predicate SameContext(c: SignatureContext, d: SignatureContext) {
    && Same(c.specVersion, d.specVersion) && Same(c.profile, d.profile)
    && Same(c.targetType, d.targetType) && Same(c.targetDigest, d.targetDigest)
  }

  /** One byte string is signed for exactly one context: version, profile, target type and target digest. */
  lemma {:induction false} SignatureInputBindsContext(c: SignatureContext, d: SignatureContext)
    requires GoodContext(c) && GoodContext(d)
    ensures BuildSignatureInput(c).CanonBytes? && BuildSignatureInput(d).CanonBytes?
    ensures BuildSignatureInput(c) == BuildSignatureInput(d) <==>
            SameContext(c, d)
  {
    SignatureObjectIsData(c);
    SignatureObjectIsData(d);
    BytesKeyByKey(SignatureObject(c).members, SignatureObject(d).members);
    SignatureValues(c, d);
  }

  lemma {:induction false} BytesKeyByKey(a: seq<Member>, b: seq<Member>)
    requires WellFormed(Obj(a)) && Accepted(Obj(a)) && WellFormed(Obj(b)) && Accepted(Obj(b))
    requires |a| == |b| && forall i :: 0 <= i < |a| ==> a[i].key == b[i].key
    ensures CanonicalizeBytes(Obj(a)).CanonBytes? && CanonicalizeBytes(Obj(b)).CanonBytes?
    ensures CanonicalizeBytes(Obj(a)) == CanonicalizeBytes(Obj(b)) <==>
            forall i :: 0 <= i < |a| ==> Same(a[i].value, b[i].value)
  {
    CanonicalBytesDecideSame(Obj(a), Obj(b));
    SameKeyByKey(a, b);
  }

  lemma {:induction false} SignatureValues(c: SignatureContext, d: SignatureContext)
    ensures var cs, ds := SignatureObject(c).members, SignatureObject(d).members;
            (forall i :: 0 <= i < |cs| ==> Same(cs[i].value, ds[i].value)) <==>
            SameContext(c, d)
  {
    var cs, ds := SignatureObject(c).members, SignatureObject(d).members;
    assert cs[1].value == c.profile && ds[1].value == d.profile;
    assert cs[2].value == c.specVersion && ds[2].value == d.specVersion;
    assert cs[3].value == c.targetDigest && ds[3].value == d.targetDigest;
    assert cs[4].value == c.targetType && ds[4].value == d.targetType;
  }
}
