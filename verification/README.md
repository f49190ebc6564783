# TimeProofs: canonical form, hash links and their checks

A Dafny model of the parts of TimeProofs on which every digest, signature and hash link rests, with
proofs of what those parts promise.

- **Canonical JSON.** `Utf16`, `Sorting`, `Numbers`, `Strings`, `Json` and `Utf8` model the serialization of RFC 8785:
  members sorted by UTF-16 code units, string escapes, number layout, refused values, and the UTF-8 bytes.
- **Strict parser.** `Parsing` and `StrictJson` give the parser's grammar as functions of the remaining text, including
  which code it reports and where. `Spellings` and `Language` say from the writer's side which texts spell which value,
  and `LanguageExact` that the parser accepts exactly those; `Mistakes` says which texts are wrong in which way, and
  `MistakesExact` that each code is reported exactly for its mistakes; `Faults` says what the reported position means.
  `StrictParser` is the parser as it runs, a cursor with loops, proved against all of them. `RoundTrip` shows the
  canonical text to be one of the legal spellings, at every depth, which makes canonical text and bytes unique, and
  `CanonicalForm` says which one, unit by unit.
- **Digests and signing.** `Objects` and `Digests` model the JSON clone, object digests, finalization, the verifier's
  digest check and the domain-separated signing input. `Containment`, `Causality` and `EventRun` cover events
  and their causal parents; `History` covers payloads that list the digest of the payload before.
- **Repository checks.** `SchemaWalk` is the protocol alignment check and `SchemaSoundness` what it can vouch for;
  `Conformance` is the conformance runner's normal forms and its validator's list checks, `AppendixSplice` the generated
  appendix, `EscapeHtml` the HTML escape.

How to read the model:

- A string is a sequence of 16-bit code units. An object is a sequence of named members; that no name
  occurs twice is the predicate `WellFormed`, and that order does not matter is a theorem (`MemberOrderIrrelevant`).
- A finite number is a decimal: a sign, digits and the place of the point. The engine's choice of shortest digits and
  `Number(raw)` are the parameter `Rounding`, of which only what ECMAScript promises is used: rounding twice
  is rounding once, and zero stays zero. -0 and 0 are the same number.
- The hash is any function from bytes to text. Nothing assumes it free of collisions: a theorem about digests says
  "equal, or here are two different inputs with one digest". For bundles that no builder made,
  `CausalCycleIsHashCycle` says what a cycle of parents would be.
- `process.exit`, thrown errors and console output become boolean or error results. Results of loops over a
  JavaScript `Set` keep insertion order where it is visible.
- The main operations have, beside the functions that compute them, a description that shares none of these: literal code
  units, names and constants, places in a text, members an object holds. The lemmas named `...Exactly` connect the two.
- Automatic induction is switched off (`{:induction false}`), so every induction is written out.

Three places where code and promise differ, kept as the code has them:

- The appendix splice is not idempotent for every text; `SpliceSettlesExactly` says for which it is, and
  `StrayEndNeverSettles` and `UnclosedSettlesInTwo` what happens otherwise.
- The reference guard of the schema walk drops every path below a repeated reference, so a recursive schema passes its
  own comparison while its documents are reported (`RecursiveSchemaEscapes`).
- The runner sorts proofs with `localeCompare`, the validator expects code-unit order; `OrdersMustAgree` says when
  the two are compatible.

`dafny verify dfyconfig.toml` checks everything.

## Model

| member | source | states |
|---|---|---|
| RoundTrip.ReadUndoesCanonicalize | packages/core/src/canonicalize.mjs:12-43 | for every acceptable value at any depth and any text behind it that does not continue a number, the strict parser run on canonical text plus that text returns the value with members sorted and zeros unsigned, and stops exactly where the canonical text ended |
| RoundTrip.CanonicalTextDecidesSame | packages/core/src/canonicalize.mjs:12-43 | two acceptable values have one canonical text if and only if they are equal up to member order at every depth and the sign of zero |
| CanonicalForm.CanonicalExactly | packages/core/src/canonicalize.mjs:12-43 | for every value and every text: the serializer writes the text if and only if it is the canonical form, told unit by unit: the words, each string escaped as the table of section 3.2.2.2 of RFC 8785 lists it, each number by its decimal places, and lists and records with nothing but commas and colons between their parts, names ascending |
| CanonicalForm.RefusedExactly | packages/core/src/canonicalize.mjs:15-42 | which reason is given: that of the first element, or of the member with the least name, for which there is one, a name before its value; for a string the kind of its first unpaired surrogate |
| CanonicalForm.PrintedExactly | packages/core/src/canonicalize.mjs:20-20 | a text is what a number prints as if and only if its digits stand at the decimal places of the number, no zero is needless, and there is an exponent (an `e`, `+` or `-`, no leading zero, behind one nonzero digit) exactly from 1e21 on or below 1e-6 |
| CanonicalForm.CanonicalBytesExactly | packages/core/src/canonicalize.mjs:45-47 | the canonical bytes are exactly the bytes of the canonical form by the table in section 3 of RFC 3629 |
| RoundTrip.SpellIsCanonical | packages/core/src/canonicalize.mjs:12-43 | the canonical text is one of the spellings of the value |
| RoundTrip.SpellIsLegal | packages/core/src/canonicalize.mjs:12-43 | for every acceptable value that spelling is legal and means the value with members sorted and zeros unsigned |
| RoundTrip.MemberOrderIrrelevant | packages/core/src/canonicalize.mjs:29-38 | permuting members at any depths changes neither the text nor, when the value is refused, the reason |
| RoundTrip.ParseUndoesCanonicalize | packages/core/src/canonicalize.mjs:12-43 | parsing the canonical text of any acceptable value succeeds on the whole text and gives its normal form |
| RoundTrip.CanonicalizationOfTextSettles | spec/TIMEPROOFS_EVIDENCE_BUNDLE_SPEC_V0_1.md:240-258 | whatever text the strict parser accepts can be canonicalized, and parsing that and canonicalizing again changes nothing |
| Json.SucceedsExactlyOnAccepted | packages/core/src/canonicalize.mjs:15-42 | canonicalization throws if and only if some number is not finite, some string or key has an unpaired surrogate, or some value has no JSON form |
| Json.NormalDecidesSame | packages/core/src/canonicalize.mjs:29-38 | sorting members at every depth gives equal results exactly for values equal up to member order |
| Json.CanonicalizeNormal | packages/core/src/canonicalize.mjs:29-38 | the text, or the reason for refusing, is that of the normal form |
| Json.SortedMembersUnique | packages/core/src/canonicalize.mjs:29-29 | a list is the sorted one if and only if it rearranges the distinctly named members so that each name strictly precedes the next in code-unit order; the sorting algorithm does not matter |
| Json.SortedDecidesContained | packages/core/src/canonicalize.mjs:29-29 | sorted member lists are equal exactly when the lists hold the same members |
| Utf8.CanonicalBytesDecideSame | packages/core/src/canonicalize.mjs:45-47 | two acceptable values have the same canonical bytes if and only if they are equal up to member order and the sign of zero |
| Utf8.CanonicalTextValid | packages/core/src/canonicalize.mjs:22-36 | canonical text never holds an unpaired surrogate |
| Utf8.EncodedExactly | packages/core/src/canonicalize.mjs:45-47 | the encoder gives exactly the byte groups of that table for the code points of the text, and those of U+FFFD for a surrogate alone |
| Utf8.DecodeInvertsEncode | packages/core/src/canonicalize.mjs:45-47 | decoding by section 3 of RFC 3629 gives a text back from its bytes if and only if it has no unpaired surrogate |
| Utf8.DecodeEncode | packages/core/src/canonicalize.mjs:45-47 | decoding the bytes of any text gives that text with each unpaired surrogate replaced by U+FFFD |
| Utf8.UncheckedTextsCollapse | packages/core/src/canonicalize.mjs:22-36 | why the surrogate check is needed: two texts share their bytes if and only if they agree once every unpaired surrogate is replaced by U+FFFD, a literal U+FFFD included |
| Utf8.EncodeConcat | packages/core/src/canonicalize.mjs:45-47 | for any two texts, the bytes of the concatenation are the concatenated bytes if and only if no surrogate pair spans the seam |
| Utf16.CompareUtf16 | packages/core/src/canonicalize.mjs:3-10 | the loop returns a negative, zero or positive number exactly as the left string precedes, equals or follows the right one in the order of section 3.2.3 of RFC 8785 |
| Utf16.CompareIsLexicographic | packages/core/src/canonicalize.mjs:3-10 | sign and zero of the comparison agree with first-difference order, and swapping the arguments negates it |
| Utf16.CompareTransitive | packages/core/src/canonicalize.mjs:3-10 | the order is transitive for strings of any length |
| Utf16.AssertValidUnicode | packages/core/src/strict-json.mjs:10-23 | the loop throws exactly on strings with a surrogate that has no partner beside it, and names the kind of the first one |
| Utf16.ValidUnicodeMeansPaired | packages/core/src/strict-json.mjs:10-23 | passing the left-to-right check means, position by position, that each high surrogate is followed by a low one and each low one preceded by a high one |
| Strings.ParseUndoesQuote | packages/core/src/canonicalize.mjs:24-24 | for every string, well-formed or not, un-escaping the printed token returns the code units and stops at the closing quote |
| Strings.QuoteSelfDelimiting | packages/core/src/canonicalize.mjs:24-36 | no printed token is a proper prefix of another: equal texts beginning with tokens begin with tokens of the same string |
| RoundTrip.ReadUndoesQuote | packages/core/src/strict-json.mjs:42-128 | the strict string reader returns any well-formed string from its printed token and leaves exactly what followed |
| Strings.QuoteValid | packages/core/src/canonicalize.mjs:24-24 | a printed token never holds an unpaired surrogate |
| Strings.QuoteShortest | packages/core/src/canonicalize.mjs:24-24 | no token the strict parser reads as the same string is shorter than the printed one |
| Strings.FinalCheckNeverThrows | packages/core/src/strict-json.mjs:49-53 | the surrogate check on a finished string can never fail, because every step before it keeps surrogates paired |
| RoundTrip.NumberRoundTrip | packages/core/src/strict-json.mjs:130-162 | a printed number in front of anything that does not continue it is read back as its rounded value, or refused as not finite exactly when that value is |
| Numbers.LayoutValue | packages/core/src/canonicalize.mjs:20-20 | each of the four layouts of section 3.2.2.3 of RFC 8785 denotes exactly the number laid out, -0 as 0 |
| Numbers.LayoutIsUnique | packages/core/src/canonicalize.mjs:20-20 | a token is the layout of a number if and only if it denotes the number, has an exponent exactly from 1e21 on or below 1e-6, one digit before the point if it has an exponent, no needless zeros and no sign on zero |
| Numbers.TokenDenotes | packages/core/src/strict-json.mjs:132-160 | the number a token is read as is the one with the token's sign and, at every decimal place, the digit written there |
| Spellings.FigureReads | packages/core/src/strict-json.mjs:132-156 | any notation of a number, in front of anything that does not continue it, is read as its sign, integer, fraction and exponent |
| Spellings.PiecesRead | packages/core/src/strict-json.mjs:47-127 | any choice of escapes between quotes is read as the code units it stands for |
| LanguageExact.ParserAcceptsExactly | packages/core/src/strict-json.mjs:25-243 | for every text and every value: the strict parser returns the value if and only if the text is a legal spelling of it, that is, any choice of white space, escapes and number notation that RFC 8259 allows, with no name twice in an object, no unpaired surrogate and no number too large |
| Language.SpellingReads | packages/core/src/strict-json.mjs:226-237 | any legal spelling of a value, at any depth and in front of any text that does not continue a number, is read as that value and leaves exactly that text |
| LanguageExact.ReadSpells | packages/core/src/strict-json.mjs:226-237 | whatever the value reader consumes is white space and a legal spelling of the value it returns |
| MistakesExact.ParserFailsExactly | packages/core/src/strict-json.mjs:25-243 | for every text, code and position: the parser reports the code there if and only if the text is wrong in a way that earns it: inside lists and records spelled up to that place stands a name some member of the same record already has, a string, escape, number, word, comma, colon or name of the wrong kind, or data follows a complete value |
| Mistakes.WrongIsReported | packages/core/src/strict-json.mjs:25-243 | each such text, whatever its depth, its spelling and what follows, is reported with that code at that place |
| StrictParser.ParseJsonStrict | packages/core/src/strict-json.mjs:25-243 | the parser as it runs returns a value if and only if the text spells it, and a code with a position if and only if the text is wrong in the way that earns that code there; the text in front of the position is the beginning of a legal text, and where one unit settles the fault, or the text just ends, that position is exactly where it stops being one |
| Faults.FaultIsFirst | packages/core/src/strict-json.mjs:25-243 | for every text and every fault, the text in front of the reported position can be continued to a legal JSON text (leaving aside which numbers are too large) |
| Faults.FaultIsExact | packages/core/src/strict-json.mjs:25-243 | for a fault that one unit settles (a missing comma, colon, name or value, a leading zero, a number cut short, a control character, data behind the value) or that the end of the text causes: a front of the text can be continued to a legal one if and only if it ends at the reported position or before |
| StrictParser.Parser.ParseValue | packages/core/src/strict-json.mjs:226-237 | reads one value of the grammar behind white space, or reports its code and position |
| StrictParser.Parser.ParseObject | packages/core/src/strict-json.mjs:186-194 | an opening brace, then an empty object or members |
| StrictParser.Parser.ParseMembers | packages/core/src/strict-json.mjs:196-215 | the member loop reads what the grammar reads, refusing a repeated name at the position of the name |
| StrictParser.Parser.ParseMember | packages/core/src/strict-json.mjs:197-206 | name, colon and value, with the codes and positions of each fault |
| StrictParser.Parser.ParseArray | packages/core/src/strict-json.mjs:164-184 | the element loop reads what the grammar reads |
| StrictParser.Parser.ParseDelimiter | packages/core/src/strict-json.mjs:207-214 | closing bracket, or comma and the start of the next part, or the position where a comma was expected |
| StrictParser.Parser.ParseKeyword | packages/core/src/strict-json.mjs:218-224 | consumes exactly the keyword or fails where it began |
| StrictParser.Parser.ParseNumber | packages/core/src/strict-json.mjs:130-162 | reads the longest number token and its rounded value, refusing overflow at the start of the token |
| StrictParser.Parser.ParseWhole | packages/core/src/strict-json.mjs:134-143 | one zero or digits without a leading zero |
| StrictParser.Parser.ParseFraction | packages/core/src/strict-json.mjs:145-149 | an optional fraction with at least one digit |
| StrictParser.Parser.ParseExponent | packages/core/src/strict-json.mjs:151-156 | an optional signed exponent with at least one digit |
| StrictParser.Parser.ScanDigits | packages/core/src/strict-json.mjs:140-140 | moves over exactly the leading digits and returns them |
| StrictParser.Parser.ParseString | packages/core/src/strict-json.mjs:42-128 | reads up to the first unescaped quote, accumulating the code units the grammar gives |
| StrictParser.Parser.ParseCharacter | packages/core/src/strict-json.mjs:109-124 | one unescaped character or pair, or the code and position of the fault |
| StrictParser.Parser.ParseEscape | packages/core/src/strict-json.mjs:55-107 | one escape, surrogate pairs included, or the code and position of the fault |
| StrictParser.Parser.SkipSpaces | packages/core/src/strict-json.mjs:36-40 | skips exactly the four JSON white-space characters |
| StrictJson.ReadValueParseable | packages/core/src/strict-json.mjs:226-237 | every value the parser returns has distinct names at every depth, well-formed strings and finite numbers a double can hold |
| StrictJson.ReadValueNeverThrows | packages/core/src/strict-json.mjs:51-51 | every failure of the parser carries one of its own codes and a position |
| Digests.DigestDecidesSame | packages/core/src/digest.mjs:10-15 | digests of two acceptable values are equal if and only if the values are equal up to member order or their canonical bytes are an explicit hash collision |
| Digests.FinalizeTwice | scripts/generate-fixtures.mjs:35-43 | finalizing a finalized object changes nothing |
| Digests.FinalizedMembers | scripts/generate-fixtures.mjs:39-43 | finalizing an acceptable object always succeeds, sets a digest object, and every other name answers as in the JSON clone |
| Digests.FinalizeExactly | scripts/generate-fixtures.mjs:39-43 | finalizing throws exactly on what is no object and, for the same reason as canonicalizing them, when the other members of the clone cannot be canonicalized; otherwise it keeps them all and sets a digest of exactly their bytes |
| Digests.FinalizedIsSound | packages/core/src/verify-bundle.mjs:119-132 | every finalized object passes the verifier's digest check |
| Digests.SoundDigest | packages/core/src/verify-bundle.mjs:119-132 | the check passes if and only if the object holds a well-formed digest whose value is the hash of the canonical bytes of all its other members |
| Digests.DigestVerdict | packages/core/src/verify-bundle.mjs:119-132 | which answer is given: the digest is invalid if and only if there is none of exactly the two members sha-256 and 64 lower-case hexadecimal digits; otherwise the calculation fails if and only if the other members cannot be canonicalized, and the digest mismatches if and only if they can and its value is not the hash of their bytes |
| Digests.ValidDigestExactly | packages/core/src/verify-bundle.mjs:83-86 | a digest is valid, with a given value, if and only if it is one of the two objects of just those members |
| Digests.ObjectDigestCovers | packages/core/src/digest.mjs:17-30 | two objects that pass have equal digests if and only if they agree up to member order on every member but `object_digest`, or their covered bytes are an explicit collision |
| Digests.SignatureInputBindsContext | packages/core/src/signature-input.mjs:5-13 | two signing inputs are the same bytes if and only if specification version, profile, target type and target digest are all equal |
| Digests.SignatureParts | packages/core/src/signature-input.mjs:5-13 | the signed bytes always decode and parse, to an object of exactly five members: the domain `org.timeproofs.signature.v0.1` and, each under its own name and in normal form, the profile, version, target digest and target type of the context |
| Objects.CloneOfAccepted | scripts/generate-fixtures.mjs:35-37 | a JSON clone of an acceptable value is acceptable and equal to it up to the sign of zero |
| Objects.CloneTwice | packages/core/src/builders.mjs:3-5 | cloning a clone changes nothing, for every value including those with members JSON drops |
| Objects.ClonedExactly | packages/core/src/builders.mjs:3-5 | what a clone of any value is: the same words and strings, numbers without a JSON form and list elements without one turned into null, zeros unsigned, and the members that have a JSON form in their order |
| Objects.SetKeepsDistinct | scripts/generate-fixtures.mjs:41-41 | assigning one member changes the answer to that name only and keeps names distinct |
| Objects.SetInPlace | scripts/generate-fixtures.mjs:41-41 | where the name stands its value is replaced; a new name goes behind the others |
| Objects.SameObjectsAgree | packages/core/src/canonicalize.mjs:29-38 | objects equal up to member order answer every name with equal values |
| Objects.SameIsWellFormed | packages/core/src/canonicalize.mjs:29-38 | a value equal up to member order to one with distinct names has distinct names itself, at every depth |
| Causality.CheckParents | packages/core/src/verify-bundle.mjs:413-424 | for any events: the check throws if and only if some event's parents are neither list nor string nor absent, and otherwise reports, in the order of the entries, exactly each entry that is no digest, each digest no event declares, and each digest of the event's own; it stays silent if and only if every entry is a digest another event declares |
| Causality.CollectIssues | packages/core/src/verify-bundle.mjs:415-420 | the outer loop gathers the issues of all events in order |
| Causality.CheckEvent | packages/core/src/verify-bundle.mjs:416-416 | one event: its issues, or the exception for parents that cannot be looped over |
| Causality.CheckParentsOf | packages/core/src/verify-bundle.mjs:416-420 | the inner loop gives each entry the first of the three verdicts that applies |
| Causality.JudgedExactly | packages/core/src/verify-bundle.mjs:416-420 | an entry gets a verdict exactly when it applies: no digest object, a digest no event declares, or one the event itself declares |
| Causality.LoopsExactly | packages/core/src/verify-bundle.mjs:416-416 | what the loop goes through: the list, the characters of a string, nothing for null or an absent name; anything else throws |
| Causality.CausalCycleIsHashCycle | spec/STRUCTURAL_VERIFICATION_V0_1.md:65-71 | in an arbitrary bundle that passes, a closed chain of parents has at least two different events and is a cycle of preimages: each event's covered bytes spell out the hash of the next one's |
| Causality.ParentLink | packages/core/src/verify-bundle.mjs:413-420 | a parent's hash stands, as bytes, inside the bytes its child's digest covers |
| Containment.ElementWithinArray | packages/core/src/canonicalize.mjs:26-28 | the canonical text of an element is a run of the text of its array |
| Containment.ValueWithinObject | packages/core/src/canonicalize.mjs:29-38 | the canonical text of a member value is a run of the text of its object |
| Containment.PlainRunEncodes | packages/core/src/canonicalize.mjs:45-47 | a run of plain ASCII inside a well-formed text is a run of its bytes |
| EventRun.CausalGraphAcyclic | spec/STRUCTURAL_VERIFICATION_V0_1.md:65-71 | in any bundle whose events come from a run of the event builder, in any order, no non-empty chain of causal parents returns to its start, or two events of the run are an explicit hash collision |
| EventRun.CycleCollides | spec/STRUCTURAL_VERIFICATION_V0_1.md:65-71 | descent behind it: once round a cycle of parents, any event with the digest of the start leads to an earlier one |
| EventRun.TwinsHaveTwinParents | scripts/generate-fixtures.mjs:57-74 | built events with one digest list as many parents, with the same digests in the same order, unless the hash collides |
| EventRun.BuiltEventsVerify | scripts/generate-fixtures.mjs:57-74 | every run of the event builder, each event naming earlier ones as parents, verifies (digests and parents), or two of its events are an explicit hash collision |
| EventRun.BuildSucceeds | scripts/generate-fixtures.mjs:57-74 | building never throws on acceptable members, and each event holds a sound digest and exactly the digests of the parents named, in order |
| EventRun.EventIsBuilt | scripts/generate-fixtures.mjs:57-74 | one event: a sound digest and the listed parents' digests survive clone and finalization |
| EventRun.EventParts | scripts/generate-fixtures.mjs:57-74 | the finished event is an object of exactly fifteen members: each part of the draft, cloned, under its name, empty extensions, the digests of the parents named, in order, and its own digest |
| EventRun.RunHoldsDrafts | scripts/generate-fixtures.mjs:57-74 | every run gives one event a draft, and each holds its draft in that sense |
| History.HeadDigestFixesHistory | packages/core/src/builders.mjs:107-137 | two linked histories, of any lengths, that end in one payload digest are equal payload by payload, their lengths included, or two payloads equally far from the head collide explicitly |
| History.RunIsLinked | packages/relay/src/service.mjs:237-262 | every run of revisions, each listing the payload digest of the previous one, is a linked history of that length |
| History.RunsWithOneHeadAgree | packages/relay/src/service.mjs:237-262 | two runs of the builder ending in one payload digest had as many revisions and the same payloads throughout, or exhibit a collision |
| History.PayloadIsGood | packages/core/src/builders.mjs:121-134 | a payload built from acceptable parts can be digested and has distinct names |
| History.PayloadParts | packages/core/src/builders.mjs:121-134 | a payload is an object of exactly eleven members: version `0.1`, profile `TP-JSON-0.1`, the parts of the revision under their names, lists and extensions cloned, and the predecessors |
| History.RunHoldsRevisions | packages/relay/src/service.mjs:237-262 | each payload of a run holds its own revision and the digest of the payload before it, the first none |
| SchemaSoundness.DocumentsPassExactly | scripts/validate-protocol-alignment.mjs:27-68 | for every schema and registry: no accepted document is ever reported if and only if every route through the schema, references followed any number of times, ends well: a listed constant is documented throughout, any other node has a documented path, at an open entry or below where members come unlisted, below one where elements do |
| SchemaSoundness.RecursiveSchemaNeverPasses | scripts/validate-protocol-alignment.mjs:28-33 | any schema that comes back to one of its nodes along a longer path accepts a document that is reported, whatever registry without open entries it is compared with |
| SchemaSoundness.GoodRoutesDocument | scripts/validate-protocol-alignment.mjs:62-68 | where every route ends well, every well-formed value the schema accepts passes the value walk |
| SchemaSoundness.BadRouteReported | scripts/validate-protocol-alignment.mjs:62-68 | where some route does not end well, some accepted document is reported |
| SchemaSoundness.AlignmentIsRegistryAgreement | scripts/validate-protocol-alignment.mjs:27-73 | on a schema with acyclic references, when what the walk leaves open is open in the registry (objects with unlisted members, and below them nodes that may hold more than a scalar without saying what), documents the schema accepts never make the check fail: it passes if and only if the schema can be walked and the registry lists exactly its paths |
| SchemaSoundness.AcyclicSchemaSound | scripts/validate-protocol-alignment.mjs:27-68 | under the same conditions every path of every accepted document is a collected path or lies below an open one |
| SchemaSoundness.SchemaWalkSound | scripts/validate-protocol-alignment.mjs:27-68 | the same for any schema, with the same conditions on the registry, on which the repeated-reference guard never stopped the walk |
| SchemaSoundness.AcyclicNeverCut | scripts/validate-protocol-alignment.mjs:28-33 | along an acyclic reference graph the guard never stops the walk |
| SchemaSoundness.RecursiveSchemaEscapes | scripts/validate-protocol-alignment.mjs:28-33 | acyclicity is needed: a recursive schema whose registry lists exactly the collected paths, and an accepted document that is reported |
| SchemaSoundness.BelowOpen | scripts/validate-protocol-alignment.mjs:56-68 | everything below an open entry is documented at any depth |
| SchemaWalk.CheckAlignment | scripts/validate-protocol-alignment.mjs:46-73 | the script passes if and only if every node on a route that follows no reference twice is passable, the registry has exactly the paths of those routes, and every path into every document is in the registry or below an open entry |
| SchemaWalk.Walker.WalkSchema | scripts/validate-protocol-alignment.mjs:28-45 | the walk ends on every schema, cyclic ones included, succeeds exactly when every node on such a route is passable, and then adds exactly the paths of those routes to the shared set |
| SchemaWalk.WalkedExactly | scripts/validate-protocol-alignment.mjs:27-45 | the walk of a node succeeds if and only if every node it can come to, following no reference twice, is a reference on the stack or one that names a definition, an array with items, or no array |
| SchemaWalk.CollectedExactly | scripts/validate-protocol-alignment.mjs:27-45 | a path is collected if and only if some route through properties, items and references, following no reference twice, spells it |
| SchemaWalk.FollowingUsesUp | scripts/validate-protocol-alignment.mjs:29-33 | a followed reference strictly shrinks the set of definitions not on the stack, which is why the walk ends |
| SchemaWalk.CompareRegistry | scripts/validate-protocol-alignment.mjs:48-54 | the two loops pass if and only if registry and schema list the same set of paths |
| SchemaWalk.AllIn | scripts/validate-protocol-alignment.mjs:49-51 | one loop passes if and only if every path is known on the other side |
| SchemaWalk.WalkValue | scripts/validate-protocol-alignment.mjs:62-68 | the walk passes if and only if this path and every path below it is documented |
| SchemaWalk.ValueCovered | scripts/validate-protocol-alignment.mjs:56-68 | which is so if and only if every path of names and indices into the value, written behind the parts it stands at, is in the registry or below an open entry |
| SchemaWalk.ValueDocumentedExactly | scripts/validate-protocol-alignment.mjs:56-68 | the recursion over the value covers exactly the paths of all names and indices that lead into it |
| SchemaWalk.NormalizePath | scripts/validate-protocol-alignment.mjs:57-61 | the loop spells the path of the parts, every index as `[]` |
| SchemaWalk.PathOfParts | scripts/validate-protocol-alignment.mjs:57-61 | that path is `$`, then a point and the name for each key and `[]` for each index |
| EscapeHtml.ChainIsOnePass | scripts/generate-evidence-packets.mjs:52-59 | the five chained replacements equal one left-to-right pass that replaces each character on its own |
| EscapeHtml.UnescapeUndoesEscape | scripts/generate-evidence-packets.mjs:52-59 | a one-pass decoder of the five entities returns the input exactly |
| EscapeHtml.EscapedIsSafe | scripts/generate-evidence-packets.mjs:52-59 | the output has no raw `<`, `>`, double or single quote, and no `&` that does not start one of the five entities |
| AppendixSplice.SpliceSettlesExactly | scripts/generate-protocol-docs.mjs:114-121 | a second run changes nothing if and only if the first replaced an appendix or the text held neither marker |
| AppendixSplice.SpliceWrites | scripts/generate-protocol-docs.mjs:114-121 | what one run writes: the text before the first start marker if the first end marker comes behind it, and otherwise the whole text, without the white space at its end; then an empty line, the appendix between its markers and a line break |
| AppendixSplice.UnclosedSettlesInTwo | scripts/generate-protocol-docs.mjs:114-121 | with a start marker and no end marker the second run differs from the first and is a fixed point |
| AppendixSplice.UnclosedShrinks | scripts/generate-protocol-docs.mjs:117-121 | in that case the second run cuts the text at the old start marker and shortens it |
| AppendixSplice.StrayEndGrows | scripts/generate-protocol-docs.mjs:117-121 | with an end marker before every start marker, the next run meets the same and makes its text longer |
| AppendixSplice.StrayEndNeverSettles | scripts/generate-protocol-docs.mjs:117-121 | such a text never settles: after any number of runs one more changes it, and each run but the first lengthens it |
| AppendixSplice.BareEndMarkerFails | scripts/generate-protocol-docs.mjs:114-121 | a text that is nothing but the end marker is such a text |
| AppendixSplice.NoMarkerAcross | scripts/generate-protocol-docs.mjs:118-120 | no marker occurrence straddles the inserted line breaks |
| AppendixSplice.TrimKeepsMarkers | scripts/generate-protocol-docs.mjs:118-120 | trimming the end removes no marker occurrence |
| AppendixSplice.IndexOfIsFirst | scripts/generate-protocol-docs.mjs:115-116 | the search gives the first occurrence, or -1 exactly when there is none |
| Conformance.SortedCodesDecidesCodeSet | scripts/run-conformance.mjs:21-23 | two issue lists give the same output if and only if they contain the same set of codes |
| Conformance.SortedCodesAscend | scripts/run-conformance.mjs:21-23 | the output is the one list that is strictly ascending by code units and holds exactly the codes of the issues |
| Conformance.AcceptedCodesAreNormal | scripts/validate-conformance-harness.mjs:35-39 | the lists the validator accepts are the strictly ascending ones, and exactly those the runner's normalizer leaves unchanged |
| Conformance.UniqueMeansNoRepeats | scripts/validate-conformance-harness.mjs:31-33 | comparing set size with length decides freedom from repeats |
| Conformance.SameSortedDecidesSets | scripts/validate-conformance-harness.mjs:25-29 | on duplicate-free lists, comparing JSON text of sorted copies decides set equality |
| Conformance.StringifyInjective | scripts/validate-conformance-harness.mjs:28-28 | JSON texts of two string lists are equal if and only if the lists are, whatever the strings contain |
| Conformance.CheckCoverage | scripts/validate-conformance-harness.mjs:73-100 | the coverage check passes if and only if the manifest lists every fixture of the two directories (names ending in `.json` other than `manifest.json`) under its directory, and nothing else |
| Conformance.AddFixtures | scripts/validate-conformance-harness.mjs:94-99 | the loop pushes exactly the fixture paths of one directory, in order |
| Conformance.ListedPaths | scripts/validate-conformance-harness.mjs:73-85 | the loop leaves the distinct manifest paths in order of first appearance |
| Conformance.ProofsExactly | scripts/run-conformance.mjs:25-33 | the runner reports each proof once, with its identifier, issuer, target type, target and target digest each in its own field, ordered by identifier, ties as they came |
| Conformance.ProofOrderIrrelevant | scripts/run-conformance.mjs:25-33 | every permutation of the proofs normalizes alike when the comparator tells their identifiers apart |
| Conformance.OrdersMustAgree | scripts/validate-conformance-harness.mjs:88-90 | the runner's order passes the validator's order check if and only if the two comparators agree on the identifiers |

## Left out

- SHA-256, Ed25519, HMAC and PEM handling: foreign primitives; the hash is a parameter.
- Selection of the shortest digits of a double and correct rounding of a token: done inside the engine; a parameter here.
- The path text in error messages of `canonicalize`, and message texts everywhere: only kind, code and position are modelled.
- Input that JSON text cannot give: sparse arrays, getters, symbols as keys, `toJSON`, `bigint` handed to `JSON.stringify`.
- The order in which a JavaScript object lists integer-like names: visible only in what a clone or a loop goes through
  first, never in canonical text.
- Recursion depth: the call stack of the engine is finite, the model's is not.
- The rest of structural verification (member sets, vocabularies, timestamps, issuers, evidence and relationship
  references, proof targets and signatures), the verdict engine, the Relay's store, server and concurrency.
- `createEvidenceItem`, `createRelationship`, `addProof` and the scenarios of the fixture generator: the same
  finalization with other member names.
- Markdown, HTML, site and packet generation apart from the splice and the escape: text templates.
- Schema keywords the alignment walk does not look at, such as `required`, `pattern` or `minLength`: they could only
  make a schema accept fewer documents. Boolean schemas and `additionalProperties` given as a schema are not modelled.
- SchemaSoundness.DocumentsPassExactly: in its "only if" half, the documents are those the modelled keywords accept; a
  schema that also demands members may accept none of them. Keywords beside a `$ref` count for nothing, as in the walk.
- Faults.FaultIsExact: bad escapes, surrogates without a partner, words such as `true` misspelled, repeated names and
  numbers too large are reported at or inside the construct, maybe before its first bad unit; for these,
  `FaultIsFirst` and `ParserFailsExactly` say where.
- Conformance.CheckCoverage: the directory listings are parameters without repeats, as a file system gives them; sorting
  each listing before pushing is left out because the pushed list is sorted again.
- Conformance.ProofOrderIrrelevant: for any total and transitive comparator; the collation `localeCompare` uses is not modelled.
- AppendixSplice.Splice: the generated rows between the markers are any text; if that text itself held a marker the
  theorems still apply.
- History.Payload: the specification version and profile are the defaults `0.1` and `TP-JSON-0.1`.
