# Moltzap identity, Registry and release logic in Dafny

A model of the parts of the repository whose correctness is hardest to see from one function, with
proofs of what they promise. Five groups of modules:

- **Requests.** `CardResolution` is the single-flight AgentCard resolver: the shared pending map and
  cache as a class, and a step system that interleaves callers, leading fibers, evictions and
  interruptions. `BoundedCaches` is its least-recently-used cache. `NonceClaims` is replay defence over
  whole runs of claims.
- **Registry.** `RegistryTables` says what one transaction does alone, `RegistryTransactions` interleaves
  their SQL statements under the row lock, `RegistryHistories` says what that means for nonces, replies and
  lookups, `RegistryProgress` how transactions end, `RegistryListing` reads pages while agents register.
- **Representations.** `Utf8`, `Json` and `CanonicalJson` are the printer and the parser with its whole
  grammar; `JsonSnapshots` walks object graphs; `Identifiers` is base64url, the generated pattern and the
  AgentId order; `KeyEncoding` is the accepted Ed25519 encodings. `JsonSpellings` compares the
  printer's text with every other spelling. `Lexicographic` and `Sequences` hold what they share.
- **Sealed bodies.** `SealedFormat`, `SealedSizes` and `SignedMessageBound` compute encoded sizes member by
  member; `SealedSchemas` and `SealedBodies` follow a body from sealer to opener, and `SealedReading` says
  exactly which bodies open.
- **Releases.** `SelectPackages` is the selection pass, `HashedManifests` the hashed lines, `HashedLines` what
  their digest fixes, `HostCode` the worklist over imported modules.

## Conventions

Code that updates state in place is a class or a method with its loops, proved against a specification
function; the lemmas are about those functions. A text is its sequence of UTF-16 code units, a byte
string a sequence of integers. `Option` stands for the source's single error where it has one.

What the model assumes is written as a precondition or a field:

- `NumberFormat` is how the runtime reads and writes numbers; `StableFormat` says a written number is a
  JSON number token that reads back to one written alike, and that negative zero alone reads back as another
  number. Numbers are otherwise opaque. `TwoZeros` is such a format.
- `InClockOrder` says claims arrive in the order their signatures were verified. The source reads the
  clock before it claims, so this is not automatic; `ReplayAcceptedOutOfClockOrder` is a run without it.
- `Suite` is the cryptography of sealed bodies. Sealing assumes output sizes and that an opening key undoes
  sealing byte strings to its own key, which `OpenSuite` meets. Agreement between openers assumes nothing about
  decryption.
- `IsRounding` is what IEEE 754 rounding keeps: order, and integers up to 2^53. Exact arithmetic meets it.
- `IsCollisionFree` and `IsFresh` say that the content hash is injective, and that npm has neither the new
  version nor any manifest that pins it. `OrderCheckIsNotEnough` has a hash and a record that meet both.
- `FieldOrderIsPrime` says that 2^255 - 19 is prime, which is not proved here. Only the two statements that
  turn x = 0 into y = 1 or -1 use it.
- `Separates` says of two given byte strings that they do not collide under the digest; `DigestsAreText` that a
  digest is one line of text, and `IsLabel` that a path has no NUL and no line feed.
- `AreScoped` says package names have the form `@scope/name`.

## Where the code and its description differ

- `scripts/release/select-packages.ts:14-19` says that listing packages in dependency order makes every
  dependent of a selected package selected and correctly pinned. The order check reads production edges
  only and lets a package depend on itself, while packing pins siblings from every section;
  `OrderCheckIsNotEnough` is a list that passes it and goes wrong. Which packages a run selects is known
  before it starts (`SelectedIffDue`), and with that the exact condition for one npm record: no package pins
  one at or after it that is due and takes a new version (`WrittenHashIsFinalIff`,
  `SecondRunSelectsNothingIff`, `RerunReachesTheSameIff`). Over all records the lists that are right are
  those whose pins precede (`AlwaysRightIff`).
- `packages/identity/src/agent-key.ts:117-128` speaks of the single accepted encoding of a signature's point.
  Neither check looks at the sign bit, so the two points with x = 0 are accepted under both
  (`SignatureSpelledTwice`); every other point has one encoding (`SignatureSpellingsIff`).
- An encoded value does not always parse to itself: negative zero becomes zero (`ParseOfEncodeIff`).
- The last two small-order table entries of `packages/identity/src/agent-key.ts:54-55` can never match.
- The `ancestors` set of `packages/identity/src/canonical-json.ts:370-378` never changes an answer: the depth
  bound alone rejects every cycle.

## Model

| member | source | states |
|---|---|---|
| `CardResolution.ResolveLookup` | `packages/identity/src/authenticated-http.ts:356-405` | a lookup succeeds exactly for a verified card of the asked agent; failing, throwing, missing and interrupted lookups each end as the source ends them |
| `CardResolution.CardResolver.BeginCardResolution` | `packages/identity/src/authenticated-http.ts:414-437` | one atomic read of cache and pending map: the answer and both new states |
| `CardResolution.CardResolver.RemovePendingResolution` | `packages/identity/src/authenticated-http.ts:439-448` | deletes the agent's entry by key and nothing else |
| `CardResolution.CardResolver.RetainResolvedCard` | `packages/identity/src/authenticated-http.ts:450-460` | stores the card as the least-recently-used cache does |
| `CardResolution.StepKeepsInv` | `packages/identity/src/authenticated-http.ts:304-347` | every step of callers, leaders and interruptions keeps the whole invariant |
| `CardResolution.ReachableInv` | `packages/identity/src/authenticated-http.ts:247-460` | the invariant holds in every state of every interleaving |
| `CardResolution.SingleFlight` | `packages/identity/src/authenticated-http.ts:279-373` | one leader per agent between `lead` and removal, pending keys are exactly the leaders' agents, one lookup per agent and at most the limit in all |
| `CardResolution.RemoveTakesOwnEntry` | `packages/identity/src/authenticated-http.ts:439-448` | removal by key always removes the leader's own deferred, never another leader's |
| `CardResolution.DecisionsAreCurrent` | `packages/identity/src/authenticated-http.ts:414-437` | no caller is sent to a completed deferred or a foreign card, or leads beside a leader |
| `CardResolution.AnswersBelong` | `packages/identity/src/authenticated-http.ts:375-405` | every card a caller is answered with is verified and its own agent's |
| `CardResolution.AnsweredWithLeadersExit` | `packages/identity/src/authenticated-http.ts:329-347` | an await returns the exit of the lookup that led its deferred |
| `CardResolution.RunAdvances` | `packages/identity/src/authenticated-http.ts:329-347` | a measure on runs: each leader step uses up one of at most five, whatever is interleaved |
| `CardResolution.CompletedAtMostOnce` | `packages/identity/src/authenticated-http.ts:340-346` | a deferred is completed at most once and its exit is final |
| `CardResolution.CauseGivesExit` | `packages/identity/src/authenticated-http.ts:349-405` | each way a lookup can end gives the exit it must: verified own card, overload, outage, failed authentication or interruption |
| `CardResolution.EveryExitHasCause` | `packages/identity/src/authenticated-http.ts:349-405` | in every run each exit was brought about by the step that explains it; `Overloaded` only by asking for a permit when every permit was taken |
| `CardResolution.RunFollows` | `packages/identity/src/authenticated-http.ts:304-460` | in every run the cards held are those a least-recently-used cache holds after the run's own reads and writes |
| `CardResolution.RetainedCardAnswers` | `packages/identity/src/authenticated-http.ts:329-460` | after a leader retains a card, while fewer other agents than the capacity come up, the next call for the agent is answered with that card and starts no lookup |
| `CardResolution.RestIsSettled` | `packages/identity/src/authenticated-http.ts:304-460` | in every reachable state where no progress is possible, each caller is answered or interrupted, nothing is pending, every deferred is completed and all permits are back |
| `CardResolution.RunsComeToRest` | `packages/identity/src/authenticated-http.ts:304-347` | a measure on whole states: every run without new calls, however interleaved, is no longer than the work there is |
| `CardResolution.WaiterIsAnswered` | `packages/identity/src/authenticated-http.ts:304-347` | from every state that satisfies the invariant the leader's own steps answer each waiter once the Registry answers |
| `BoundedCaches.BoundedCache.Get` | `packages/identity/src/bounded-cache.ts:33-40` | answers the stored value and makes the key the most recent |
| `BoundedCaches.BoundedCache.Set` | `packages/identity/src/bounded-cache.ts:41-49` | stores, then drops the oldest entry when over capacity |
| `BoundedCaches.SetThenFind` | `packages/identity/src/bounded-cache.ts:41-49` | after a set only the oldest key of a full cache is forgotten, every other answer stays |
| `BoundedCaches.HoldsMostRecentlyUsed` | `packages/identity/src/bounded-cache.ts:25-53` | after any trace the cache holds exactly the `capacity` most recently used keys, in order |
| `BoundedCaches.HoldsLastValues` | `packages/identity/src/bounded-cache.ts:25-53` | every answer is the value last stored under that key |
| `BoundedCaches.StoredValueStays` | `packages/identity/src/bounded-cache.ts:25-53` | a stored value is found until replaced, while fewer than `capacity` other keys come up after it |
| `BoundedCaches.StackProperty` | `packages/identity/src/bounded-cache.ts:25-53` | on one trace a smaller cache's entries are a subsequence of a larger one's |
| `BoundedCaches.SmallerCacheIsContained` | `packages/identity/src/bounded-cache.ts:25-53` | a hit in the smaller cache is the same hit in the larger one |
| `BoundedCaches.MemoisesInAnyOrder` | `packages/identity/src/agent-key.ts:301-322` | with overlapping derivations, reads and stores in any order, each cached value is the derived one |
| `BoundedCaches.CachedPerPublicKey` | `packages/identity/src/agent-key.ts:301-322` | derivation through the cache equals direct derivation in every cache state; a failure is not kept |
| `NonceClaims.NonceMemory.Claim` | `packages/identity/src/authenticated-http.ts:471-496` | the loop over the old map gives the claim and exactly the unexpired nonces plus the claimed one |
| `NonceClaims.ReplayCaughtIff` | `packages/identity/src/authenticated-http.ts:471-496` | a repeated nonce is refused if and only if no claim in between was verified after the recorded expiry |
| `NonceClaims.ReplayAcceptedOutOfClockOrder` | `packages/identity/src/authenticated-http.ts:169-180` | a concrete run in which claims out of verification order let one request in twice |
| `NonceClaims.NeverClaimedTwice` | `packages/identity/src/authenticated-http.ts:471-496` | in clock order a claimed nonce is not claimed again up to its expiry |
| `NonceClaims.SignedRequestAcceptedOnce` | `packages/identity/src/http-signature.ts:377-384` | one signed request, sent any number of times, is accepted at most once |
| `NonceClaims.LiveSetIsBounded` | `packages/identity/src/authenticated-http.ts:489-491` | the live set never exceeds its capacity |
| `NonceClaims.ExpiriesAreNear` | `packages/identity/src/http-signature.ts:377-384` | every retained expiry lies within 305 seconds of the latest claim |
| `NonceClaims.QuietIntervalFreesCapacity` | `packages/identity/src/authenticated-http.ts:482-496` | a claim more than 305 seconds after the last one is neither full nor a replay |
| `NonceClaims.AdmitIff` | `packages/identity/src/authenticated-http.ts:169-191` | the outcome of every request from its times, the nonces held and the version: accepted, version mismatch, overloaded or failed authentication, each if and only if; and the nonces held then |
| `NonceClaims.AdmittedOnce` | `packages/identity/src/authenticated-http.ts:169-191` | over whole runs in clock order, a nonce once accepted, or refused for its version, fails authentication while it lives |
| `NonceClaims.VersionMismatchConsumesNonce` | `packages/identity/src/http-signature.ts:593-641` | a request refused for its version has used up its nonce |
| `RegistryTables.MintUnusedAgentId` | `packages/registry/src/storage.ts:272-288` | the retry loop returns the first unused of eight candidates, or none when all are used |
| `RegistryTables.SqlClaimEqualsMemoryClaim` | `packages/registry/src/storage.ts:423-456` | the SQL claim gives the in-memory claim's answer and leaves the same nonces |
| `RegistryTables.RegisterKeepsConsistent` | `packages/registry/src/storage.ts:508-606` | registration keeps key, name, AgentId, operation and nonce uniqueness without table constraints |
| `RegistryTables.RegistrationDecided` | `packages/registry/src/storage.ts:508-606` | a call without a recorded result is answered by the rows: key known, else name known, else one new row and card of the call's own data, the clock read and the first free id drawn; none when all drawn ids are taken |
| `RegistryHistories.RepliesAreDecided` | `packages/registry/src/storage.ts:508-606` | over every interleaving, from calls and replies alone: the first call of an operation is refused for a key or name an earlier reply gave away, and otherwise gets a card of its own data with an id nobody had |
| `RegistryTables.LookupIsUnambiguous` | `packages/registry/src/storage.ts:622-657` | a lookup finds the one card with the asked id or name, or no row has it; it never meets two |
| `RegistryHistories.LookupsAreUnambiguous` | `packages/registry/src/storage.ts:622-657` | so its ambiguity error occurs in no state of any interleaving |
| `RegistryHistories.RegisteredIsFound` | `packages/registry/src/storage.ts:508-657` | what a caller was told is registered is found with exactly that card, by id and by name, after any further transactions |
| `RegistryHistories.ClaimsAnswerAsInMemory` | `packages/registry/src/storage.ts:423-456` | in every reachable state each committed claim has the answer of the in-memory map over the claims in commit order |
| `RegistryHistories.NonceCommittedOnce` | `packages/registry/src/storage.ts:423-456` | across interleaved transactions a claimed nonce is refused as replayed until it expires, when clocks follow commit order |
| `RegistryTables.RecordedResultDecides` | `packages/registry/src/storage.ts:571-606` | a recorded operation answers equal bytes with its result, other bytes with a conflict, and writes nothing |
| `RegistryTables.FirstCallRecordsItsResult` | `packages/registry/src/storage.ts:556-606` | a deciding call records exactly what it returns |
| `RegistryTables.RecordedResultIsPermanent` | `packages/registry/src/storage.ts:468-483` | no transaction changes or removes a recorded result |
| `RegistryTables.Database.RegisterTransaction` | `packages/registry/src/storage.ts:571-606` | the statements in order compute the registration of the specification |
| `RegistryTables.Database.ClaimNonceTransaction` | `packages/registry/src/storage.ts:423-456` | the statements in order compute the claim of the specification |
| `ByteStrings.SameBytesIsEquality` | `packages/registry/src/storage.ts:146-157` | the two-sided comparison is equality of byte strings |
| `RegistryTransactions.Serialisable` | `packages/registry/src/storage.ts:571-606` | every interleaving, with aborts and late commits, has the tables and replies of its commit order |
| `RegistryTransactions.LockExcludes` | `packages/registry/src/storage.ts:571-580` | at most one transaction is past the row lock |
| `RegistryTransactions.ReachableTablesAreConsistent` | `packages/registry/src/storage.ts:508-606` | all uniqueness holds in every reachable state |
| `RegistryTransactions.RepeatsAreErasable` | `packages/registry/src/storage.ts:571-606` | deleting repeated calls from a history changes neither the tables nor any other reply |
| `RegistryTransactions.FirstReplyIsPermanent` | `packages/registry/src/storage.ts:468-606` | later calls with equal bytes get exactly the first reply, other bytes a conflict |
| `RegistryTransactions.RunsKeepAgents` | `packages/registry/src/storage.ts:541-550` | no run removes or changes an agent's row |
| `RegistryProgress.EveryTransactionCanFinish` | `packages/registry/src/storage.ts:571-606` | no transaction is stuck: from every reachable state, steps of the lock's holder and its own bring it to the answer it commits or to the error of eight used ids |
| `RegistryProgress.EveryOutcomeHasReason` | `packages/registry/src/storage.ts:272-288` | over every run: answered only by a commit in time, `Unavailable` only by an abort or a late commit, an internal error only when eight ids were drawn and all in use |
| `RegistryProgress.OutcomesAreFinal` | `packages/registry/src/storage.ts:571-606` | no step changes what a caller was told, and the history only grows |
| `RegistryListing.CollectFacts` | `packages/registry/src/storage.ts:659-703` | following pages while agents are inserted lists ascending, complete and genuine rows |
| `RegistryListing.FollowingPagesListsEveryAgent` | `packages/registry/src/storage.ts:659-703` | every agent of the first page's table is listed exactly once, in strictly ascending byte order |
| `RegistryListing.PagesDuringTransactions` | `packages/registry/src/storage.ts:659-703` | the same over the interleaved register transactions themselves |
| `RegistryListing.QuietPagesAreTheSortedTable` | `packages/registry/src/storage.ts:659-703` | without insertions the pages end and are exactly the sorted table |
| `Utf8.HasWellFormedUnicode` | `packages/identity/src/canonical-json.ts:48-66` | the index loop accepts exactly the text whose surrogates are paired |
| `Utf8.DecodeOfEncode` | `packages/identity/src/canonical-json.ts:477-489` | UTF-8 decoding undoes encoding for text with an ASCII start |
| `Json.ParseOfPrint` | `packages/identity/src/canonical-json.ts:422-429` | `JSON.parse` of printed data is the data, numbers as they read back |
| `CanonicalJson.ParseOfEncode` | `packages/identity/src/canonical-json.ts:477-549` | parsing an encoding gives the data in canonical order, numbers as they read back |
| `CanonicalJson.ParseOfEncodeIff` | `packages/identity/src/canonical-json.ts:477-549` | it is the very data that was encoded if and only if negative zero is nowhere in it, at any depth |
| `CanonicalJson.NegativeZeroIsLost` | `packages/identity/src/canonical-json.ts:477-549` | a concrete format and value: a list of negative zero is encoded as, and read back as, a list of zero |
| `CanonicalJson.EncodeOfParse` | `packages/identity/src/canonical-json.ts:477-503` | accepted bytes are the encoding of the value returned |
| `CanonicalJson.OneAcceptedSpelling` | `packages/identity/src/canonical-json.ts:477-503` | two accepted byte strings with the same data are equal |
| `CanonicalJson.NoLeadingMarkOrSpace` | `packages/identity/src/canonical-json.ts:477-503` | no byte-order mark and no white space before the value |
| `CanonicalJson.AcceptedIsValid` | `packages/identity/src/canonical-json.ts:490-494` | accepted values are valid, within depth 16 and repeat no key |
| `CanonicalJson.AcceptedExactlyEncodings` | `packages/identity/src/canonical-json.ts:477-549` | the accepted byte strings are exactly the encodings of valid data |
| `CanonicalJson.ValidIff` | `packages/identity/src/canonical-json.ts:360-406` | valid data is nested at most 16 deep and has finite numbers and well-formed text throughout |
| `JsonSpellings.CanonicalIsShortest` | `packages/identity/src/canonical-json.ts:422-451` | of all bytes that read as the same number-free data, in any spelling, spacing and order, the canonical encoding is the shortest |
| `JsonSpellings.CanonicalStringIff` | `packages/identity/src/canonical-json.ts:422-451` | of the spellings of a string the canonical one is the one that is shortest and has no upper-case hexadecimal digit |
| `JsonSpellings.PlainTextStandsForItself` | `packages/identity/src/canonical-json.ts:422-451` | a solidus and every unit from 32 on but the quote and the backslash are not escaped |
| `CanonicalJson.MemberOrderIsLost` | `packages/identity/src/canonical-json.ts:436-451` | the order of members never reaches the bytes |
| `JsonSnapshots.JsonSnapshot.VisitJsonValue` | `packages/identity/src/canonical-json.ts:389-406` | the walk returns the unfolding and restores the ancestor set |
| `JsonSnapshots.JsonSnapshot.SnapshotJsonContainer` | `packages/identity/src/canonical-json.ts:360-387` | depth, ancestor and proxy checks change no answer; ancestors restored on every exit |
| `JsonSnapshots.JsonSnapshot.SnapshotJsonArray` | `packages/identity/src/canonical-json.ts:282-318` | the index loop over slots equals the recursive unfolding |
| `JsonSnapshots.JsonSnapshot.SnapshotJsonRecord` | `packages/identity/src/canonical-json.ts:320-358` | the key loop over properties equals the recursive unfolding |
| `JsonSnapshots.JsonSnapshot.Snapshot` | `packages/identity/src/canonical-json.ts:408-420` | a whole snapshot is the unfolding from depth 0 |
| `JsonSnapshots.UnfoldIffTree` | `packages/identity/src/canonical-json.ts:360-406` | the snapshot succeeds exactly when the graph unfolds to a valid tree of depth at most 16, and is that tree |
| `JsonSnapshots.CycleNeverUnfolds` | `packages/identity/src/canonical-json.ts:370-378` | an object on a cycle unfolds at no depth, so the ancestor check never decides |
| `JsonSnapshots.EncodedGraphParses` | `packages/identity/src/canonical-json.ts:534-549` | encoding any unfolding graph and parsing gives its tree |
| `Identifiers.DecodeOfEncodeBase64Url` | `packages/identity/src/identifiers.ts:10-18` | base64url decoding undoes encoding for every byte string |
| `Identifiers.CanonicalIffEncoding` | `packages/identity/src/identifiers.ts:10-18` | a text decodes canonically to b if and only if it is the encoding of b |
| `Identifiers.AnyDecoderGivesTheSame` | `packages/identity/src/identifiers.ts:13-17` | decode-and-compare accepts the same text with any decoder that undoes the encoder |
| `Identifiers.FinalCharacterClass` | `packages/identity/src/identifiers.ts:49-56` | the generated final class is the characters with zero padding bits |
| `Identifiers.PatternIsCanonicality` | `packages/identity/src/identifiers.ts:47-70` | for every byte length the pattern accepts exactly the canonical texts of that length |
| `Identifiers.IdentifierIffEncoded` | `packages/identity/src/identifiers.ts:42-70` | an identifier is the prefix and the encoding of exactly one byte string |
| `Lexicographic.LessIff` | `scripts/release/content-hash.ts:291-296` | the order of keys, ids and lines: a proper prefix comes first, and else the first difference decides |
| `Identifiers.CompareAgentIds` | `packages/identity/src/identifiers.ts:116-135` | the sign of the loop's result is the order of the decoded bytes |
| `Identifiers.AgentIdOrderIsTotal` | `packages/identity/src/identifiers.ts:116-135` | on accepted AgentIds the order is strict, total and transitive |
| `JsonSizes.EncodedLengths` | `packages/identity/src/sealed-body.ts:141-142` | `JSON.stringify` and the canonical encoding of plain data both have the summed length |
| `SealedSizes.SampleSizes` | `packages/identity/src/sealed-body.ts:124-164` | the three fixed sizes computed from sample bodies |
| `SealedSizes.SealedLength` | `packages/identity/src/sealed-body.ts:531-546` | the size formula is the length of the canonical General JWE for every plaintext and 1 to 128 recipients |
| `SealedSizes.SealedByteLengthIff` | `packages/identity/src/sealed-body.ts:562-579` | on all real numbers the rounded function is the unrounded one: none for a bad count, a length that is no whole number or is negative, and a sum above 2^53 - 1 |
| `SealedSizes.SealedByteLengthIsExact` | `packages/identity/src/sealed-body.ts:562-579` | under any rounding that keeps order and integers up to 2^53 the result is the exact length, and none exactly above 2^53 - 1 |
| `SealedSizes.MaximumPlaintextIsGreatest` | `packages/identity/src/sealed-body.ts:587-596` | a sealed body fits a message body if and only if its plaintext is within the reported maximum |
| `SignedMessageBound.MessageLength` | `packages/identity/src/signed-message.ts:397-436` | the encoded size through both base64url layers |
| `SignedMessageBound.SizeCheckIff` | `packages/identity/src/signed-message.ts:397-436` | the size check passes for a signed message exactly while version, recipients and body are together within the maximal payload |
| `SignedMessageBound.DecodedSizeCheckIff` | `packages/identity/src/signed-message.ts:230-235` | decoding any payload and header bytes passes it exactly while their two lengths are together within the maximal ones |
| `SignedMessageBound.BoundIsTight` | `packages/identity/src/signed-message.ts:61-92` | no message of a version no longer than this one exceeds the bound, and only the maximal ones reach it |
| `SignedMessageBound.SealedPlaintextFits` | `packages/identity/src/sealed-body.ts:587-596` | a sealed body of a plaintext within the maximum always signs within the bound |
| `JsonSchemas.LookupOfSorted` | `packages/identity/src/canonical-json.ts:551-556` | what a schema reads by key does not depend on canonical member order |
| `SealedSchemas.HeaderHasOneSpelling` | `packages/identity/src/sealed-body.ts:333-385` | a header decodes if and only if it is the one text a sealer writes for admitted members |
| `SealedSchemas.SealedBodyReadsBack` | `packages/identity/src/sealed-body.ts:73-86` | parsing and decoding sealed bytes gives every member that was sealed |
| `SealedBodies.RecipientsAreCanonical` | `packages/identity/src/signed-message.ts:102-116` | the loop accepts exactly the strictly ascending lists |
| `SealedBodies.SealerAndSignerAgree` | `packages/identity/src/sealed-body.ts:223-243` | sealer and signer, sorting independently, name the recipients in one order |
| `SealedBodies.SaltedPlaintext` | `packages/identity/src/sealed-body.ts:292-300` | the buffer is the salt followed by the plaintext |
| `SealedBodies.Seal` | `packages/identity/src/sealed-body.ts:285-321` | the buffer, the commitment and the recipient loop compute the specified bytes, or none when a platform operation fails |
| `SealedBodies.SealingSucceedsIff` | `packages/identity/src/sealed-body.ts:223-321` | sealing fails exactly for a bad count, a repeated recipient, an unusable key or a failing platform operation |
| `SealedBodies.AssumptionsCanBeMet` | `packages/identity/src/sealed-body.ts:166-182` | what is assumed of a suite and an opening key is met by a suite, for every key |
| `SealedBodies.OpenSuiteOpens` | `packages/identity/src/sealed-body.ts:483-529` | so for every valid input, listing and recipient there is a suite under which the next result applies |
| `SealedBodies.EveryRecipientOpens` | `packages/identity/src/sealed-body.ts:483-529` | every sealed recipient opens to the plaintext, for any listing of the recipients by the signer |
| `SealedBodies.OthersDoNotOpen` | `packages/identity/src/sealed-body.ts:395-440` | an unnamed agent, or a key that is not the card's, never opens |
| `SealedBodies.OpenersAgree` | `packages/identity/src/sealed-body.ts:166-182` | two openers of one body, whoever made it, get equal plaintexts or exhibit a hash collision |
| `SealedReading.BodyHasOneSpelling` | `packages/identity/src/sealed-body.ts:73-86` | bytes read as a body if and only if they are the canonical encoding of a body with admitted members |
| `SealedReading.OpensIff` | `packages/identity/src/sealed-body.ts:395-529` | a message opens to a plaintext if and only if key, body, header, sender, MessageId, entry count, placement and position fit and the agent's entry yields it behind the salt under the commitment |
| `SealedReading.SigningIff` | `packages/identity/src/signed-message.ts:314-330` | signing takes exactly 1 to 128 different recipients, in any order, and sorts them by decoded id |
| `SealedBodies.OpensInOneMessageOnly` | `packages/identity/src/sealed-body.ts:502-507` | a body opens under one sender and one MessageId only |
| `KeyEncoding.IsLessThanLittleEndian` | `packages/identity/src/agent-key.ts:58-76` | the byte loop is numeric less-than on equal lengths |
| `KeyEncoding.HasCanonicalPointEncoding` | `packages/identity/src/agent-key.ts:78-89` | the masked copy decides y below the field order |
| `KeyEncoding.EncodesSmallOrderPoint` | `packages/identity/src/agent-key.ts:91-105` | the masked table search |
| `KeyEncoding.HasAcceptedPublicKeyEncoding` | `packages/identity/src/agent-key.ts:107-108` | the composed check of a public key |
| `KeyEncoding.ModulusValue` | `packages/identity/src/agent-key.ts:29-33` | the modulus bytes spell 2^255 - 19 |
| `KeyEncoding.ScalarOrderValue` | `packages/identity/src/agent-key.ts:35-39` | the order bytes spell the group order |
| `KeyEncoding.InTableIff` | `packages/identity/src/agent-key.ts:44-56` | the table by its numbers |
| `KeyEncoding.LastEntriesAreUnreachable` | `packages/identity/src/agent-key.ts:54-55` | the two respelled table entries never match after the canonical check |
| `KeyEncoding.AcceptedIff` | `packages/identity/src/agent-key.ts:107-108` | an accepted key is 32 bytes with y below the order and none of 0, 1, -1 and the two of order eight |
| `KeyEncoding.OrderEightEquation` | `packages/identity/src/agent-key.ts:48-53` | the two order-eight entries solve the doubling equation and negate each other |
| `KeyEncoding.OneEncodingPerElement` | `packages/identity/src/agent-key.ts:78-89` | each field element and sign has one accepted spelling |
| `KeyEncoding.EveryElementIsEncoded` | `packages/identity/src/agent-key.ts:78-89` | and at least one |
| `KeyEncoding.KeyTextAcceptedIff` | `packages/identity/src/agent-key.ts:110-115` | a key text is accepted exactly when it is the base64url of 32 bytes with an accepted y |
| `KeyEncoding.OneKeyText` | `packages/identity/src/agent-key.ts:110-115` | the key text is as unique as the key |
| `KeyEncoding.HasCanonicalEd25519SignatureEncoding` | `packages/identity/src/agent-key.ts:129-142` | the composed check of a signature |
| `KeyEncoding.SignatureAcceptedIff` | `packages/identity/src/agent-key.ts:129-142` | accepted exactly when 64 bytes, y(R) below the field order and S below the group order |
| `KeyEncoding.SignatureHasOneSpelling` | `packages/identity/src/agent-key.ts:117-142` | one accepted spelling for each y, sign bit and scalar modulo the group order |
| `KeyEncoding.SignatureSpellingsIff` | `packages/identity/src/agent-key.ts:117-142` | two accepted signatures of one curve point and scalar are the same bytes except exactly when x is 0 and the sign bits differ |
| `KeyEncoding.SignatureSpelledTwice` | `packages/identity/src/agent-key.ts:117-142` | the failing family: for y = 1 and y = -1 and every scalar, two different accepted signatures of one point |
| `KeyEncoding.ZeroXIff` | `packages/identity/src/agent-key.ts:117-142` | the field order being prime, x is 0 exactly at y = 1 and y = -1 |
| `KeyEncoding.AcceptedKeyIsSpelledOnce` | `packages/identity/src/agent-key.ts:107-108` | public keys have no such pair: an accepted key is the only accepted spelling of its point |
| `SelectPackages.FirstOutOfOrder` | `scripts/release/select-packages.ts:167-186` | reports exactly when some production dependency is listed after its dependent, and then the first such package with its first such dependency |
| `SelectPackages.Workspace.SelectAll` | `scripts/release/select-packages.ts:80-106` | the loop's writes and selection, also when packing or npm fails part-way |
| `SelectPackages.SelectedIffDue` | `scripts/release/select-packages.ts:10-19` | for a fresh version the run selects exactly the packages that have changed and those pinning an earlier one that is due, any number of pins away |
| `SelectPackages.EditedIsSelected` | `scripts/release/select-packages.ts:10-13` | a package whose files differ from what npm recorded for its version, or of which nothing is recorded, is selected |
| `SelectPackages.ReportsTheDue` | `scripts/release/select-packages.ts:80-106` | the directories reported are exactly the due packages in list order |
| `SelectPackages.HashSettlesIff` | `scripts/release/select-packages.ts:86-104` | a hash computed at a package's turn stays right exactly while no pinned sibling is selected later |
| `SelectPackages.WrittenHashIsFinalIff` | `scripts/release/select-packages.ts:10-19` | a written hash is the hash in the final workspace if and only if the package pins nothing at or after it that is due and takes a new version, told from npm and the manifests before the run |
| `SelectPackages.PrecedingPinsSettle` | `scripts/release/select-packages.ts:14-19` | pins that precede their dependents always settle, whatever npm recorded |
| `SelectPackages.UnsettledWhenNothingRecorded` | `scripts/release/select-packages.ts:167-186` | a package before a sibling it pins, or pinning itself, keeps a stale hash |
| `SelectPackages.AlwaysRightIff` | `scripts/release/select-packages.ts:10-19` | a list is right for every npm record if and only if pins precede; the same lists make a second run idle and a failed run repeatable |
| `SelectPackages.OrderCheckIsNotEnough` | `scripts/release/select-packages.ts:167-186` | a concrete list that passes the order check and ends with a stale hash, a second run that is not idle and a rerun that differs |
| `SelectPackages.OrderedProductionPinsPrecede` | `scripts/release/select-packages.ts:167-186` | what the order check does give |
| `SelectPackages.DependentsAreSelected` | `scripts/release/select-packages.ts:14-19` | every package pinning an earlier selected sibling is selected, for a fresh version |
| `SelectPackages.SecondRunSelectsNothingIff` | `scripts/release/select-packages.ts:80-106` | after publishing, a second run selects nothing if and only if no package pins one at or after it that is due and takes a new version |
| `SelectPackages.RerunReachesTheSameIff` | `scripts/release/select-packages.ts:80-106` | a rerun after a failure at any package reaches the uninterrupted workspace if and only if that holds among the packages before the failure |
| `HashedManifests.ComputeDigest` | `scripts/release/content-hash.ts:196-202` | the running digest is over the sorted lines |
| `HashedManifests.DigestIgnoresOrder` | `scripts/release/content-hash.ts:196-202` | the digest does not depend on the order lines arrive in |
| `HashedManifests.ReleaseFieldsAreNotHashed` | `scripts/release/content-hash.ts:53-57` | writing version and hash into a manifest leaves its hash |
| `HashedManifests.SiblingPinsAreNotHashed` | `scripts/release/content-hash.ts:268-275` | without siblings, pinning one elsewhere leaves the hash |
| `HashedManifests.ManifestOrderIsNotHashed` | `scripts/release/content-hash.ts:277-289` | member order leaves the hash |
| `HashedManifests.HashedTextIff` | `scripts/release/content-hash.ts:245-266` | the hashed text is equal exactly when the kept data is |
| `HashedManifests.HashedTextFixesMembers` | `scripts/release/content-hash.ts:245-266` | equal hashed text means equal data at every hashed key, dependency pins included |
| `HashedLines.DigestFixesLines` | `scripts/release/content-hash.ts:196-202` | equal digests are of the same lines, unless the digested bytes collide |
| `HashedLines.LineFixesFile` | `scripts/release/content-hash.ts:178-190` | a line fixes its label, its executable bit and the digest of the hashed bytes |
| `HashedLines.ManifestBytesFixData` | `scripts/release/content-hash.ts:245-266` | equal hashed bytes of two manifests mean the same kept data |
| `HashedLines.ContentHashIff` | `scripts/release/content-hash.ts:89-95` | two packages have one content hash if and only if they have the same paths, executable bits and digests of hashed bytes, however listed |
| `HostCode.HostCodeHash` | `scripts/release/host-code-hash.ts:76-100` | the worklist terminates on cyclic imports; its hash is the digest of every enumeration of the reachable modules |
| `HostCode.LabelIsInjective` | `scripts/release/host-code-hash.ts:89-93` | a label names one file of one scoped package |
| `HostCode.HashIgnoresVisitingOrder` | `scripts/release/host-code-hash.ts:80-99` | the hash does not depend on listing or visiting order |
| `HostCode.SameCodeSameHash` | `scripts/release/host-code-hash.ts:139-156` | equal reachable modules give equal hashes, whatever else the packages hold |
| `HostCode.SameHashSameCode` | `scripts/release/host-code-hash.ts:12-20` | and the converse: one hash means the same reachable modules, each with the same executable bit and digest of hashed bytes, unless the digested lines collide |
| `HostCode.SameHashSameBytes` | `scripts/release/host-code-hash.ts:76-100` | so, without a collision, every reachable file that is no manifest is byte for byte the same, and of a manifest what is hashed is |
| `HostCode.TargetIff` | `scripts/release/host-code-hash.ts:139-156` | a script imports exactly the existing modules its specifiers resolve to |
| `HostCode.PackageResolves` | `scripts/release/host-code-hash.ts:158-183` | a package name resolves to its export at `.`, a path under it to the export at that path, and a package that is not packed to nothing |
| `HostCode.SamePackagesSameHash` | `scripts/release/host-code-hash.ts:12-20` | with the same packed roots, versions, recorded hashes, sibling entries and member order never change the hash |

## Left out

- HTTP routing, header framing and body reading, structured-header parsing and the signature library:
  `verifyRequest` appears only through the order of its last steps, `hasAcceptableTimes` and the claim.
- `exactParameters`, `hasExactSequence` and `readCoveredFields`: list comparisons with no consequence across
  functions.
- The recovery of a lookup that dies is one outcome, `LookupFails`; fairness of the runtime's scheduler is
  not modelled, only that the leader's own next step is always enabled.
- Real cryptography, key import and erasure, and JOSE header checks. A digest that fails while
  opening is one more error of opening.
- Tamper checks on JavaScript intrinsics, Proxy traps and detached typed arrays; a Proxy is only an object
  that is refused.
- The enumeration order of integer-like keys, which canonical sorting removes.
- IEEE number printing: numbers are opaque, and negative zero is the one value that does not read back.
- JsonSpellings.CanonicalIsShortest: number-free data, because a number has shorter spellings than the one JavaScript
  writes.
- SQL text, migrations, readiness and the decoding of stored result and card bytes; a stored result is the
  result itself. A page read that fails is not modelled.
- Effect Schema failures are one failure each; brands and annotations are not modelled.
- `hasSignedMessageState` and the WeakMap branding of parsed messages: a signed message is the members that
  opening reads.
- SealedSizes.SealedByteLengthIsExact: inputs that are not numbers or not finite are not represented.
- SignedMessageBound.SizeCheckIff: the header is the one signing writes and versions are plain ASCII text;
  `DecodedSizeCheckIff` is the check for any other header or payload.
- SelectPackages.Workspace.SelectAll: a package and its directory are one thing, so two directories with one package
  name are not represented; npm's answers do not change during a run.
- SelectPackages.WrittenHashIsFinalIff: for lists that name no directory twice, as are the other statements about pins;
  only the order check and the loop itself are stated for lists that do.
- HashedManifests.HashedTextIff: a lone surrogate in a manifest, which `JSON.stringify` escapes, is printed as it is;
  a manifest or dependency section that is a JSON array is hashed as its raw bytes or value, not as
  an object with index keys.
- HostCode.HostCodeHash: paths that leave a package root, directories as import targets and unreadable or missing
  package.json files, on which the source throws, are not represented; the import scanner and path
  normalisation are parameters.
- `siblingClosure`, the same worklist over package names: the packed roots are given, so a sibling entry that
  adds a root is outside `SamePackagesSameHash`.
- The Router, the client store and conversation engine, the channel plugins and the repository's own checks.
