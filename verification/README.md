# Verified model of the certificate platform's core logic

A Dafny model of the parts of the platform whose correctness depends on the code itself: codecs,
canonical signing, token rotation, chain indexing, event polling, multi-region replication, and the
small state machines around them. Each module models one component and proves, for all inputs, runs
or interleavings, the properties that component exists for. `dafny verify dfyconfig.toml` checks
everything.

| files | component |
|---|---|
| `Radix`, `Base58` | positional numerals; the in-place Base58 encoder and decoder and the multibase wrappers |
| `JsonText`, `KeyedLists`, `CanonicalJson`, `CanonicalParse`, `Utf8` | the canonical JSON printer, with an independent reader of its output |
| `SignedMessage`, `Credential` | the signed message; issuing and verifying credentials over an ideal signature |
| `TokenFamily`, `TokenRotation` | refresh-token families: atomic calls, and rotations interleaved step by step under the Redis lock |
| `ChainIndexer`, `ChainReplay`, `ChainEvents`, `ChainConverge`, `ChainStranded` | the block indexer with re-org rollback |
| `QueryLimits` | GraphQL depth and complexity through fragments |
| `Poller` | the Soroban event poller and its database, with crashes |
| `RegionReplicator` | timestamped values and tombstones across failing regions |
| `Totp` | Base32 secrets and one-time passwords |
| `Strings`, `Did`, `DidGrammar` | parsing and normalising decentralised identifiers |
| `ReadRouting` | read-your-writes routing over a lagging replica, and its circuit breaker |
| `RateLimit` | the fixed-window limiter |
| `PubSub` | subscription streams and the bounded socket queue |
| `Outcomes` | Option and Result |

Objects whose methods change their fields are classes; each method states its whole new state as a
function of the old one, and the properties are lemmas about those functions. What such a function
computes is in turn fixed by laws that do not mention it: relations over positions, digits, code
units, literal names and numbers (`ChainEvents.StoredExactly`, `PubSub.FlushIsNewest`,
`Totp.CodeExactly`, `DidGrammar.AcceptedExactly` and others whose names end in `Exactly`).

## Results where the code and its promise differ

The model follows the code. Each of these is proved, with the exact condition wherever a property fails.

- Base58: encoding starts from one zero digit, so an input without a non-zero byte gains a
  character; both round trips hold exactly if there is a non-zero byte, or a character other than
  `1` (`Base58.RoundTripBytes`, `Base58.RoundTripText`).
- Credentials: a certificate without a token id is signed with a field that is `undefined`, which
  JSON does not carry; such a credential verifies where it was issued but never after transport
  (`Credential.ArrivedVerifiesExactlyWithTokenId`).
- Indexer: a rolled-back block that is delivered again is reported as processed but does not become
  live (`ChainReplay.OnlyNewHashesExtend`), then or ever (`ChainStranded.NeverLiveAgain`). A block that
  is refused for a re-org rolls back its own parent too, at whatever depth, exactly if the parent has a
  row (`ChainStranded.RefusedTakesParent`); after that it can be live only as the first block of an
  emptied chain (`ChainStranded.RefusedIsStranded`), and where its parent links to what is left it can
  come to be live on top of it exactly if neither of the two had a row (`ChainStranded.ComesBackExactly`).
  Feeding the canonical chain converges exactly if none of its blocks was rolled back
  (`ChainConverge.ConvergesExactly`), so one canonical block delivered while its parent has a row but is
  not the tip, such as a plain sibling of the tip, prevents it for good
  (`ChainConverge.EarlyDeliveryPreventsConvergence`).
- GraphQL: an operation written before a fragment it spreads is measured without that fragment. It is
  measured as over all fragments of its document exactly if the walk meets no later fragment that
  costs anything, for its cost, or that leads below the depth measured, for its depth
  (`QueryLimits.MeasuredInFullExactly`); `QueryLimits.LateStudentsEscape` is an input beyond both
  limits that neither rule reports.
- Poller: no second page is requested, so a range with more events than the batch size loses the
  rest for good; over any run the store is complete exactly if no range that was passed had more
  (`Poller.CompleteExactlyIfRangesFit`, `Poller.FirstPollCanLose`).
- Replicator: the comment on `get` calls tombstones "deletes newer than the value"; the code misses
  at any tombstone met, in order of preference, before a newer value
  (`RegionReplicator.ReadMissesExactly`); a delete and a later set that the active region refuses reach
  that (`RegionReplicator.NewerValueIsHidden`).
- Identifiers: the second parse of a normalised identifier fails exactly if it has grown past 256
  characters, as `public` becomes `mainnet` (`Did.NormalisedParsesAgain`); for ASCII its growth is exactly
  one for that name less the white space dropped inside, so stability can be read off the text
  (`Did.StableExactly`).
- Limiter: an interval of one window can hold two quotas less one, and that is reached
  (`RateLimit.AtMostTwoWindows`, `RateLimit.BoundIsReached`); it holds more than one only if a window ends
  inside it and another opens there (`RateLimit.OverQuotaOnlyAcrossWindows`).
- Streams: messages are never lost, but a call of `next()` that another overtakes is never answered
  (`PubSub.NothingLost`, `PubSub.OvertakenIsNeverAnswered`).
- Replica breaker: the probe after a failed check matters only if a whole cooldown passes between two
  clock readings of one check (`ReadRouting.QuickChecksIgnoreProbes`); where it always does, as with a
  cooldown of zero, a replica that answers stays in use however far it lags
  (`ReadRouting.SlowChecksNeverOpen`).
- The comment on the serializer says strings are emitted verbatim; the code quotes and escapes them,
  and so does the model.

## Model

| member | source | states |
|---|---|---|
| `Base58.CarryDigits` | backend/src/certificates/Ed25519Signature2020.ts:35-41 | the encoder's inner loop multiplies the digits by 256 and adds a byte in base 58, with every carry below 256 and no 32-bit overflow |
| `Base58.MultiplyBytes` | backend/src/certificates/Ed25519Signature2020.ts:61-74 | the decoder's inner loop multiplies the bytes in place by 58 and adds a digit, and never writes past a buffer of one byte per character |
| `Base58.Base58Encode` | backend/src/certificates/Ed25519Signature2020.ts:28-52 | prints one `1` per leading zero byte and then the base-58 digits of the number the bytes denote (one digit if it is zero) |
| `Base58.Base58Decode` | backend/src/certificates/Ed25519Signature2020.ts:54-82 | gives back as many zero bytes as leading `1`s and then the base-256 digits of the number, and fails exactly on a character outside the alphabet |
| `Base58.RoundTripBytes` | backend/src/certificates/Ed25519Signature2020.ts:28-82 | decoding an encoding returns the bytes if and only if one of them is not zero; otherwise one zero byte more |
| `Base58.RoundTripText` | backend/src/certificates/Ed25519Signature2020.ts:28-82 | encoding a decoding returns the text if and only if one of its characters is not `1` |
| `Base58.ToMultibase` | backend/src/certificates/Ed25519Signature2020.ts:85-87 | the multibase text that issuing puts into a proof |
| `Base58.FromMultibase` | backend/src/certificates/Ed25519Signature2020.ts:85-95 | accepts exactly the base58btc prefix and decodes the rest |
| `Base58.MultibaseRoundTrip` | backend/src/certificates/Ed25519Signature2020.ts:85-95 | reading the multibase text of any bytes returns them if and only if one of them is not zero |
| `Base58.EncodingIsNumeral` | backend/src/certificates/Ed25519Signature2020.ts:28-52 | the characters of an encoding are base-58 digits of the very number the bytes denote, after as many leading `1`s as there are leading zero bytes |
| `Base58.DecodeFailsExactly` | backend/src/certificates/Ed25519Signature2020.ts:54-95 | decoding fails exactly on a character outside the alphabet, and with the prefix exactly if that is missing too |
| `Base58.BitcoinSymbolsExactly` | backend/src/certificates/Ed25519Signature2020.ts:26 | the alphabet holds every digit and letter but `0`, `O`, `I` and `l` |
| `Radix.MulAddDigits` | backend/src/certificates/Ed25519Signature2020.ts:34-46 | schoolbook multiply-and-add on the digits of n gives the digits of n * m + c in any base: no carry is lost |
| `Radix.WordOf` | backend/src/certificates/Ed25519Signature2020.ts:28-52 | a digit string is determined by its leading zeros and its value |
| `Radix.WordInverse` | backend/src/certificates/Ed25519Signature2020.ts:54-82 | and every positive value with any number of leading zeros is printed and read back |
| `JsonText.ReadQuoted` | backend/src/certificates/Ed25519Signature2020.ts:105-108 | a string literal, escaped as section 7 of RFC 8259 asks, reads back to the string whatever follows it |
| `JsonText.EscapesAreShortest` | backend/src/certificates/Ed25519Signature2020.ts:105-108 | which units are escaped, and how: two characters where section 7 of RFC 8259 has them, six for other control characters and lone surrogates, all others as they are |
| `JsonText.LessExactly` | backend/src/certificates/Ed25519Signature2020.ts:113 | keys are compared by code units: at the first difference the smaller unit, or the end of the text, comes first |
| `CanonicalJson.SerializeNormalize` | backend/src/certificates/Ed25519Signature2020.ts:105-116 | printing ignores key order: a value and its key-sorted normal form have the same text |
| `CanonicalJson.NormalizeDetermined` | backend/src/certificates/Ed25519Signature2020.ts:112-115 | the normal form depends only on the JSON value denoted, objects being finite maps |
| `CanonicalParse.ReadBack` | backend/src/certificates/Ed25519Signature2020.ts:105-116 | an independent reader of the canonical text returns the normal form of the value printed |
| `CanonicalParse.PrintedInOrder` | backend/src/certificates/Ed25519Signature2020.ts:112-115 | in what is printed the keys of every object, at any depth, ascend by code units; stated on what the reader returns, without the order the sort uses |
| `CanonicalParse.PrintedExample` | backend/src/certificates/Ed25519Signature2020.ts:105-116 | one document printed in full |
| `CanonicalParse.SameTextSameValue` | backend/src/certificates/Ed25519Signature2020.ts:105-116 | two values have the same canonical text if and only if they denote the same JSON value, for arbitrary nesting |
| `CanonicalParse.UndefinedItemIsLost` | backend/src/certificates/Ed25519Signature2020.ts:109-111 | the one exception: `undefined` inside an array leaves no text |
| `Utf8.RoundTrip` | backend/src/certificates/Ed25519Signature2020.ts:134 | UTF-8 encoding of text without lone surrogates can be undone |
| `Utf8.DecodesReplaced` | backend/src/certificates/Ed25519Signature2020.ts:134 | of any text the bytes carry exactly the text with each lone surrogate replaced by U+FFFD |
| `Utf8.UnitShape` | backend/src/certificates/Ed25519Signature2020.ts:134 | lengths and bytes as section 3 of RFC 3629 lays them out |
| `SignedMessage.BytesDetermineDocument` | backend/src/certificates/Ed25519Signature2020.ts:119-135 | two documents are signed with the same bytes if and only if they denote the same JSON value |
| `SignedMessage.SignedDocumentDenotes` | backend/src/certificates/Ed25519Signature2020.ts:119-135 | what is signed denotes every field of the credential, and under `proof` all of its fields but the value |
| `Credential.IssueCredential` | backend/src/certificates/VerifiableCredentialService.ts:64-136 | the issued document: subject with optional grade, proof options, and a proof value over the message with an empty one |
| `Credential.SubjectSays` | backend/src/certificates/VerifiableCredentialService.ts:92-107 | which datum of the certificate the issued subject denotes under each name, and that there is nothing else |
| `Credential.IssuedSays` | backend/src/certificates/VerifiableCredentialService.ts:108-135 | the same for the document, with a proof value that signs that very document |
| `Credential.IssuedDeterminesCertificate` | backend/src/certificates/VerifiableCredentialService.ts:90-135 | two issued documents denote the same only if their certificates agree in everything shown |
| `Credential.RebuiltMessage` | backend/src/certificates/VerifiableCredentialService.ts:113-135 | the message signed with an empty proof value is the one rebuilt from the finished credential |
| `Credential.AcceptedExactlyIfUnchanged` | backend/src/certificates/Ed25519Signature2020.ts:194-207 | a signature is accepted for exactly the documents that denote what was signed, the proof value aside |
| `Credential.AcceptedExactlyFieldByField` | backend/src/certificates/Ed25519Signature2020.ts:119-207 | so exactly if every field but the proof, and every field of the proof but its value, denotes what it did |
| `Credential.ValidExactly` | backend/src/certificates/VerifiableCredentialService.ts:143-205 | any document at all is valid exactly if it names the issuer, its proof names the suite and decodes to the signature of the document itself, and the certificate it names is not revoked |
| `Credential.ListedValueIsRead` | backend/src/certificates/Ed25519Signature2020.ts:201 | a proof value that stands in a list of one is read like the value itself |
| `Credential.IssuedVerifies` | backend/src/certificates/VerifiableCredentialService.ts:143-205 | every issued credential verifies, unless its certificate is revoked |
| `Credential.ArrivedVerifiesExactlyWithTokenId` | backend/src/certificates/VerifiableCredentialService.ts:102 | after a JSON round trip an issued credential verifies exactly if the certificate has a token id |
| `Credential.TransportIsClean` | backend/src/certificates/VerifiableCredentialService.ts:102 | what was sent as JSON holds no `undefined`, and sending it again changes nothing |
| `TokenFamily.TokenService.GenerateRefreshToken` | backend/src/auth/token.service.ts:48-84 | a login starts an unrevoked family with the new token as its current one |
| `TokenFamily.TokenService.VerifyRefreshToken` | backend/src/auth/token.service.ts:90-149 | accepts the current token and, for ten seconds, the previous one; any other token of an active family revokes it |
| `TokenFamily.TokenService.RotateRefreshToken` | backend/src/auth/token.service.ts:189-340 | exchanges the current token, repeats the last pair in grace, revokes otherwise |
| `TokenFamily.TokenService.RevokeFamily` | backend/src/auth/token.service.ts:342-385 | marks the family revoked, creating the record if there is none |
| `TokenFamily.VerifyAgreesWithRotate` | backend/src/auth/token.service.ts:108-141 | in every reachable state a token verifies exactly if rotating it would return a pair, and both refuse with the same effect |
| `TokenFamily.RotationReturnsCurrent` | backend/src/auth/token.service.ts:260-320 | the refresh token handed out is always the family's current one, in grace replies too |
| `TokenFamily.RepeatedRotation` | backend/src/auth/token.service.ts:296-320 | presenting a token again within the window returns the very same pair and changes nothing; later it revokes the family |
| `TokenFamily.LoginIsAccepted` | backend/src/auth/token.service.ts:48-147 | until its token is disturbed a login is accepted at every time, without effect; exchanging it returns a pair for its user, and the refresh token of that pair is current in turn |
| `TokenFamily.StaysCurrentExactly` | backend/src/auth/token.service.ts:48-385 | over every run a current token stays current exactly if no call is a login, revocation, expiry, exchange or stale token in its family |
| `TokenFamily.AnswersNameTheUser` | backend/src/auth/token.service.ts:120-320 | verifying returns the token presented; both tokens of a pair name the user, and the refresh token the family, of the token exchanged |
| `TokenFamily.StaleTokenKillsFamily` | backend/src/auth/token.service.ts:136-141 | a stale token revokes its family, and no token drawn so far is accepted in it after any later calls |
| `TokenFamily.DeadForever` | backend/src/auth/token.service.ts:48-84 | token ids that cannot be accepted stay so over every run, even if the family id logs in again |
| `TokenFamily.RevocationIsPermanent` | backend/src/auth/token.service.ts:342-385 | without a new login under the family id nothing is accepted after a revocation |
| `TokenFamily.RevokeRefusesAll` | backend/src/auth/token.service.ts:342-385 | a revocation leaves a revoked record, even where there was none, and every token of the family is refused from then on |
| `TokenRotation.InvAfter` | backend/src/auth/token.service.ts:151-340 | the invariant of locks, reads, writes and in-flight calls holds after every interleaving |
| `TokenRotation.NeverTwoSuccessors` | backend/src/auth/token.service.ts:189-340 | under every interleaving of any number of pods a token id is exchanged for at most one successor |
| `TokenRotation.SameAnswer` | backend/src/auth/token.service.ts:151-340 | all successful rotations of one token id return the same refresh token, whether they wrote, looked without the lock, or joined a call in flight |
| `TokenRotation.OnlyTheHolderWrites` | backend/src/auth/token.service.ts:189-403 | a stored family is changed or deleted only by the call that holds its lock, and one call at a time is past the lock |
| `TokenRotation.RevokedStays` | backend/src/auth/token.service.ts:260-403 | among rotations a family that was revoked, or deleted after three failed attempts to revoke it, stays so and none of its tokens is exchanged again |
| `TokenRotation.CurrentTokenIsExchanged` | backend/src/auth/token.service.ts:260-304 | a call that holds the lock and finds its token current ends, in every interleaving in which it does not die or lose its reply, with a pair for its user that carries the fresh token |
| `TokenRotation.StaleTokenEndsFamily` | backend/src/auth/token.service.ts:312-403 | one that finds its token stale is refused, and by then its family is revoked, or gone after three failed attempts, in every such interleaving |
| `TokenRotation.GraceIsAnswered` | backend/src/auth/token.service.ts:212-320 | a token in grace is answered with the family's current refresh token, with the lock or without it |
| `TokenRotation.RotationIsPossible` | backend/src/auth/token.service.ts:189-340 | in every state a new call with the current token of an unlocked family can run to a pair, even if it is refused the lock four times, and leaves the lock free and the new token current |
| `TokenRotation.FiveAttemptsToLock` | backend/src/auth/token.service.ts:221-235 | the lock is asked for five times before the call looks without it |
| `TokenRotation.ThreeAttemptsToRevoke` | backend/src/auth/token.service.ts:353-403 | a revocation is tried three times before the family is to be deleted |
| `ChainIndexer.ChainIndexerEngine.HandleIncomingBlock` | backend/src/blockchain/chain-indexer-engine.ts:62-121 | refuses unknown chains, rolls back from the block below a block that does not link, appends otherwise |
| `ChainIndexer.ChainIndexerEngine.GetLastProcessedBlock` | backend/src/blockchain/chain-indexer-engine.ts:249-266 | the highest block of the chain that is not rolled back |
| `ChainIndexer.ChainIndexerEngine.ExecuteRollback` | backend/src/blockchain/chain-indexer-engine.ts:274-323 | marks the live blocks at or above the fork and deletes the events they own |
| `ChainIndexer.ChainIndexerEngine.ProcessBlockWithEvents` | backend/src/blockchain/chain-indexer-engine.ts:129-171 | adds the block row if its hash is new, and its events |
| `ChainIndexer.ChainIndexerEngine.ProcessEventIdempotent` | backend/src/blockchain/chain-indexer-engine.ts:200-242 | an event that is stored already keeps its row |
| `ChainReplay.HighestIsTip` | backend/src/blockchain/chain-indexer-engine.ts:249-266 | the highest live block is the tip of the live chain |
| `ChainReplay.AppendKeeps` | backend/src/blockchain/chain-indexer-engine.ts:129-171 | appending keeps the live chains linked and the event tables equal to their replay |
| `ChainReplay.RollbackKeeps` | backend/src/blockchain/chain-indexer-engine.ts:274-323 | so does a rollback to any height, for the chain rolled back and for all others |
| `ChainReplay.IncrementalIsReplay` | backend/src/blockchain/chain-indexer-engine.ts:84-116 | after any run of appends and re-orgs the live blocks are parent-linked and the event table, owners included, equals replaying just those blocks from empty |
| `ChainEvents.StoredExactly` | backend/src/blockchain/chain-indexer-engine.ts:152-242 | after every legal run an event id is stored exactly if a live block of its chain holds it, and its row is the first event with it in the earliest such block: number, hash and data |
| `ChainEvents.RowsAreOwned` | backend/src/blockchain/chain-indexer-engine.ts:200-242 | so every stored row is owned by a live block and carries its number and the data of one of its events |
| `ChainReplay.OnlyNewHashesExtend` | backend/src/blockchain/chain-indexer-engine.ts:132-149 | a linking block extends the live chain exactly if its hash was never rolled back; for a rolled-back one the tables agree with the replay exactly if its events are all stored already |
| `ChainStranded.NeverLiveAgain` | backend/src/blockchain/chain-indexer-engine.ts:132-149 | a rolled-back block is never live again, on any chain, after any deliveries |
| `ChainStranded.RefusedTakesParent` | backend/src/blockchain/chain-indexer-engine.ts:85-116 | a refused block leaves its parent with a rolled-back row exactly if the parent has a row, at whatever depth, and itself exactly if it has one |
| `ChainStranded.RefusedIsStranded` | backend/src/blockchain/chain-indexer-engine.ts:85-149 | if the parent of a refused block has a row, no legal run afterwards makes the block live, except as the first block of an emptied chain |
| `ChainStranded.ComesBackExactly` | backend/src/blockchain/chain-indexer-engine.ts:84-149 | where its parent links to what the refusal leaves, some legal run makes the block live on top of it exactly if neither of the two had a row |
| `ChainStranded.SiblingTakesParent` | backend/src/blockchain/chain-indexer-engine.ts:85-116 | a block whose parent is the one below the tip (a sibling of the tip, or the tip again) rolls back both the tip and that parent |
| `ChainStranded.SiblingIsStranded` | backend/src/blockchain/chain-indexer-engine.ts:85-149 | this instance: no legal run afterwards makes such a block live, except as the first block of an emptied chain |
| `ChainStranded.StrandingIsReached` | backend/src/blockchain/chain-indexer-engine.ts:85-149 | four legal deliveries from empty tables reach this: a rolled-back block that links to the tip |
| `ChainConverge.OfferRejected` | backend/src/blockchain/chain-indexer-engine.ts:85-116 | above the common ancestor the canonical block is rejected and exactly the tip goes |
| `ChainConverge.OfferAccepted` | backend/src/blockchain/chain-indexer-engine.ts:85-116 | at the common ancestor the canonical block is accepted and the chains agree on one block more |
| `ChainConverge.FeederReachesCanonicalChain` | backend/src/blockchain/chain-indexer-engine.ts:85-116 | a feeder of canonical blocks is rejected exactly (tip - ancestor) times, first, and ends with the live chain equal to the canonical one |
| `ChainConverge.ConvergesExactly` | backend/src/blockchain/chain-indexer-engine.ts:85-149 | from tables where both chains start at one height, some number of offers makes the live chain the canonical one exactly if no canonical block has a rolled-back row |
| `ChainConverge.RolledBackIsMissing` | backend/src/blockchain/chain-indexer-engine.ts:132-149 | with a rolled-back canonical block no deliveries at all make the two chains the same |
| `ChainConverge.EarlyDeliveryPreventsConvergence` | backend/src/blockchain/chain-indexer-engine.ts:85-116 | a canonical block delivered while its parent has a row but is not the tip prevents it for good |
| `QueryLimits.CalculateDepth` | backend/src/graphql/validationRules.ts:36-77 | terminates on any fragments by (fragments not on the path, selections), computes the depth and restores the path set |
| `QueryLimits.CalculateComplexity` | backend/src/graphql/validationRules.ts:103-134 | the same for the cost |
| `QueryLimits.DepthLimitRule` | backend/src/graphql/validationRules.ts:13-34 | one error for each operation over the limit, each measured over the fragments recorded before it |
| `QueryLimits.ComplexityLimitRule` | backend/src/graphql/validationRules.ts:97-152 | the same for the cost |
| `QueryLimits.RecordedExactly` | backend/src/graphql/validationRules.ts:19-21 | a fragment is known to the rules exactly if a definition of it was visited, with the body of the last one |
| `QueryLimits.ReportedExactly` | backend/src/graphql/validationRules.ts:22-31 | the errors are, in order and one each, the measures of exactly those operations whose measure over the fragments known then exceeds the limit |
| `QueryLimits.FieldCostExactly` | backend/src/graphql/validationRules.ts:82-95 | ten for the six lists, five for the three single objects, one for every other name |
| `QueryLimits.WalksMeasureInlinedQuery` | backend/src/graphql/validationRules.ts:36-134 | for acyclic fragments both walks measure the fully inlined operation |
| `QueryLimits.DepthAtMostCost` | backend/src/graphql/validationRules.ts:82-134 | for any fragments, cyclic ones included, the depth never exceeds the complexity |
| `QueryLimits.FewerFragmentsMeasureLess` | backend/src/graphql/validationRules.ts:50-61 | with fewer fragments recorded neither measure is larger |
| `QueryLimits.EarlyOperationMeasuresLess` | backend/src/graphql/validationRules.ts:19-22 | an operation is never measured higher than over all fragments of its document |
| `QueryLimits.CostUnlessMissed` | backend/src/graphql/validationRules.ts:103-134 | for any two fragment tables, one extending the other, the costs are equal exactly if the walk meets no spread of a fragment that only the larger has and that costs something there |
| `QueryLimits.DepthUnlessMissed` | backend/src/graphql/validationRules.ts:36-77 | a depth within k over the smaller table is beyond k over the larger exactly if a spread of such a fragment leads more than k levels down |
| `QueryLimits.MeasuredInFullExactly` | backend/src/graphql/validationRules.ts:13-34 | so for every operation of every document: its measured cost, and its measured depth, are those over all fragments of the document exactly under these conditions on the fragments still to come |
| `QueryLimits.PassesTooDeepExactly` | backend/src/graphql/validationRules.ts:22-30 | an operation that passes the depth limit exceeds it over all fragments exactly if a later fragment leads below the limit |
| `QueryLimits.LateFragmentIsNotSeen` | backend/src/graphql/validationRules.ts:97-152 | written before its only fragment an operation is reported by no limit on depth or cost, whatever the fragment holds |
| `QueryLimits.LateStudentsEscape` | backend/src/graphql/validationRules.ts:82-95 | one input: neither rule reports anything, at limits of 5 and 0, for an operation that costs 10 and is one level deep |
| `Poller.PollerProcess.Poll` | indexer/src/rpc.rs:221-287 | one poll, cut by an error or a crash at any point, also while it is caught up, over the cursor, the event table and what was sent |
| `Poller.PollerProcess.Run` | indexer/src/rpc.rs:185-219 | the loop over its polls, and the backoff it ends with as a fold over their outcomes |
| `Poller.BackoffDoubles` | indexer/src/rpc.rs:187-217 | that backoff is two seconds doubled for each failure since the last poll that advanced, up to a minute; idle polls neither count nor reset |
| `Poller.PollExactly` | indexer/src/rpc.rs:240-280 | the next `batch` ledgers are asked for, or those up to the tip; their first `batch` events are stored, sent and counted and the cursor put at the end of the range; what each cut leaves of that |
| `Poller.IdleExactly` | indexer/src/rpc.rs:234-242 | a poll is idle exactly if no ledger is beyond the cursor, and then changes nothing |
| `Poller.RangeParts` | indexer/src/rpc.rs:246-250 | the events of a range are those of its ledgers in order |
| `Poller.PollerProcess.InsertEvents` | indexer/src/db.rs:143-191 | an event whose id is stored is skipped |
| `Poller.InsertExactly` | indexer/src/db.rs:143-191 | stored rows stay, the ids added are those of the events, and of several events with one id the first is stored |
| `Poller.PollKeeps` | indexer/src/rpc.rs:221-287 | a poll cut anywhere keeps the invariant, if it leaves the cursor alone or the range it passes fits on a page |
| `Poller.CrashSafe` | indexer/src/rpc.rs:185-287 | over every run of polls, each cut anywhere, all events of the ledgers in (start, cursor] are stored once under their id and were sent, and nothing foreign is stored |
| `Poller.CursorNeverDecreases` | indexer/src/db.rs:93-140 | over every run, whatever fits on a page, the stored cursor only grows and never passes the latest ledger |
| `Poller.CompleteExactlyIfRangesFit` | indexer/src/rpc.rs:246-280 | over every run, with crashes anywhere, all events up to the cursor are stored and were sent exactly if every range the cursor was moved past had at most `batch` events |
| `Poller.ReachedAfter` | indexer/src/rpc.rs:257-280 | over every run what is stored beyond the cursor is part of the page that will be fetched next |
| `Poller.FirstPollCanLose` | indexer/src/rpc.rs:246-257 | already the first poll loses the event after the page when its ledger has more than `batch` |
| `Poller.CatchesUp` | indexer/src/rpc.rs:236-257 | over every run on a growing chain, with cuts in between, each uncut poll takes a batch off the distance to the starting tip and no cut one gives any back |
| `Poller.CatchesUpExactly` | indexer/src/rpc.rs:236-257 | on a chain that does not move n undisturbed polls advance the cursor by exactly n batches or to the tip |
| `Poller.FirstStartIsGood` | indexer/src/db.rs:93-114 | the empty database satisfies the invariant |
| `RegionReplicator.Replicator.Get` | backend/src/cache/RegionReplicator.ts:168-195 | the loop returns what scanning the readable entries in preference order returns |
| `RegionReplicator.Replicator.Set` | backend/src/cache/RegionReplicator.ts:121-158 | which regions hold the new entry, which are reported, and the sequence number, for any pattern of failures |
| `RegionReplicator.Replicator.Del` | backend/src/cache/RegionReplicator.ts:203-224 | which regions lose the value and which hold the tombstone, for any pattern of failures |
| `RegionReplicator.OrderedAreHealthy` | backend/src/config/region.config.ts:80-88 | the regions tried are exactly the healthy ones, the active one first |
| `RegionReplicator.OthersKeepOrder` | backend/src/config/region.config.ts:80-88 | the active region is never tried after another, and the others keep their configured order |
| `RegionReplicator.LegacyIsOldest` | backend/src/cache/RegionReplicator.ts:82-89 | a value that is no JSON counts as older than every versioned one: found where there is nothing else, beaten by any of them, hidden by any tombstone |
| `RegionReplicator.MissExactly` | backend/src/cache/RegionReplicator.ts:172-194 | a read misses exactly if some tombstone is at least as new as all values met before it, or no value is met |
| `RegionReplicator.ReadMissesExactly` | backend/src/cache/RegionReplicator.ts:168-195 | a read misses exactly if, in order of preference, a region that answers holds a tombstone at least as new as every value answered before it, or no region answers with a value |
| `RegionReplicator.NewerValueIsHidden` | backend/src/cache/RegionReplicator.ts:121-224 | two operations from empty regions reach a read that misses a value newer than every tombstone |
| `RegionReplicator.ReadReturnsNewest` | backend/src/cache/RegionReplicator.ts:168-195 | a value returned is held by a readable region, at least as new as every readable value and newer than every readable tombstone |
| `RegionReplicator.OlderTombstoneHidesNewerValue` | backend/src/cache/RegionReplicator.ts:178-183 | full last-writer-wins fails: an older tombstone met first hides a newer value |
| `RegionReplicator.NoResurrection` | backend/src/cache/RegionReplicator.ts:168-224 | after a delete and with no later set a read misses whenever it reaches a region holding that tombstone or a newer one, over every run |
| `RegionReplicator.DeletedStaysMarked` | backend/src/cache/RegionReplicator.ts:203-224 | and a region that got the tombstone keeps one as new, unless a later delete only removes it |
| `RegionReplicator.LastWriteWins` | backend/src/cache/RegionReplicator.ts:121-195 | without deletes and with an increasing clock a read returns the last set still held by a readable region, and misses exactly if there is none |
| `Totp.Base32Decode` | backend/src/auth/mfa.service.ts:35-56 | with its unmasked 32-bit accumulator the loop computes decoding over unbounded integers, section 6 of RFC 4648, for input of any length: floor(5n/8) bytes for n alphabet characters |
| `Totp.CharValueExactly` | backend/src/auth/mfa.service.ts:41-44 | a character has the value at which its upper-case form stands in the alphabet, and none if it does not |
| `Totp.OneCharacter` | backend/src/auth/mfa.service.ts:46-52 | one loop step, overflow included, keeps the bits not yet written equal to the low bits of the unbounded value |
| `Totp.RoundTrip` | backend/src/auth/mfa.service.ts:35-56 | decoding the RFC 4648 encoding of any bytes returns them |
| `Totp.GenerateTotpCode` | backend/src/auth/mfa.service.ts:61-88 | the code of the time step the timestamp falls in |
| `Totp.CounterBytesExactly` | backend/src/auth/mfa.service.ts:65-66 | the message is the one string of eight bytes that denotes the counter modulo 2^64, big-endian |
| `Totp.CountersDiffer` | backend/src/auth/mfa.service.ts:65-66 | counters less than 2^64 apart have different messages |
| `Totp.TruncateExactly` | backend/src/auth/mfa.service.ts:73-84 | section 5.3 of RFC 4226: the four bytes at the low nibble of the last one, modulo 2^31 |
| `Totp.CodeExactly` | backend/src/auth/mfa.service.ts:61-88 | the code of a counter written out from that message and its digest |
| `Totp.CodeShape` | backend/src/auth/mfa.service.ts:73-87 | a code is always six digits that read as the truncated digest modulo a million |
| `Totp.VerifyTotpCode` | backend/src/auth/mfa.service.ts:93-113 | accepts exactly the codes of the counters in the window; throws exactly on six code units that are not all ASCII |
| `Totp.StepTime` | backend/src/auth/mfa.service.ts:102-106 | the time recomputed for a counter leads back to that counter, also for negative ones |
| `Totp.AcceptedExactlyDuring` | backend/src/auth/mfa.service.ts:93-113 | a code is accepted from `window` steps before to `window` steps after its own step and, without a collision, at no other time |
| `Totp.DriftIsTolerated` | backend/src/auth/mfa.service.ts:93-113 | a clock that is off by at most `window` time steps is tolerated |
| `Strings.SplitJoin` | backend/src/auth/auth.service.ts:45 | splitting undoes joining parts that hold no separator |
| `Strings.SplitParts` | backend/src/auth/auth.service.ts:65 | the parts of a split hold no separator and join to the text |
| `Strings.TrimExactly` | backend/src/auth/auth.service.ts:59 | trimming is the one way to take white space off both ends so that none is left there |
| `Strings.CaseExactly` | backend/src/auth/auth.service.ts:67-71 | on ASCII, lower and upper case move the letters by 32 and change nothing else |
| `DidGrammar.AcceptedExactly` | backend/src/auth/auth.service.ts:58-118 | a text is accepted as a record exactly if it has a right length and consists of pieces that spell the record: words in any letter case, parts with any border space |
| `Did.NormalisedParsesAgain` | backend/src/auth/auth.service.ts:58-118 | the normalised text of an accepted identifier parses to the identical record exactly if it has at most 256 characters; otherwise it is rejected for its length |
| `Did.NormalisedDetermines` | backend/src/auth/auth.service.ts:58-118 | two accepted identifiers have the same normalised text exactly if they have the same record |
| `Did.PublicCanGrowTooLong` | backend/src/auth/auth.service.ts:31-33 | an identifier on `public` is stable exactly if it leaves room for one more character |
| `Did.GrowsExactly` | backend/src/auth/auth.service.ts:58-118 | for ASCII the normalised text is longer than the trimmed one by one for the name `public`, less the white space around network, subject and fragment |
| `Did.StableExactly` | backend/src/auth/auth.service.ts:58-118 | so an accepted ASCII identifier parses again to the same record exactly if its trimmed length and that growth are at most 256 |
| `Did.GrowsByOne` | backend/src/auth/auth.service.ts:58-118 | an ASCII identifier grows by at most one character |
| `Did.ShortIsStable` | backend/src/auth/auth.service.ts:58-118 | so every accepted ASCII identifier of at most 255 characters is stable |
| `Did.ValidatedExactly` | backend/src/auth/auth.service.ts:168-214 | validation accepts exactly if the first parse does, the normalised text fits, and network and wallet match the record |
| `Did.ValidatedIsStable` | backend/src/auth/auth.service.ts:151-214 | an accepted result is accepted again unchanged |
| `DidGrammar.AbsentIsKept` | backend/src/auth/auth.service.ts:151-176 | an absent identifier stays absent, and exactly a null or blank one becomes null |
| `DidGrammar.WalletIsNormalised` | backend/src/auth/auth.service.ts:181 | the wallet's letter case and border space do not matter, and a blank wallet is none |
| `ReadRouting.RequestContext.PruneExpiredEntries` | backend/src/db/requestContext.ts:36-44 | removes exactly the entries older than the window and keeps the map's answers equal to the whole history's |
| `ReadRouting.RequestContext.ShouldForcePrimaryReadForUser` | backend/src/db/requestContext.ts:46-56 | true exactly if the user has a marked write in the whole history no older than the window |
| `ReadRouting.RequestContext.MarkUserWriteToPrimary` | backend/src/db/requestContext.ts:71-75 | adds the write to the history the map answers for |
| `ReadRouting.RequestContext.GetDatabaseRoleForOperation` | backend/src/db/requestContext.ts:77-93 | the role as a function of the request and everything ever written; a read sent to the replica shows all the user's marked writes for every lag up to the window plus a millisecond |
| `ReadRouting.LatestDecides` | backend/src/db/requestContext.ts:46-56 | with a non-decreasing clock the last mark of a user decides for all of them |
| `ReadRouting.ReadYourWrites` | backend/src/db/requestContext.ts:77-93 | with a replica lag of at most the window plus a millisecond a GET read misses none of the user's marked writes |
| `ReadRouting.LongerLagMisses` | backend/src/db/requestContext.ts:77-93 | and with any longer lag one write and one read are enough to miss it |
| `ReadRouting.ReplicaExactly` | backend/src/db/requestContext.ts:77-93 | the replica is asked exactly by GET requests, for the eight read operations, unless the user has a marked write no older than the window |
| `ReadRouting.WritesGoToPrimary` | backend/src/db/requestContext.ts:10-19 | no write operation ever goes to the replica |
| `ReadRouting.ReplicaHealth.CheckReadReplicaHealth` | backend/src/db/index.ts:153-184 | the breaker's next state for any clock readings and results of the check and the probe |
| `ReadRouting.OpenExactlyAfterThreshold` | backend/src/db/index.ts:130-184 | over every run the failure count is the number of checks made since one last ended well, and the replica is unhealthy exactly while that is at least the threshold |
| `ReadRouting.QuickChecksIgnoreProbes` | backend/src/db/index.ts:180-183 | no run depends on the probes at all as long as no check takes a whole cooldown between two clock readings |
| `ReadRouting.SlowChecksNeverOpen` | backend/src/db/index.ts:139-183 | if every check does, a replica that answers the probe stays in use over every run although every lag check fails |
| `ReadRouting.ReplicaHealth.Route` | backend/src/db/index.ts:201-223 | a query goes to the replica exactly if its role is read and the replica counts as healthy |
| `ReadRouting.QueriesAreSpaced` | backend/src/db/index.ts:153-184 | while a replica is down the first `threshold` checks query it and after that at most one per cooldown |
| `ReadRouting.CooldownExactly` | backend/src/db/index.ts:130-184 | a failed check that leaves the replica out of use silences all checks for one cooldown from its failure, or from its probe, and no longer |
| `RateLimit.RateLimiter.CheckRateLimit` | frontend/src/middleware.ts:18-30 | the record's next state and the verdict |
| `RateLimit.AtMostTwoWindows` | frontend/src/middleware.ts:14-30 | every closed interval of length WINDOW_MS holds at most 2 * MAX_REQUESTS - 1 accepted requests of an address |
| `RateLimit.OverQuotaOnlyAcrossWindows` | frontend/src/middleware.ts:18-30 | more than one quota gets through such an interval only if a window of the address ends inside it and another opens inside it |
| `RateLimit.BoundIsReached` | frontend/src/middleware.ts:14-30 | a concrete run reaches that bound |
| `RateLimit.RefusedOnlyAfterQuota` | frontend/src/middleware.ts:25-27 | a request is refused only if a full quota was let through in the window that ends with it |
| `RateLimit.AddressesAreIndependent` | frontend/src/middleware.ts:18-30 | what an address is allowed depends on its own requests alone |
| `PubSub.Publisher.Publish` | backend/src/graphqlWsServer.ts:16-20 | each subscriber of the topic gets the message once, no other is touched |
| `PubSub.Publisher.Subscribe` | backend/src/graphqlWsServer.ts:22-39 | adds one new, empty subscription to the topic |
| `PubSub.Publisher.Return` | backend/src/graphqlWsServer.ts:45-48 | removes exactly that subscription |
| `PubSub.NothingLost` | backend/src/graphqlWsServer.ts:28-44 | what the calls of next() got, followed by the queue, is everything published since subscribing, in order, even if calls overlap |
| `PubSub.CallFates` | backend/src/graphqlWsServer.ts:41-44 | each call that was made is answered, waits, or was overtaken by another call while it waited, and exactly one of these |
| `PubSub.OvertakenIsNeverAnswered` | backend/src/graphqlWsServer.ts:41-44 | a call that was overtaken is never answered, whatever comes later |
| `PubSub.IthCallGetsIthMessage` | backend/src/graphqlWsServer.ts:41-44 | with at most one call pending the i-th call gets the i-th message |
| `PubSub.SocketQueue.SendMessage` | backend/src/graphqlWsServer.ts:116-136 | keeps the last 32 messages and sends them all if the socket is open |
| `PubSub.QueueIsNewest` | backend/src/graphqlWsServer.ts:116-136 | while the socket is closed the queue is the newest messages since it was open, up to 32, in order, and nothing is sent |
| `PubSub.FlushIsNewest` | backend/src/graphqlWsServer.ts:116-136 | when it is found open it gets exactly these, the message just handed over last |
| `PubSub.SendsLastOfEachBatch` | backend/src/graphqlWsServer.ts:116-136 | over every run, each time the socket is found open it gets exactly the last min(pending, 32) messages in order |
| `PubSub.DropsExactlyBeyondLimit` | backend/src/graphqlWsServer.ts:124-127 | nothing is dropped exactly if no more than 32 messages ever gather between two such times |

## Left out

- Base58.RoundTripBytes: the codec works for any alphabet of 58 increasing characters that starts with `1`; the proofs do not use which ones.
- CanonicalParse.SameTextSameValue: numbers are the text that `Number::toString` gives them, so that printing doubles shortest and distinctly is assumed; NaN and the infinities, which print as `null`, are not numbers here.
- SignedMessage.BytesDetermineDocument: documents that hold `undefined` inside an array are excluded, as `CanonicalParse.UndefinedItemIsLost` shows they must be.
- Credential.SubjectSays: the certificate, course and student are one record with the student's full name and the dates as the text they are printed as; joining first and last name and formatting dates is not part of this model.
- Credential.IssuedVerifies: the signature scheme is ideal (a signature verifies for its own message only, and has a non-zero byte); key derivation, the database and the revocation lookup are parameters.
- TokenFamily.LoginIsAccepted: a login's write to Redis succeeds; where it fails the code logs that and hands out a token of a family that is not stored.
- TokenFamily.TokenService.RotateRefreshToken: atomic calls; Redis failures, the lock and JWT expiry are not in this module.
- TokenRotation.SameAnswer: the lock does not expire while held; a reply lost after the lock was taken, a login under a family id that was used before, an unlocked revocation from `verifyRefreshToken` racing a rotation, and expiry of a family during a rotation are outside the interleavings.
- ChainReplay.IncrementalIsReplay: event writes do not fail, calls for one chain are atomic, a hash fixes its block and chain, numbers follow the parent, and no rolled-back hash is delivered again (`ChainReplay.OnlyNewHashesExtend` says what happens then).
- ChainConverge.ConvergesExactly: both chains start at the same height.
- QueryLimits.WalksMeasureInlinedQuery: the table is the fragments recorded before the operation; parsing and the validation framework are not part of this model.
- QueryLimits.MeasuredInFullExactly: fragment names are distinct, as another GraphQL validation rule demands. The code keeps fragments in a plain object, so a spread named like an inherited property (`constructor`, `toString`) without such a fragment finds that property; here it counts zero.
- Poller.CrashSafe: no START_LEDGER override, `getEvents` inclusive at both ends, ledger numbers below 2^32 - 1; that each range passed fits on one page is a hypothesis here and an exact condition in `Poller.CompleteExactlyIfRangesFit`; payload decoding, retries inside the HTTP client and the timing of the backoff are left out.
- RegionReplicator.LastWriteWins: a legacy value is a text that is no JSON; one that happens to be JSON is read as an entry by the code and is not modelled. Values expire one region at a time; concurrent calls are not interleaved. `del` reports regions in the order their calls finish; the model lists them in region order.
- Totp.GenerateTotpCode: the HMAC is a parameter; clock readings are integers small enough (below 2^52 milliseconds) for double division to floor exactly; tokens are sequences of Unicode characters; random secrets, backup codes and QR codes are left out.
- Did.NormalisedParsesAgain: the Stellar key check is a parameter that accepts only 56 Base32 characters; text is a sequence of Unicode characters, so lone surrogates, which no accepted identifier contains, do not occur. Letter case is exact on ASCII and on the characters whose upper case is ASCII.
- ReadRouting.ReadYourWrites: the lag window does not change while the process lives; a write is marked at or after its commit. A replica query that fails after it was sent is not retried on the primary by the code, because its promise is returned without being awaited; queries are not part of this model.
- PubSub.SocketQueue.SendMessage: the socket's state does not change during a flush; JSON encoding of messages and GraphQL execution are left out.
- `parseRegions` and `resolveActiveRegionName`: parsing an environment variable, with no property beyond distinct names.
- Bot detection, redirect checks and JWT handling of the edge middleware, certificate minting and revocation, analytics, PDF layout, dashboards, curriculum validation, payload compression, the audit-chain verifier: formatting, CRUD or library behaviour.
- HTTP, WebSocket and Express plumbing, SQL and Redis connections, logging: only the tables and maps they provide are modelled.
