# Ghost Ark: receipts, checkpoints, governed invocation and raw JSON in Dafny

This project models the parts of Ghost Ark that decide what a governed model call may do and what can be proved about it
afterwards, and proves properties of them over all inputs, all dependency answers and all interleavings. `dafny verify
dfyconfig.toml` checks everything.

**Receipt ledger** (`Receipts`, `ReceiptStore`, `Emission`, `EmissionRuns`, `EmissionAnswers`, `ReceiptChain`,
`DynamoStore`, `DynamoRuns`). Decision receipts are hash chained per tenant. An emitter reads the head, builds a
receipt, looks its id up, signs it and puts it; a put is one atomic step and is refused if the head has moved.
`ReceiptStore` holds the repository as a class with three maps, and the log of created receipts that every reachable
store replays. `EmissionRuns` interleaves any number of emitters, one await at a time, and `EmissionAnswers` says what
each answers. `DynamoStore` does the same with three conditional writes on one table, and is shown to refine the
in-memory repository; `DynamoRuns` interleaves any number of such puts, with the transaction and each read that explains
its failure as separate steps.

**Checkpoints and revocation** (`MerkleText`, `Checkpoint`, `CheckpointBinding`, `History`, `Revocation`). A checkpoint
is a Merkle root over the tenants' head hashes. `History` composes it with the ledger: a root fixes every tenant's whole
history. `Revocation` orders a receipt against a revoked key by position in the log.

**Governed invocation** (`Custody`, `NonceStore`, `GovernedInvoke`, `InvocationRuns`). Everything a dependency may
answer is a field of `Answers`, chosen freely; the outward effects are a trace. `RunContract` and `ResponseContract` say
what a run may look like, and `DecisionContract` which decisions it carries, gate by gate. `InvocationRuns` interleaves
invocations over one nonce store.

**Raw JSON** (`JsonGrammar`, `JsonParse`, `JsonAgreement`, `JsonNames`, `JsonUtf8`, `JsonReports`, `JsonFindings`,
`JsonPlaces`, `JsonMeasures`, `RawScanner`, `ExactNumbers`). `JsonGrammar` is RFC 8259 over bytes as concrete syntax
trees, with what each tree renders to. `JsonParse` reads bytes as a function and `JsonAgreement` proves that it reads
exactly the grammar. `JsonReports` and `JsonFindings` say what a string, a number and a tree should report; `JsonPlaces`
says where, and `JsonMeasures` what the counters and the depth measure. `RawScanner` is the scanner itself, with its
index, depth, counters and findings, proved against that function. `ExactNumbers` compares decimal literals and doubles
in integers and is proved against their real values.

**Policy** (`Policy`, `PolicyCompilation`, `Decisions`) and the **rejection sampler** (`Sampler`).

Hash functions are parameters. No theorem assumes an injective hash: where one is needed, the hypothesis is that no two
of the texts or records actually hashed in the statement collide (`CollisionFree`). Library functions (`Date.parse`,
`encodeURIComponent`, `toLowerCase`, the locale order, `Number`, the rendering of doubles, Unicode normal form) are
parameters too.

Where the code and the expectation part, the code is modelled and the exact condition is proved:

- `put` never looks at timestamps, but the chain verifier does: acceptance holds if and only if a tenant's times do not decrease (`History.EveryRunVerifiesIff`; `History.EarlierTimeIsStoredAndRejected` produces such a chain).
- The DynamoDB put can report that its write failed and nothing was found, but only for a link that became the head meanwhile (`DynamoRuns.NothingFoundMeansForeignLink`, `DynamoRuns.PredictedLinkFindsNothing`).
- `failed_closed` can come with a completed memory write, exactly when the final receipt was not emitted; a post-model REFUSE does not by itself stop a memory write, only MEMORY_SUPPRESS does (`GovernedInvoke.FailsClosedAfterWriting`, `GovernedInvoke.RemembersRefusedOutput`).
- Adding a policy can relax a decision (`Policy.AddingPolicyRelaxesIff`).
- The scanner takes escapes for U+0080 to U+00FF for raw bytes, and its decoder drops a byte-order mark at the start of a raw run (`JsonNames.NameIsStringValueIff`, with examples in `JsonNames.ExclusionsAreNeeded`).
- `sameExactDecimalValue` answers no beyond an exponent gap of 4096 even for equal values (`ExactNumbers.SpreadExample`).

## Model

| member | source | states |
|---|---|---|
| `ReceiptStore.InMemoryRepository.Put` | `ghost-ark-dab-spec-context/receipts/inMemoryReceiptRepository.ts:19-82` | every answer of `put` (schema, replayed request, dangling marker, key collision, stale head, created) and the exact store it leaves; only a created receipt changes anything |
| `ReceiptStore.InMemoryRepository.LatestHashForTenant` | `ghost-ark-dab-spec-context/receipts/inMemoryReceiptRepository.ts:88-90` | the recorded head hash of a tenant, or nothing |
| `ReceiptStore.InMemoryRepository.ListChainHeads` | `ghost-ark-dab-spec-context/receipts/inMemoryReceiptRepository.ts:92-96` | whatever order the map hands its entries out in, the listing names each tenant with a head once, with that head, and nobody else; it is in the locale's order if the locale separates the tenants |
| `ReceiptStore.PutKeepsLog` | `ghost-ark-dab-spec-context/receipts/inMemoryReceiptRepository.ts:19-82` | any put, of any receipt at all, moves a store that is the replay of a log of accepted receipts to another such store |
| `ReceiptStore.ChainsAreUnforked` | `ghost-ark-dab-spec-context/receipts/inMemoryReceiptRepository.ts:60-80` | in every reachable store each tenant's created receipts are one hash chain from null to the recorded head |
| `ReceiptStore.ReceiptsAreIndexed` | `ghost-ark-dab-spec-context/receipts/inMemoryReceiptRepository.ts:45-70` | the receipts map holds exactly the created receipts, under pairwise distinct ids |
| `ReceiptStore.MarkersAreIndexed` | `ghost-ark-dab-spec-context/receipts/inMemoryReceiptRepository.ts:22-75` | the marker map holds exactly one marker per created receipt, under pairwise distinct request keys |
| `ReceiptStore.OneReceiptPerRequest` | `ghost-ark-dab-spec-context/receipts/inMemoryReceiptRepository.ts:22-43` | two stored receipts of one tenant and one request id are the same entry |
| `ReceiptStore.PutByLog` | `ghost-ark-dab-spec-context/receipts/inMemoryReceiptRepository.ts:19-82` | what any put answers in terms of the receipts created so far: a malformed receipt is refused; one whose request is stored is answered with that receipt exactly on equal request digests; one whose id is stored is answered with itself or refused; any other is created exactly when it links to the last receipt of its tenant, and else told the link declared and the one found |
| `ReceiptStore.HeadsAndMarkersByLog` | `ghost-ark-dab-spec-context/receipts/inMemoryReceiptRepository.ts:70-80` | in every reachable store the head of a tenant names the id, hash and time of its last receipt, and the marker under an encoded request id names the id, request digest and time of the one receipt of that request |
| `ReceiptStore.PutFindsRequest` | `ghost-ark-dab-spec-context/receipts/inMemoryReceiptRepository.ts:24-43` | a put under a stored request id answers the stored receipt if and only if the request digests agree, and refuses otherwise |
| `Receipts.SignedHashInjective` | `ghost-ark-dab-spec-context/receipts/canonical.ts:178-180` | equal signed-receipt hashes mean equal signed receipts, if no two records hashed collide |
| `Receipts.ReceiptIdInjective` | `ghost-ark-dab-spec-context/receipts/canonical.ts:106-112` | equal receipt ids mean equal content and equal link, if no two records hashed collide |
| `Emission.Emit` | `ghost-ark-dab-spec-context/receipts/emission.ts:77-138` | run alone, the retry loop decides in its first attempt: result and store are those of one lookup, signature and put; the throw behind the loop is not reached; an emission that changes the store creates exactly one receipt, which records the input field by field, links as declared or to the recorded head, and is named by its content |
| `Emission.BuiltBodyRecordsInput` | `ghost-ark-dab-spec-context/receipts/emission.ts:140-169` | field by field, what the record of an emission says of its input: both decisions, model, policy, consent, memory flag, digests, cost and defaults as given; the two lists sorted rearrangements of what was given; the risk one of the two scores and below neither; the latency never negative and the nearest whole number |
| `Emission.CreatedRecordsInput` | `ghost-ark-dab-spec-context/receipts/emission.ts:140-169` | an emission that changes the store creates one receipt, and that receipt records its input, links as declared or to the recorded head, and is named by its content |
| `Emission.NewRequestIsCreated` | `ghost-ark-dab-spec-context/receipts/emission.ts:82-119` | a new request under a new id, with no supplied link, is created on top of the recorded head by the first attempt |
| `Emission.LookupFindsItself` | `ghost-ark-dab-spec-context/receipts/emission.ts:90-109` | a stored receipt with the id just built is the same unsigned receipt, so the lookup answers it and never reports a mismatch |
| `Emission.ReemissionIsIdempotent` | `ghost-ark-dab-spec-context/receipts/emission.ts:82-131` | emitting a stored input again, after any other receipts and with any signature, answers the stored receipt and writes nothing |
| `Emission.ChangedContentIsRefused` | `ghost-ark-dab-spec-context/receipts/emission.ts:82-131` | changed request-stable content under a stored request id is refused, with no change of state, whatever the signer does |
| `Emission.BodyIgnoresListOrder` | `ghost-ark-dab-spec-context/receipts/emission.ts:140-169` | the order of retrieved digests and of actions, and the split of actions between the decisions, do not reach the receipt |
| `EmissionRuns.StepKeepsInv` | `ghost-ark-dab-spec-context/receipts/emission.ts:82-131` | one step of any emitter (head read, lookup, signature, put) keeps the invariant of the whole system |
| `EmissionRuns.ConflictWasOvertaken` | `ghost-ark-dab-spec-context/receipts/inMemoryReceiptRepository.ts:60-68` | a put refused over the head means that someone else created a receipt of that tenant since this attempt read the head |
| `EmissionRuns.EveryInterleavingIsSafe` | `ghost-ark-dab-spec-context/receipts/emission.ts:77-138` | in every interleaving of any number of emitters: one unforked chain per tenant ending at the recorded head, maps that hold exactly the log, distinct ids, one marker per receipt |
| `EmissionRuns.GivingUpMeansOvertakenThrice` | `ghost-ark-dab-spec-context/receipts/emission.ts:82-137` | an emission without a supplied link that ends in a head conflict lost three attempts, and three other receipts of its tenant were created, one inside each |
| `EmissionRuns.LoopNeverRunsOut` | `ghost-ark-dab-spec-context/receipts/emission.ts:134-137` | the throw behind the retry loop is unreachable in every interleaving |
| `EmissionRuns.StoredRecordsInput` | `ghost-ark-dab-spec-context/receipts/emission.ts:140-169` | in every interleaving each stored receipt records the input of the emitter that created it, field by field, under an id that is the digest of its content |
| `EmissionAnswers.EmissionByLog` | `ghost-ark-dab-spec-context/receipts/emission.ts:77-138` | after any receipts, how an emission ends and what it stores: by the stored id, the signer, the form, the stored request and the link, in this order, each with its receipt or its error |
| `EmissionAnswers.UndisturbedIsAlone` | `ghost-ark-dab-spec-context/receipts/emission.ts:82-131` | in any state of any interleaving an attempt that nobody disturbs, first or repeated, answers and stores what a lone emission does |
| `EmissionAnswers.SuppliedLinkTriesOnce` | `ghost-ark-dab-spec-context/receipts/emission.ts:121-128` | an emission with a link of the caller's comes to no second attempt, in any schedule |
| `EmissionAnswers.OnlyAcceptedAreStored` | `ghost-ark-dab-spec-context/receipts/emission.ts:77-78` | in every schedule what is stored comes from accepted inputs, and an emission ends with the input error exactly when its input is not accepted |
| `EmissionRuns.SameRequestSameReceipt` | `ghost-ark-dab-spec-context/receipts/emission.ts:82-131` | two answered emissions of one tenant and request id, interleaved in any way, answer the same stored receipt, with the content both asked for |
| `ReceiptChain.VerifyChain` | `ghost-ark-dab-spec-context/receipts/chain.ts:10-79` | one check per receipt; entry i passes if and only if it is valid, of the first tenant, of an unseen hash, not earlier than and linked to its predecessor; each detail says what it reports of its entry, with the tenant, hash and link values it names |
| `ReceiptChain.LinkDetail` | `ghost-ark-dab-spec-context/receipts/chain.ts:48-77` | the two passing details are given exactly to entries that link back |
| `ReceiptChain.AcceptedIffOrderedChain` | `ghost-ark-dab-spec-context/receipts/chain.ts:28-78` | all entries pass if and only if the input is one tenant's chain from null with non-decreasing times and distinct hashes |
| `ReceiptChain.LedgerChainAcceptedIff` | `ghost-ark-dab-spec-context/receipts/chain.ts:42-77` | a chain taken from the store passes in creation order if and only if its timestamps do not decrease |
| `DynamoStore.DynamoRepository.Put` | `ghost-ark-dab-spec-context/receipts/repository.ts:90-144` | from a table that represents a store, `put` answers what the in-memory `put` answers and leaves a table that represents its new store; the "no existing receipt" error does not occur |
| `DynamoStore.DynamoRepository.TransactWrite` | `ghost-ark-dab-spec-context/receipts/repository.ts:97-136` | the three conditional writes commit together exactly when all three conditions hold, and change nothing otherwise |
| `DynamoStore.DynamoRepository.ResolveConditionalCollision` | `ghost-ark-dab-spec-context/receipts/repository.ts:187-234` | after a failed transaction the reads recover exactly the in-memory answer, never a creation |
| `DynamoStore.DynamoRepository.ResolveRequestMarkerCollision` | `ghost-ark-dab-spec-context/receipts/repository.ts:236-269` | with a marker present the reads recover exactly the in-memory answer |
| `DynamoStore.TransactionRepresentsInsert` | `ghost-ark-dab-spec-context/receipts/repository.ts:287-325` | the three written items represent the in-memory insertion, and the head item keeps the link of the receipt as the previous hash |
| `DynamoStore.KeySpacesDisjoint` | `ghost-ark-dab-spec-context/receipts/repository.ts:7-8` | ids that start `grct_`, markers that start `__request__#` and the head key `__chain_head__` never coincide in the shared table |
| `DynamoStore.ReplayIsSane` | `ghost-ark-dab-spec-context/receipts/repository.ts:90-136` | every reachable store keeps the key shapes that the single table needs |
| `DynamoRuns.StepKeepsInv` | `ghost-ark-dab-spec-context/receipts/repository.ts:90-269` | one step of any of any number of interleaved puts (transaction, marker read, target read, receipt read, head read) keeps the table a log of committed receipts and keeps what every other put knows right |
| `DynamoRuns.TableIsALog` | `ghost-ark-dab-spec-context/receipts/repository.ts:97-136` | after every schedule of puts the table represents the replay of a log of accepted receipts, each tenant's receipts are one chain from null, and the head item holds its last hash |
| `DynamoRuns.AnsweredIsStored` | `ghost-ark-dab-spec-context/receipts/repository.ts:138-269` | in every schedule, a receipt that a put answers with is one of the committed receipts |
| `DynamoRuns.AnswersAreAtomic` | `ghost-ark-dab-spec-context/receipts/repository.ts:138-269` | in every schedule, a put that answers with a receipt, or is refused for its form or its request, answers what the in-memory put answers at some moment between its first and last step |
| `DynamoRuns.RefusalsAreTrue` | `ghost-ark-dab-spec-context/receipts/repository.ts:202-253` | in every schedule, a conflict reports the head as it was when read, which is not the declared link, and the target of a marker is never missing |
| `DynamoRuns.ConflictIsAtomicIff` | `ghost-ark-dab-spec-context/receipts/repository.ts:202-211` | a conflict is the in-memory answer at its last read if and only if neither the request nor the receipt was stored in the meantime |
| `DynamoRuns.UndisturbedIsAtomic` | `ghost-ark-dab-spec-context/receipts/repository.ts:90-269` | a put with no commit between its first and last step answers exactly what the in-memory put answers |
| `DynamoRuns.HeadNeverReturns` | `ghost-ark-dab-spec-context/receipts/repository.ts:287-325` | a head hash that was replaced never comes back, if no two records hashed collide |
| `DynamoRuns.NothingFoundMeansForeignLink` | `ghost-ark-dab-spec-context/receipts/repository.ts:202-215` | a put refused because its write failed and nothing was found declared a link that was not the head at the failure and became it before the last read; without a collision it had never been the head up to the failure, so a link that was read from the head does not get there |
| `DynamoRuns.PredictedLinkFindsNothing` | `ghost-ark-dab-spec-context/receipts/repository.ts:212-215` | for any two receipts of one tenant, the second linked to the first while that is signed but not stored: a schedule in which the second put is refused with nothing found |
| `MerkleText.LeafTextInjective` | `ghost-ark-dab-spec-context/receipts/checkpoint.ts:62-68` | distinct leaves have distinct hashed texts, whatever characters their strings hold |
| `MerkleText.NodeTextParts` | `ghost-ark-dab-spec-context/receipts/checkpoint.ts:70-72` | a node text is the literal prefix, the left hash, a colon and the right hash, each at its position |
| `MerkleText.LeafTextParts` | `ghost-ark-dab-spec-context/receipts/checkpoint.ts:62-68` | a leaf text is five literal parts around two quoted strings, the head hash first and the tenant second, and each reads back by section 7 of RFC 8259 |
| `MerkleText.NodeTextSplits` | `ghost-ark-dab-spec-context/receipts/checkpoint.ts:70-72` | a node text determines its two children once one of them has a known length |
| `MerkleText.DomainsSeparate` | `ghost-ark-dab-spec-context/receipts/checkpoint.ts:62-78` | leaf, node and empty-tree texts never coincide |
| `Checkpoint.NormalizeChainHeadLeaves` | `ghost-ark-dab-spec-context/receipts/checkpoint.ts:54-60` | the loop over a map and the sort compute the normal form of a head list |
| `Checkpoint.NormalizedLeaves` | `ghost-ark-dab-spec-context/receipts/checkpoint.ts:54-60` | the normal form has one leaf per tenant and holds exactly the last head given for each |
| `Checkpoint.NormalizeForgetsOrder` | `ghost-ark-dab-spec-context/receipts/checkpoint.ts:54-60` | head lists that mean the same heads normalise to the same list, if the locale order separates the tenants |
| `Checkpoint.LatestHeadIsListed` | `ghost-ark-dab-spec-context/receipts/checkpoint.ts:54-60` | a head with no later entry of its tenant is in the normal form |
| `Checkpoint.LastWinsIff` | `ghost-ark-dab-spec-context/receipts/checkpoint.ts:54-60` | the map of last heads holds exactly the heads that no later entry of their tenant follows |
| `Checkpoint.NormalizedInOrder` | `ghost-ark-dab-spec-context/receipts/checkpoint.ts:54-60` | the normal form is in the locale's order of the tenants, if the locale separates them |
| `Checkpoint.PairUp` | `ghost-ark-dab-spec-context/receipts/checkpoint.ts:80-86` | one pass of the inner loop is the next layer, the last node of an odd layer paired with itself |
| `Checkpoint.MerkleRootForLeaves` | `ghost-ark-dab-spec-context/receipts/checkpoint.ts:74-89` | the loop computes the root of the layered tree, and the empty-tree constant for no leaves written out |
| `Checkpoint.RootByPosition` | `ghost-ark-dab-spec-context/receipts/checkpoint.ts:74-89` | the root is the node at the top of a tree read from above, whose node at a height and position hashes the literal text of the two nodes below it, left before right, the last of an odd layer twice |
| `Checkpoint.RootOfTwoHeads` | `ghost-ark-dab-spec-context/receipts/checkpoint.ts:74-89` | the root of two tenants hashes a text with the leaf hash of the first tenant before that of the second |
| `Checkpoint.BuildMerkleInclusionProof` | `ghost-ark-dab-spec-context/receipts/checkpoint.ts:91-125` | a proof is built exactly for leaves that are present; it verifies against the root and has as many steps as the tree has layers above the leaves; step by step it carries the hash and the side of the sibling at that height |
| `Checkpoint.VerifyMerkleInclusionProof` | `ghost-ark-dab-spec-context/receipts/checkpoint.ts:127-136` | the loop answers whether the leaf hash matches and the climb ends at the expected root; that is, whether hashes exist that lead from the leaf's text to the root, each with its sibling on its side |
| `Checkpoint.DepthIsCeilLog2` | `ghost-ark-dab-spec-context/receipts/checkpoint.ts:104-117` | the number of proof steps is the ceiling of the binary logarithm of the number of leaves |
| `Checkpoint.ClimbOneLayer` | `ghost-ark-dab-spec-context/receipts/checkpoint.ts:105-116` | the sibling step chosen for a node leads to that node's parent in the next layer |
| `CheckpointBinding.RootDeterminesLeaves` | `ghost-ark-dab-spec-context/receipts/checkpoint.ts:74-89` | equal roots of duplicate-free leaf lists of any sizes and depths mean equal lists, despite last-node duplication |
| `CheckpointBinding.RootsAgreeIff` | `ghost-ark-dab-spec-context/receipts/checkpoint.ts:54-89` | two head lists have the same root if and only if they mean the same head per tenant |
| `CheckpointBinding.AcceptedProofNamesLeaf` | `ghost-ark-dab-spec-context/receipts/checkpoint.ts:127-136` | any accepted proof, with arbitrary strings as sibling hashes, names a leaf of the tree and has exactly the tree's depth; the empty tree accepts none |
| `History.SameHeadSameChain` | `ghost-ark-dab-spec-context/receipts/chain.ts:42-77` | two linked chains with the same last hash are the same chain |
| `History.EqualRootsIffEqualHistories` | `ghost-ark-dab-spec-context/receipts/checkpoint.ts:62-89` | two checkpoints over linked chains have equal roots if and only if the complete per-tenant histories are equal |
| `History.ListingListsHeads` | `ghost-ark-dab-spec-context/receipts/inMemoryReceiptRepository.ts:92-96` | the listing of a store's heads means exactly the store's heads, so it meets the hypothesis of the two theorems below |
| `History.LogCommits` | `ghost-ark-dab-spec-context/receipts/inMemoryReceiptRepository.ts:92-96` | the head list of a reachable store commits to the histories of its log |
| `History.LedgerRootsAgreeIff` | `ghost-ark-dab-spec-context/receipts/checkpoint.ts:74-89` | the checkpoints of two runs of the interleaved emitters have equal roots if and only if the two runs created the same history for every tenant |
| `History.EveryRunVerifiesIff` | `ghost-ark-dab-spec-context/receipts/chain.ts:28-78` | after every interleaving, a tenant's chain passes the verifier if and only if its timestamps do not decrease |
| `History.EarlierTimeIsStoredAndRejected` | `ghost-ark-dab-spec-context/receipts/chain.ts:62-68` | for any two emissions of one tenant that the emitter accepts, for different requests and with the second time earlier: both are stored and linked, and the verifier passes the first and rejects the second |
| `History.AcceptedIsLinked` | `ghost-ark-dab-spec-context/receipts/chain.ts:48-77` | a fully accepted submission is a linked chain, so the history theorems apply to it |
| `Revocation.AssertMonotonicLedgerSequence` | `ghost-ark-dab-spec-context/receipts/ledgerAnchoredRevocation.ts:155-217` | the loop raises no error if and only if the log is named, non-empty, well-shaped, with unique ids and strictly increasing indices and seal times; an error names what is wrong with the first epoch that does not extend an ordered log |
| `Revocation.WellFormedIff` | `ghost-ark-dab-spec-context/receipts/ledgerAnchoredRevocation.ts:155-217` | a log whose neighbours are in order is ordered as a whole, with the bounds and the digest shape written out |
| `Revocation.FindEpoch` | `ghost-ark-dab-spec-context/receipts/ledgerAnchoredRevocation.ts:219-221` | the first epoch with an id, or none if there is none |
| `Revocation.EnforceLedgerAnchoredRevocation` | `ghost-ark-dab-spec-context/receipts/ledgerAnchoredRevocation.ts:248-335` | the standing is pre-revocation (post-revocation) if and only if the proof verifies at a position before (not before) the revocation epoch of a well-formed log; backdating is flagged exactly on a contradiction; the verdict is true if and only if all checks passed; both indices are reported; the report lists the stages by name, in order, up to the first that does not pass, and behind all of them the backdating check if a time is claimed and the order check |
| `Revocation.PreRevocationMeansEarlierHead` | `ghost-ark-dab-spec-context/receipts/ledgerAnchoredRevocation.ts:276-325` | a pre-revocation standing means that the leaf was the head of its tenant in an epoch with a smaller index |
| `Revocation.TimestampIsIgnored` | `ghost-ark-dab-spec-context/receipts/ledgerAnchoredRevocation.ts:293-325` | two inputs that differ only in the receipt's timestamp get the same standing, which is the standing enforcement returns |
| `Revocation.ExtensionKeepsStanding` | `ghost-ark-dab-spec-context/receipts/ledgerAnchoredRevocation.ts:248-335` | extending the log by any well-formed suffix keeps the standing, if it was already ordered |
| `Custody.TransitLedger.NextSequenceNum` | `ghost-ark-dab-spec-context/runtime/transitLedger.ts:35-39` | numbers are handed out once each, counting up, and exceed every recorded one |
| `Custody.ObjectsToFirst` | `ghost-ark-dab-spec-context/runtime/transitLedger.ts:41-76` | the objection is to the first demand that a record does not meet, and there is none exactly if all are met |
| `Custody.TransitLedger.Record` | `ghost-ark-dab-spec-context/runtime/transitLedger.ts:41-76` | the first objection in order, or the record is appended; the records stay a strictly increasing subsequence of the allocated numbers |
| `Custody.GatewayInvoke` | `ghost-ark-dab-spec-context/gateway/gatewayModelInvoker.ts:47-104` | exactly the recordable transits leave a record under the number allocated for them; an output is returned exactly for a recorded 200 response that carries text; the record carries the status, digests and text of the transit |
| `NonceStore.InMemoryNonceStore.Reserve` | `ghost-ark-dab-spec-context/runtime/nonceStore.ts:31-47` | fresh, idempotent replay or replay error by key and context; only a fresh reservation changes the store |
| `NonceStore.AnswerByHistory` | `ghost-ark-dab-spec-context/runtime/nonceStore.ts:31-47` | after any history of attempts a reservation is fresh exactly if its tenant never used the nonce, and else is judged against the first use alone: a replay on an equal context, an error on another |
| `GovernedInvoke.EmitReceiptV2Layer` | `ghost-ark-dab-spec-context/runtime/governedInvoke.ts:199-236` | the empty-custody refusal fires exactly when the model succeeded without a record; otherwise one v2 emission is attempted |
| `GovernedInvoke.EmitReceipt` | `ghost-ark-dab-spec-context/runtime/governedInvoke.ts:238-284` | one v1 attempt, a v2 attempt only behind its success, and success reported exactly when all configured emissions succeeded |
| `GovernedInvoke.Exit` | `ghost-ark-dab-spec-context/runtime/governedInvoke.ts:447-495` | an exit emits once, behind everything else; its status and text stand only if the receipt was emitted |
| `GovernedInvoke.RefuseBeforePolicy` | `ghost-ark-dab-spec-context/runtime/governedInvoke.ts:298-393` | the exits before a policy compiled fail closed without any emission |
| `GovernedInvoke.BlockBeforeModel` | `ghost-ark-dab-spec-context/runtime/governedInvoke.ts:430-812` | the pre-model exits together block exactly when one of the gates is closed; a blocked run carries the decisions up to the first closed gate, of that gate and of the gates before it, and an emitted one the status that belongs to the gate's decision |
| `GovernedInvoke.BlockRetrieval` | `ghost-ark-dab-spec-context/runtime/governedInvoke.ts:485-700` | the retrieval exits refuse exactly when caller contexts, the provider or cross-tenant contamination demand it, and fail closed |
| `GovernedInvoke.RefuseReservation` | `ghost-ark-dab-spec-context/runtime/governedInvoke.ts:824-915` | a replayed, mismatched or failed reservation is refused with one emission, fails closed, and the model is not called |
| `GovernedInvoke.InvokeAndFinish` | `ghost-ark-dab-spec-context/runtime/governedInvoke.ts:919-982` | behind open gates and a fresh reservation the model is called once if the prompt can be built, and its failure fails closed; the answer is an output exactly when it is the direct one or a recorded response of status 200 with text |
| `GovernedInvoke.FinishAfterModel` | `ghost-ark-dab-spec-context/runtime/governedInvoke.ts:984-1172` | after a model output: disclosure, memory write and final receipt keep both contracts of the run |
| `GovernedInvoke.PostModelEffect` | `ghost-ark-dab-spec-context/runtime/governedInvoke.ts:994-1009` | text is withheld, replaced, redacted or passed on, and the status set, exactly as the post-model decision says |
| `GovernedInvoke.MemoryStage` | `ghost-ark-dab-spec-context/runtime/governedInvoke.ts:1011-1058` | the vault is asked exactly when memory was requested and the memory decision in force allows it |
| `GovernedInvoke.GovernedInvoke` | `ghost-ark-dab-spec-context/runtime/governedInvoke.ts:286-1172` | for all answers of all dependencies: the model is called at most once, exactly when the gates are open, the nonce fresh and the prompt built; exactly one v1 emission is attempted if a policy compiled and none otherwise, carrying the decisions of the result; any status but failed_closed and any text imply an emitted receipt; memory is written only behind a successful call, and exactly when the vault was asked and persisted; the run is rejected only by a throwing logger; through the gateway the empty-custody refusal cannot fire; the decisions, reasons, actions, status and memory report of every run are those of the first gate that stops it, gate by gate |
| `GovernedInvoke.ModelIsCalledIff` | `ghost-ark-dab-spec-context/runtime/governedInvoke.ts:298-923` | the model is called exactly when identity, nonce and allowlist pass and a policy compiles, no gate stops the run, and the prompt can be built, each condition written out |
| `GovernedInvoke.FailsClosedAfterWriting` | `ghost-ark-dab-spec-context/runtime/governedInvoke.ts:1103-1147` | concrete answers on which the run fails closed and the memory write has completed |
| `GovernedInvoke.RemembersRefusedOutput` | `ghost-ark-dab-spec-context/runtime/governedInvoke.ts:1000-1058` | concrete answers on which a post-model REFUSE replaces the text and the memory is written all the same |
| `InvocationRuns.CalledBehindReservation` | `ghost-ark-dab-spec-context/runtime/governedInvoke.ts:813-923` | in every interleaving a model call stands behind a fresh reservation of the same invocation |
| `InvocationRuns.ReservedOnce` | `ghost-ark-dab-spec-context/runtime/nonceStore.ts:31-47` | no reservation key is answered as fresh twice in one history |
| `InvocationRuns.OneModelCallPerNonce` | `ghost-ark-dab-spec-context/runtime/governedInvoke.ts:813-923` | over every interleaving of governed invocations that share the nonce store, a tenant hash and nonce lead to at most one model call, with no assumption on the hash |
| `InvocationRuns.UnfinishedRunKeepsDiscipline` | `ghost-ark-dab-spec-context/runtime/governedInvoke.ts:813-923` | an invocation cut off at any point keeps the discipline proved of whole runs |
| `InvocationRuns.PartyKeepsDiscipline` | `ghost-ark-dab-spec-context/runtime/governedInvoke.ts:813-923` | what an interleaved invocation has done so far, being the start of a run that fulfils the contract of governed invocation, keeps the invoke discipline |
| `JsonAgreement.ValueSound` | `tools/experiments/rawJsonScan.ts:316-356` | a value that is read is a well-formed tree within the depth limit, and its bytes are exactly those read |
| `JsonAgreement.ValueRead` | `tools/experiments/rawJsonScan.ts:316-356` | every well-formed tree within the depth limit is read back from its bytes as itself |
| `JsonAgreement.ReadsExactlyTheGrammar` | `tools/experiments/rawJsonScan.ts:307-450` | reading a byte string gives a document if and only if the document is well-formed, nests at most 512 levels and spells those bytes; so its tree is unique |
| `JsonMeasures.NestingLimit` | `tools/experiments/rawJsonScan.ts:316-332` | brackets around a scalar are accepted exactly while no more than 512 values nest |
| `RawScanner.Scanner.SkipWhitespace` | `tools/experiments/rawJsonScan.ts:289-293` | skips exactly the longest run of the four whitespace bytes |
| `RawScanner.Scanner.Expect` | `tools/experiments/rawJsonScan.ts:295-300` | passes exactly over the expected byte |
| `RawScanner.Scanner.ScanKeyword` | `tools/experiments/rawJsonScan.ts:358-365` | accepts exactly the spelled literal and stands behind it |
| `RawScanner.Scanner.SkipNumber` | `tools/experiments/rawJsonScan.ts:616-664` | accepts exactly a number of the grammar, stands behind the longest one, and tells whether it is written without point and exponent |
| `RawScanner.Scanner.ScanNumber` | `tools/experiments/rawJsonScan.ts:616-772` | accepts exactly a number of the grammar; findings and the inexact and large counters grow by what the number reports, for any rounding and any rendering of doubles |
| `RawScanner.Scanner.ReportNumber` | `tools/experiments/rawJsonScan.ts:666-771` | the two early returns and the three later reports leave exactly the number's findings and counts |
| `JsonReports.NumberReportsMean` | `tools/experiments/rawJsonScan.ts:672-771` | for any rounding: overflow exactly on a non-finite double, underflow exactly on a zero double of a non-zero value, inexact exactly when the value written is not the double's, large exactly when it reaches 2^53 in magnitude within the exponent bound, unsafe exactly for plain integers beyond 2^53 - 1; a failed round trip is reported exactly for the numbers compared, as lossy exactly when the parse was |
| `JsonReports.RoundTripsIff` | `tools/experiments/rawJsonScan.ts:726-742` | if the re-emitted text is a literal, the round trip is accepted exactly when it denotes the written value, short of the exponent gap |
| `ExactNumbers.MagnitudeIsTruncated` | `tools/experiments/rawJsonScan.ts:791-803` | the truncated magnitude passes 2^53 - 1 exactly when the value itself reaches 2^53 |
| `RawScanner.Scanner.ReadFourHexDigits` | `tools/experiments/rawJsonScan.ts:575-587` | accepts exactly four hexadecimal digits and returns their value |
| `RawScanner.Scanner.PeekLowSurrogateEscape` | `tools/experiments/rawJsonScan.ts:590-606` | answers a unit exactly when the next piece is a low-surrogate escape, and consumes nothing |
| `RawScanner.Scanner.ScanUnicodeEscape` | `tools/experiments/rawJsonScan.ts:510-530` | pairing a high with a following low surrogate, or flagging a lone one, leaves the rest of the string with the same outcome |
| `RawScanner.Scanner.ScanString` | `tools/experiments/rawJsonScan.ts:460-573` | accepts exactly the strings of the grammar, returns the decoded name, reports a lone surrogate exactly when there is one, and then a non-normalized text exactly when the string decodes to one, for any notion of normal form |
| `RawScanner.Scanner.ScanName` | `tools/experiments/rawJsonScan.ts:386-404` | a member name is counted and compared with the names before it; a repeat is reported with both offsets (`JsonPlaces` says which is which) |
| `RawScanner.Scanner.ScanMember` | `tools/experiments/rawJsonScan.ts:382-410` | a member's counts, depth, findings and position are those of its parsed tree |
| `RawScanner.Scanner.ScanMemberValue` | `tools/experiments/rawJsonScan.ts:406-410` | the colon and the value of a member are accepted exactly when the grammar has them there, with the outcome of the value's tree |
| `RawScanner.Scanner.ScanNextMember` | `tools/experiments/rawJsonScan.ts:381-422` | one turn of the member loop passes exactly over a member and a comma or brace and leaves the state behind that member |
| `RawScanner.Scanner.ScanObject` | `tools/experiments/rawJsonScan.ts:367-423` | the member loop has, at every turn, the outcome still ahead of it that the whole object has |
| `RawScanner.Scanner.ScanNextElement` | `tools/experiments/rawJsonScan.ts:434-449` | one turn of the element loop passes exactly over an element and a comma or bracket and leaves the state behind that element |
| `RawScanner.Scanner.ScanArray` | `tools/experiments/rawJsonScan.ts:425-450` | the element loop has, at every turn, the outcome still ahead of it that the whole array has |
| `RawScanner.Scanner.ScanScalar` | `tools/experiments/rawJsonScan.ts:334-354` | accepts exactly the strings, literals and numbers of the grammar, with the outcome of their tree |
| `RawScanner.Scanner.ScanValue` | `tools/experiments/rawJsonScan.ts:316-356` | accepts exactly the values of the grammar that fit in the levels left; position, depth, counters and findings are those of the parsed tree |
| `RawScanner.Scanner.ScanDocument` | `tools/experiments/rawJsonScan.ts:307-314` | for every byte string the scan ends, accepts if and only if the bytes spell a document of RFC 8259 (sections 2, 4, 5, 6 and 7) with at most 512 levels, and reports that tree's depth, its member, string, number, inexact and large counts, and its findings in document order |
| `RawScanner.ScanRawJson` | `tools/experiments/rawJsonScan.ts:898-946` | the entry point: well-formedness and the reports of the walk, preceded by the UTF-8 finding exactly when the input is not well-formed UTF-8 |
| `JsonNames.OneMarkIsDropped` | `tools/experiments/rawJsonScan.ts:251-257` | the decoder drops one byte-order mark at the start and nothing else |
| `JsonNames.NameIsStringValueIff` | `tools/experiments/rawJsonScan.ts:805-867` | the decoded name of a valid string is its value by section 7 of RFC 8259 if and only if no escape denotes U+0080 to U+00FF and no run of small units starts with a byte-order mark |
| `JsonNames.ExclusionsAreNeeded` | `tools/experiments/rawJsonScan.ts:814-826` | for each exclusion, two names that denote different strings and that the scanner decodes to the same name |
| `JsonUtf8.DecodesExactlyUtf8` | `tools/experiments/rawJsonScan.ts:251-257` | bytes decode exactly if they are the UTF-8 encoding of Unicode scalar values (section 3 of RFC 3629), and to the UTF-16 form of those values |
| `JsonUtf8.EscapesMean` | `tools/experiments/rawJsonScan.ts:486-540` | which characters the eight short escapes stand for, and which digits are hexadecimal |
| `JsonReports.StringReportsMean` | `tools/experiments/rawJsonScan.ts:543-570` | a string is reported for a surrogate escape without a partner and, apart from the two exclusions, for a value that is not in normal form; a string without a value is not reported for that |
| `JsonUtf8.SurrogatesPairUp` | `tools/experiments/rawJsonScan.ts:510-530` | a high and a low surrogate escape in this order are exactly the two halves of one character beyond U+FFFF, and a surrogate alone is no character |
| `JsonReports.LoneSurrogateIff` | `tools/experiments/rawJsonScan.ts:510-530` | the left-to-right pairing flags a string exactly when some surrogate escape has no partner beside it |
| `JsonFindings.DuplicatesCountRepeats` | `tools/experiments/rawJsonScan.ts:367-423` | the number of repeated-name findings is the sum over all objects of members minus distinct decoded names |
| `JsonFindings.DuplicatesCountRepeatedValues` | `tools/experiments/rawJsonScan.ts:367-423` | if the scanner decodes every member name to its string value, the repeated-name findings number the sum over all objects of members minus distinct RFC 8259 names |
| `JsonPlaces.ReportsArePlaced` | `tools/experiments/rawJsonScan.ts:382-404` | the offset of every finding of a document is a position of its bytes where the string or number that it reports starts |
| `JsonPlaces.RepeatsArePlaced` | `tools/experiments/rawJsonScan.ts:391-404` | a repeated-name finding has its first offset before its offset; at both the quoted name of a member of one object starts, the two decode to one name, and no earlier member of that object has it |
| `JsonPlaces.RepeatsAreFound` | `tools/experiments/rawJsonScan.ts:391-404` | every member whose name an earlier member of its object has is found, at its place |
| `JsonMeasures.CountersNumberParts` | `tools/experiments/rawJsonScan.ts:316-450` | the five counters number the members, the strings with the names, the numbers, and the numbers written inexactly or beyond 2^53, over the list of all values of the document |
| `JsonMeasures.PathsAreShorter` | `tools/experiments/rawJsonScan.ts:316-332` | no path into a document is as long as its reported depth |
| `JsonMeasures.DeepestPath` | `tools/experiments/rawJsonScan.ts:316-332` | some path is only one shorter, so the depth is the number of values on the longest way down |
| `JsonMeasures.FindingsInOrder` | `tools/experiments/rawJsonScan.ts:367-450` | findings come in the order of the places they report |
| `JsonFindings.DecimalIsNumeral` | `tools/experiments/rawJsonScan.ts:434-449` | the token of an array index is its decimal numeral, without leading zeros |
| `JsonFindings.PointerRoundTrip` | `tools/experiments/rawJsonScan.ts:882-884` | a finding's pointer decodes to its token path by sections 3 and 4 of RFC 6901, so distinct paths have distinct pointers |
| `JsonFindings.FindingReaches` | `tools/experiments/rawJsonScan.ts:387-409` | every finding carries the pointer of a path that exists in the document |
| `ExactNumbers.FiniteIsBelowInfinity` | `tools/experiments/rawJsonScan.ts:142-159` | the finite patterns are those below the pattern of infinity, sign aside, and the zeros the least of each sign |
| `ExactNumbers.DecompositionIsExact` | `tools/experiments/rawJsonScan.ts:142-159` | the integer and exponent denote exactly the value that IEEE 754 gives the bit pattern; only infinities and NaNs are refused |
| `ExactNumbers.DecompositionIsInjective` | `tools/experiments/rawJsonScan.ts:142-159` | finite patterns have equal values if and only if they are equal or both zeros |
| `ExactNumbers.LiteralIsExact` | `tools/experiments/rawJsonScan.ts:162-185` | the integer and exponent read off any literal of the grammar denote exactly the number written |
| `ExactNumbers.LiteralEqualsDoubleIff` | `tools/experiments/rawJsonScan.ts:194-215` | the integer comparison is true exactly when the number written is the double's value |
| `ExactNumbers.OddBeyond53IsNoDouble` | `tools/experiments/rawJsonScan.ts:744-771` | no odd integer beyond 2^53 in magnitude is a finite double |
| `ExactNumbers.IntegersTo53AreDoubles` | `tools/experiments/rawJsonScan.ts:744-771` | every integer up to 2^53 in magnitude is a finite double, so the bound is exact |
| `ExactNumbers.OddLiteralIsInexact` | `tools/experiments/rawJsonScan.ts:194-215` | a literal that spells an odd integer beyond 2^53 equals no finite double |
| `ExactNumbers.SameExactDecimalValueIff` | `tools/experiments/rawJsonScan.ts:224-240` | two literals compare as equal if and only if their values are equal and not both are non-zero with exponents more than 4096 apart |
| `ExactNumbers.SpreadExample` | `tools/experiments/rawJsonScan.ts:231-235` | 1e4097 and the same number written out are one value that the comparison calls different |
| `Policy.SourceSortKeyInjective` | `ghost-ark-dab-spec-context/policy/compiler.ts:24-26` | the source sort key separates sources that differ in layer, id or version |
| `Policy.CompileForgetsOrder` | `ghost-ark-dab-spec-context/policy/compiler.ts:46-88` | compiling any permutation of sources with distinct (layer, id, version) gives the same compiled policy, hash included |
| `PolicyCompilation.CompiledAsListed` | `ghost-ark-dab-spec-context/policy/compiler.ts:46-88` | the compiled rules are the rules of the sources and no others, each labelled with layer, policy, version and rule; they are ordered by phase name, layer and name; the version lists the sources from the weakest layer on; the hash is of all of it |
| `PolicyCompilation.VersionsAreJoined` | `ghost-ark-dab-spec-context/policy/compiler.ts:78` | the version of one source is its layer, id and version, and the versions of several are joined by a plus sign |
| `Policy.Strictest` | `ghost-ark-dab-spec-context/policy/decisions.ts:51-58` | the reduction answers one of its inputs and none is more restrictive |
| `Policy.CompiledFires` | `ghost-ark-dab-spec-context/policy/evaluator.ts:25-66` | a verdict is among the matches of the compiled policy exactly when a rule of some source fires with it |
| `Policy.RuleFiresFieldByField` | `ghost-ark-dab-spec-context/policy/evaluator.ts:25-66` | a rule fires exactly if its phase agrees and each of its restrictions, set alone, fires |
| `Policy.RequestTextField` | `ghost-ark-dab-spec-context/policy/evaluator.ts:31-33` | of a policy with one rule that restricts the request text alone: when its verdict takes part in the decision |
| `Policy.OutputTextField` | `ghost-ark-dab-spec-context/policy/evaluator.ts:34-36` | the same of a rule that restricts the output text alone |
| `Policy.RiskTagsField` | `ghost-ark-dab-spec-context/policy/evaluator.ts:37-39` | the same of a rule that restricts the risk tags alone |
| `Policy.MemoryClassificationField` | `ghost-ark-dab-spec-context/policy/evaluator.ts:40-42` | the same of a rule that restricts the classification of a memory write alone |
| `Policy.MemoryTierField` | `ghost-ark-dab-spec-context/policy/evaluator.ts:43-48` | the same of a rule that restricts the memory tier alone |
| `Policy.ConsentStateField` | `ghost-ark-dab-spec-context/policy/evaluator.ts:49-51` | the same of a rule that lists consent states, with an absent state read as missing |
| `Policy.RequiresConsentField` | `ghost-ark-dab-spec-context/policy/evaluator.ts:52-54` | the same of a rule that requires consent: it takes part exactly if consent is not granted |
| `Policy.RetrievalTaintField` | `ghost-ark-dab-spec-context/policy/evaluator.ts:55-60` | the same of a rule that restricts the taint of what was retrieved |
| `Policy.BodyDeclaredTenantField` | `ghost-ark-dab-spec-context/policy/evaluator.ts:61-63` | the same of a rule on a tenant declared in the body |
| `Policy.StricterIsFurtherOn` | `ghost-ark-dab-spec-context/policy/decisions.ts:32-58` | of a default and a verdict the one further on in the literal list of decisions from ALLOW to SILENCE is decided |
| `Policy.DecisionIsStrictestCandidate` | `ghost-ark-dab-spec-context/policy/evaluator.ts:68-90` | the decision is the most restrictive of the firing verdicts and the fallback, stated on the uncompiled sources |
| `Policy.AddingPolicyRelaxesIff` | `ghost-ark-dab-spec-context/policy/evaluator.ts:87-90` | adding a policy lowers the decision's rank if and only if nothing matched before, something matches now, the context has an unknown-risk tag, and every default and firing verdict then in play ranks below the old unknown-risk decision |
| `Policy.RelaxingExample` | `ghost-ark-dab-spec-context/policy/evaluator.ts:89` | under every environment, an unknown-risk request that a policy refuses is allowed once a permissive policy is added |
| `Sampler.LimitSurvivesRounding` | `tools/experiments/e12RealTrafficKernel.ts:179-180` | for every bound, the floor of any double nearest to 2^53 / bound times the bound is the exact limit, and that product is a double, so neither rounding shows |
| `Sampler.UniformBelow` | `tools/experiments/e12RealTrafficKernel.ts:175-189` | rejects bad bounds; otherwise returns the residue of the first accepted draw, in range, having skipped only rejected ones; a bound is bad exactly outside 1 to 2^53 - 1, and the accepted draws are those below 2^53 / bound * bound |
| `Sampler.DrawIsItsHalves` | `tools/experiments/e12RealTrafficKernel.ts:181-183` | a draw divided by 2^27 is the top 26 bits of the first output, and its remainder is the top 27 bits of the second |
| `Sampler.DrawIndices` | `tools/experiments/e12RealTrafficKernel.ts:191-198` | the indices are the residues of the first accepted draws, in order |
| `Sampler.AcceptedIsUniform` | `tools/experiments/e12RealTrafficKernel.ts:179-187` | for every bound each residue comes from exactly floor(2^53 / bound) accepted pairs |
| `Sampler.OutputsAreUniform` | `tools/experiments/e12RealTrafficKernel.ts:179-187` | over the generator's own pairs of 32-bit outputs, each residue comes from exactly 2048 times floor(2^53 / bound) accepted pairs |
| `Sampler.MostPairsAccepted` | `tools/experiments/e12RealTrafficKernel.ts:179-187` | the accepted pairs number exactly the limit and are more than half of all pairs |

## Left out

- SHA-256, HMAC, RSA-PSS, KMS, base64, zod schemas and canonical JSON: library code; digests are parameters, records are assumed validated, and canonical text is an injective encoding of a record.
- The signer's and emitter's input assertions, the signature envelope and mutable key aliases: a signer answers a signature or fails, and `accepts` says which inputs pass.
- Emission without a repository, and repositories without `latestHashForTenant`.
- In-memory map keys are pairs rather than the joined text `tenant:id`; that a tenant hash holds no colon is part of the schema that is not modelled.
- DynamoStore.DynamoRepository.Put: run with nobody else writing; `DynamoRuns` interleaves the same steps on values. The scan behind the DynamoDB `listChainHeads`, and errors other than a failed condition, are not modelled.
- The DynamoDB nonce store and its expiry: an external clock decides.
- Prelude.StringLess: compares characters where JavaScript compares UTF-16 code units; the two orders part only beyond U+FFFF.
- ReceiptChain.VerifyChain: the texts of the details are not modelled, and an input that is not an array is excluded by type.
- Checkpoint signing, storage and verification of signed checkpoints: conjunctions of independent checks.
- GovernedInvoke.GovernedInvoke: error texts, metrics other than one whose failure the logger rethrows, latency, cost and the redacted flag are not modelled; retrieval filtering, prompt building, redaction and the vault are arbitrary answers; policy evaluation is an answer and does not throw; v1 and v2 receipt content is reduced to the decisions, the memory flag and the success flag.
- Custody.GatewayInvoke: HTTP transit, timeouts and response parsing are one answer.
- RawScanner.Scanner.ScanDocument: the counters and findings gathered before a rejected document failed are unconstrained.
- The rounding of `Number`, the shortest rendering of a double and Normalization Form C: parameters of the scanner, so no theorem says which double or which text they give.
- Finding texts and truncated literals: a finding is its class, pointer and offsets.
- ExactNumbers.LiteralIsExact: exponents are unbounded integers; that `parseInt` rounds exponents beyond 2^53 and that huge powers exhaust memory is outside the model.
- Policy.DecisionIsStrictestCandidate: risk scores, reasons, matched ids and layers, and action lists of a policy decision are not modelled.
- Sampler.UniformBelow: the generator is a finite supply of outputs, so a run may exhaust it; the generator's own quality is not modelled.
- The other experiment harnesses, benchmarks, cloud scripts, applications, evidence sanitiser, key manifests, attestation and provenance: reporting, I/O or maxima over small enumerations.
