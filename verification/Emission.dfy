/** Receipt emission: building, and the retry loop run against an otherwise idle repository. */
module Emission {
  import opened Prelude
  import opened Decisions
  import opened Receipts
  import opened ReceiptStore

  datatype Identity = Identity(tenantId: string, userId: string, sessionId: string, requestId: string)

  datatype EmissionInput = EmissionInput(
    identity: Identity,
    modelId: string,
    policyVersion: string,
    policyHash: string,
    inputDigest: string,
    retrievedContextDigests: seq<string>,
    preDecision: PolicyDecision,
    postDecision: PolicyDecision,
    memoryWritten: bool,
    consentState: ConsentState,
    latencyMs: real,
    costEstimateUsd: Option<real>,
    previousReceiptHash: Option<Option<string>>,
    executionContextHash: Option<string>,
    executionNonce: Option<string>,
    timestamp: string)

  /** What an emitter is constructed with, and which inputs its assertions let through. */
  datatype Config = Config(
    algorithm: string,
    emptyInputDigest: string,
    defaultContextHash: string,
    accepts: EmissionInput -> bool)

  const DEFAULT_EXECUTION_NONCE := "local-dev-execution-nonce"
  const MAX_ATTEMPTS: nat := 3

  datatype EmitError =
    | InvalidInput
    | ReplayLookupMismatch
    | SignerFailed
    | PutFailed(error: PutError)
    | HeadKeptAdvancing

  datatype EmitResult = Emitted(receipt: Signed) | Threw(error: EmitError)

  function GetOr<T>(o: Option<T>, default: T): T {
    if o.Some? then o.value else default
  }

  function SortStrings(s: seq<string>): seq<string> {
    SortBy(StringLess, s)
  }

  function BuildBody(lib: Lib, cfg: Config, input: EmissionInput): Body {
    var risk := if input.preDecision.riskScore < input.postDecision.riskScore
                then input.postDecision.riskScore else input.preDecision.riskScore;
    Body(
      input.identity.requestId,
      lib.hmac(input.identity.tenantId),
      lib.hmac(input.identity.userId),
      lib.hmac(input.identity.sessionId),
      input.timestamp,
      input.modelId,
      input.policyVersion,
      input.policyHash,
      if input.inputDigest == "" then cfg.emptyInputDigest else input.inputDigest,
      SortStrings(input.retrievedContextDigests),
      GetOr(input.executionContextHash, cfg.defaultContextHash),
      GetOr(input.executionNonce, DEFAULT_EXECUTION_NONCE),
      input.preDecision.decision,
      input.postDecision.decision,
      SortStrings(input.preDecision.actionTaken + input.postDecision.actionTaken),
      risk,
      input.consentState,
      input.memoryWritten,
      Max(0, (input.latencyMs + 0.5).Floor),
      GetOr(input.costEstimateUsd, 0.0),
      cfg.algorithm)
  }

  function BuildUnsigned(lib: Lib, cfg: Config, input: EmissionInput, prev: Option<string>): Unsigned {
    var body := BuildBody(lib, cfg, input);
    Unsigned(ReceiptId(lib, prev, body), prev, body)
  }

  function InputTenant(lib: Lib, input: EmissionInput): string {
    lib.hmac(input.identity.tenantId)
  }

  function PreviousHash(lib: Lib, s: Store, input: EmissionInput): Option<string> {
    if input.previousReceiptHash.Some? then input.previousReceiptHash.value
    else HeadHash(s, InputTenant(lib, input))
  }

  /** The answer of the replay lookup, if the built id is already stored. */
  function LookupAnswer(lib: Lib, s: Store, u: Unsigned): Option<EmitResult> {
    var key := (u.body.tenantIdHash, u.receiptId);
    if key !in s.receipts then None
    else if UnsignedDigest(lib, u) != UnsignedDigest(lib, s.receipts[key].unsigned)
        then Some(Threw(ReplayLookupMismatch))
    else Some(Emitted(s.receipts[key]))
  }

  /** Emission when nobody else writes: one attempt decides. */
  function EmitAlone(lib: Lib, cfg: Config, s: Store, input: EmissionInput,
      signature: Option<string>): (EmitResult, Store) {
    if !cfg.accepts(input) then (Threw(InvalidInput), s)
    else
      var u := BuildUnsigned(lib, cfg, input, PreviousHash(lib, s, input));
      var found := LookupAnswer(lib, s, u);
      if found.Some? then (found.value, s)
      else if signature.None? then (Threw(SignerFailed), s)
      else
        var r := Signed(u, signature.value);
        var answer := PutAnswer(lib, s, r);
        (if answer.Refused? then Threw(PutFailed(answer.error)) else Emitted(answer.receipt), PutState(lib, s, r))
  }

  /******** What a receipt says of its input ********/

  /** The list holds what was given, and nothing stands behind something that follows it in string order. */
  ghost predicate SortedRearrangement(list: seq<string>, given: seq<string>) {
    multiset(list) == multiset(given) && forall i, j :: 0 <= i < j < |list| ==> !Precedes(list[j], list[i])
  }

  /** Who asked, under which model and policy, and when. */
  ghost predicate RecordsRequest(lib: Lib, input: EmissionInput, body: Body) {
    && body.requestId == input.identity.requestId && body.tenantIdHash == lib.hmac(input.identity.tenantId)
    && body.userIdHash == lib.hmac(input.identity.userId) && body.sessionIdHash == lib.hmac(input.identity.sessionId)
    && body.timestamp == input.timestamp && body.modelId == input.modelId
    && body.policyVersion == input.policyVersion && body.policyHash == input.policyHash
  }

  /** What was decided before and after the model, and with which consent, memory write and risk. */
  ghost predicate RecordsDecisions(input: EmissionInput, body: Body) {
    && body.decisionPre == input.preDecision.decision && body.decisionPost == input.postDecision.decision
    && SortedRearrangement(body.actionTaken, input.preDecision.actionTaken + input.postDecision.actionTaken)
    && body.consentState == input.consentState && body.memoryWritten == input.memoryWritten
    && body.riskScore in {input.preDecision.riskScore, input.postDecision.riskScore}
    && body.riskScore >= input.preDecision.riskScore && body.riskScore >= input.postDecision.riskScore
  }

  /** What was processed, and what it took; absent or empty parts have their defaults. */
  ghost predicate RecordsExecution(cfg: Config, input: EmissionInput, body: Body) {
    && (input.inputDigest != "" ==> body.inputDigest == input.inputDigest)
    && (input.inputDigest == "" ==> body.inputDigest == cfg.emptyInputDigest)
    && SortedRearrangement(body.retrievedContextDigests, input.retrievedContextDigests)
    && (input.executionContextHash.Some? ==> body.executionContextHash == input.executionContextHash.value)
    && (input.executionContextHash.None? ==> body.executionContextHash == cfg.defaultContextHash)
    && (input.executionNonce.Some? ==> body.executionNonce == input.executionNonce.value)
    && (input.executionNonce.None? ==> body.executionNonce == "local-dev-execution-nonce")
    && (input.costEstimateUsd.Some? ==> body.costEstimateUsd == input.costEstimateUsd.value)
    && (input.costEstimateUsd.None? ==> body.costEstimateUsd == 0.0)
    && body.latencyMs >= 0 && (input.latencyMs < 0.0 ==> body.latencyMs == 0)
    && (input.latencyMs >= 0.0 ==> input.latencyMs - 0.5 < body.latencyMs as real <= input.latencyMs + 0.5)
    && body.signatureAlg == cfg.algorithm
  }

  ghost predicate RecordsInput(lib: Lib, cfg: Config, input: EmissionInput, body: Body) {
    RecordsRequest(lib, input, body) && RecordsDecisions(input, body) && RecordsExecution(cfg, input, body)
  }

  lemma SortedStrings(s: seq<string>)
    ensures SortedRearrangement(SortStrings(s), s)
  {
    hide StringLess, SortBy, SortedBy, StrictTotalOn, Precedes;
    var list := SortStrings(s);
    StringOrderTotal(s);
    SortBySorted(StringLess, s);
    SortedPairs(StringLess, list);
    forall i, j | 0 <= i < j < |list| ensures !Precedes(list[j], list[i]) { StringLessIff(list[j], list[i]); }
  }

  lemma BuiltBodyRecordsInput(lib: Lib, cfg: Config, input: EmissionInput)
    ensures RecordsInput(lib, cfg, input, BuildBody(lib, cfg, input))
  {
    hide SortStrings, SortedRearrangement;
    SortedStrings(input.retrievedContextDigests);
    SortedStrings(input.preDecision.actionTaken + input.postDecision.actionTaken);
  }

  /** The link an emission declares: the caller's if it supplies one, else the recorded head of the tenant. */
  ghost predicate LinksTo(lib: Lib, s: Store, input: EmissionInput, u: Unsigned) {
    var tenant := lib.hmac(input.identity.tenantId);
    && (input.previousReceiptHash.Some? ==> u.prev == input.previousReceiptHash.value)
    && (input.previousReceiptHash.None? && tenant in s.heads ==> u.prev == Some(s.heads[tenant].headHash))
    && (input.previousReceiptHash.None? && tenant !in s.heads ==> u.prev == None)
  }

  /** The id is the digest of everything else in the record. */
  ghost predicate ContentAddressed(lib: Lib, u: Unsigned) {
    u.receiptId == "grct_" + lib.digest(IdentityPayload(u.prev, u.body))
  }

  /** An emission that changes the store creates one receipt, and its record says what the input says. */
  lemma CreatedRecordsInput(lib: Lib, cfg: Config, s: Store, input: EmissionInput, signature: Option<string>)
    requires EmitAlone(lib, cfg, s, input, signature).1 != s
    ensures signature.Some? && EmitAlone(lib, cfg, s, input, signature).0.Emitted?
    ensures var (result, after) := EmitAlone(lib, cfg, s, input, signature);
            var r := result.receipt;
            && RecordsInput(lib, cfg, input, r.unsigned.body) && LinksTo(lib, s, input, r.unsigned)
            && ContentAddressed(lib, r.unsigned) && r.signature == signature.value
            && ReceiptKey(r) !in s.receipts && after == Insert(lib, s, r)
  {
    hide BuildBody, RecordsInput;
    BuiltBodyRecordsInput(lib, cfg, input);
    BodyFields(lib, cfg, input);
  }

  /** The retry loop of `emit`; `signatures[k]` is the signer's answer in attempt k. */
  method Emit(lib: Lib, cfg: Config, repository: InMemoryRepository, input: EmissionInput,
      signatures: seq<Option<string>>)
    returns (result: EmitResult)
    requires |signatures| == MAX_ATTEMPTS
    modifies repository
    ensures (result, repository.Contents()) == EmitAlone(lib, cfg, old(repository.Contents()), input, signatures[0])
    ensures result != Threw(HeadKeptAdvancing)
    ensures repository.Contents() != old(repository.Contents()) ==>
              && result.Emitted? && RecordsInput(lib, cfg, input, result.receipt.unsigned.body)
              && LinksTo(lib, old(repository.Contents()), input, result.receipt.unsigned)
              && ContentAddressed(lib, result.receipt.unsigned)
              && repository.Contents() == Insert(lib, old(repository.Contents()), result.receipt)
  {
    hide RecordsInput, LinksTo, ContentAddressed, BuildBody, Insert;
    BodyFields(lib, cfg, input);
    if repository.Contents() != EmitAlone(lib, cfg, repository.Contents(), input, signatures[0]).1 {
      CreatedRecordsInput(lib, cfg, repository.Contents(), input, signatures[0]);
    }
    if !cfg.accepts(input) {
      return Threw(InvalidInput);
    }
    var tenant := lib.hmac(input.identity.tenantId);
    for attempt := 0 to MAX_ATTEMPTS
      invariant attempt == 0 && repository.Contents() == old(repository.Contents())
    {
      var prev: Option<string>;
      if input.previousReceiptHash.Some? {
        prev := input.previousReceiptHash.value;
      } else {
        prev := repository.LatestHashForTenant(tenant);
      }
      var unsigned := BuildUnsigned(lib, cfg, input, prev);
      var existing := repository.Get(unsigned.body.tenantIdHash, unsigned.receiptId);
      if existing.Some? {
        if UnsignedDigest(lib, unsigned) != UnsignedDigest(lib, existing.value.unsigned) {
          return Threw(ReplayLookupMismatch);
        }
        return Emitted(existing.value);
      }
      if signatures[attempt].None? {
        return Threw(SignerFailed);
      }
      var outcome := repository.Put(lib, Signed(unsigned, signatures[attempt].value));
      if !outcome.Refused? {
        return Emitted(outcome.receipt);
      }
      if !(outcome.error.ChainHeadConflict? && input.previousReceiptHash.None? && attempt < 2) {
        return Threw(PutFailed(outcome.error));
      }
    }
    result := Threw(HeadKeptAdvancing);
  }

  /** A new request with a new id, and no link of the caller's, is created on top of the head. */
  lemma NewRequestIsCreated(lib: Lib, cfg: Config, s: Store, input: EmissionInput, signature: string)
    requires cfg.accepts(input) && input.previousReceiptHash.None?
    requires var r := Signed(BuildUnsigned(lib, cfg, input, HeadHash(s, InputTenant(lib, input))), signature);
             lib.schemaAccepts(r) && MarkerKey(lib, r) !in s.markers && ReceiptKey(r) !in s.receipts
    ensures var r := Signed(BuildUnsigned(lib, cfg, input, HeadHash(s, InputTenant(lib, input))), signature);
            EmitAlone(lib, cfg, s, input, Some(signature)) == (Emitted(r), Insert(lib, s, r))
  {
    BodyFields(lib, cfg, input);
  }

  lemma BodyFields(lib: Lib, cfg: Config, input: EmissionInput)
    ensures var body := BuildBody(lib, cfg, input);
            body.requestId == input.identity.requestId && body.tenantIdHash == InputTenant(lib, input)
                && body.timestamp == input.timestamp
  {
  }

  /** Every stored id is the digest of what it identifies; emitters never store anything else. */
  ghost predicate Honest(lib: Lib, log: seq<Signed>) {
    forall i :: 0 <= i < |log| ==>
      log[i].unsigned.receiptId == ReceiptId(lib, log[i].unsigned.prev, log[i].unsigned.body)
  }

  ghost function InputRecords(u: Unsigned): set<Record> {
    {IdentityPayload(u.prev, u.body), UnsignedPayload(u), RequestPayload(u.body)}
  }

  /** A stored receipt that shares the incoming id is the same unsigned receipt. */
  lemma LookupFindsItself(lib: Lib, log: seq<Signed>, u: Unsigned)
    requires Admissible(lib, log) && Honest(lib, log)
    requires CollisionFree(lib, LogRecords(log) + InputRecords(u))
    requires u.receiptId == ReceiptId(lib, u.prev, u.body)
    requires (u.body.tenantIdHash, u.receiptId) in Replay(lib, log).receipts
    ensures exists j ::
              0 <= j < |log| && log[j].unsigned == u && LookupAnswer(lib, Replay(lib, log), u) == Some(Emitted(log[j]))
  {
    ReceiptsAreIndexed(lib, log);
    var key := (u.body.tenantIdHash, u.receiptId);
    var j :| 0 <= j < |log| && ReceiptKey(log[j]) == key;
    var v := log[j].unsigned;
    assert IdentityPayload(v.prev, v.body) in HashedRecords(log[j]);
    ReceiptIdInjective(lib, LogRecords(log) + InputRecords(u), u.prev, u.body, v.prev, v.body);
    assert v == u;
  }

  /**
   * Emitting an input whose receipt is already stored, after any number of other receipts and
   * with any signature, answers the stored receipt and writes nothing.
   */
  lemma ReemissionIsIdempotent(lib: Lib, cfg: Config, log: seq<Signed>, input: EmissionInput, signature: string, i: nat)
    requires Admissible(lib, log) && Honest(lib, log) && cfg.accepts(input)
    requires i < |log| && log[i].unsigned.body == BuildBody(lib, cfg, input)
    requires var u := BuildUnsigned(lib, cfg, input, PreviousHash(lib, Replay(lib, log), input));
             CollisionFree(lib, LogRecords(log) + InputRecords(u)) && lib.schemaAccepts(Signed(u, signature))
    ensures EmitAlone(lib, cfg, Replay(lib, log), input, Some(signature)) == (Emitted(log[i]), Replay(lib, log))
  {
    hide BuildBody, Admissible, Honest, Replay, CollisionFree, LogRecords, InputRecords;
    var s := Replay(lib, log);
    var u := BuildUnsigned(lib, cfg, input, PreviousHash(lib, s, input));
    if (u.body.tenantIdHash, u.receiptId) in s.receipts {
      LookupFindsItself(lib, log, u);
      var j :| 0 <= j < |log| && log[j].unsigned == u && LookupAnswer(lib, s, u) == Some(Emitted(log[j]));
      OneReceiptPerRequest(lib, log, i, j);
    } else {
      PutFindsRequest(lib, log, i, Signed(u, signature));
    }
  }

  /** A put of other content under a stored request id is refused. */
  lemma ChangedPutIsRefused(lib: Lib, log: seq<Signed>, i: nat, r: Signed)
    requires Admissible(lib, log) && i < |log| && MarkerKey(lib, r) == MarkerKey(lib, log[i])
             && r.unsigned.body != log[i].unsigned.body
    requires CollisionFree(lib, LogRecords(log) + InputRecords(r.unsigned))
    ensures PutAnswer(lib, Replay(lib, log), r).Refused? && PutState(lib, Replay(lib, log), r) == Replay(lib, log)
  {
    hide Admissible, Replay, CollisionFree;
    if SchemaValid(lib, r) {
      PutFindsRequest(lib, log, i, r);
      DigestsDiffer(lib, log, i, r.unsigned);
    }
  }

  lemma DigestsDiffer(lib: Lib, log: seq<Signed>, i: nat, u: Unsigned)
    requires i < |log| && u.body != log[i].unsigned.body && CollisionFree(lib, LogRecords(log) + InputRecords(u))
    ensures RequestDigest(lib, u) != RequestDigest(lib, log[i].unsigned)
  {
    assert RequestPayload(log[i].unsigned.body) in HashedRecords(log[i]);
    assert RequestPayload(log[i].unsigned.body) in LogRecords(log);
  }

  /** Different content under a request id that is already stored is refused, and nothing is written. */
  lemma ChangedContentIsRefused(lib: Lib, cfg: Config, log: seq<Signed>, input: EmissionInput,
      signature: Option<string>, i: nat)
    requires Admissible(lib, log) && Honest(lib, log)
    requires i < |log| && Tenant(log[i]) == InputTenant(lib, input)
    requires log[i].unsigned.body.requestId == input.identity.requestId
    requires log[i].unsigned.body != BuildBody(lib, cfg, input)
    requires CollisionFree(lib,
             LogRecords(log) + InputRecords(BuildUnsigned(lib, cfg, input, PreviousHash(lib, Replay(lib, log), input))))
    ensures EmitAlone(lib, cfg, Replay(lib, log), input, signature).0.Threw?
    ensures EmitAlone(lib, cfg, Replay(lib, log), input, signature).1 == Replay(lib, log)
  {
    hide BuildBody, Admissible, Honest, Replay, CollisionFree, LogRecords, InputRecords, HashedRecords, PutAnswer;
    var s := Replay(lib, log);
    var u := BuildUnsigned(lib, cfg, input, PreviousHash(lib, s, input));
    BodyFields(lib, cfg, input);
    if (u.body.tenantIdHash, u.receiptId) in s.receipts {
      LookupFindsItself(lib, log, u);
      var j :| 0 <= j < |log| && log[j].unsigned == u;
      OneReceiptPerRequest(lib, log, i, j);
      assert false;
    } else if signature.Some? {
      ChangedPutIsRefused(lib, log, i, Signed(u, signature.value));
    }
  }

  /**
   * Neither the order of the retrieved digests, nor that of the actions, nor which decision took them reaches the
   * receipt.
   */
  lemma BodyIgnoresListOrder(lib: Lib, cfg: Config, input: EmissionInput, digests: seq<string>, pre: seq<string>,
      post: seq<string>)
    requires multiset(digests) == multiset(input.retrievedContextDigests)
    requires multiset(pre + post) == multiset(input.preDecision.actionTaken + input.postDecision.actionTaken)
    ensures var shuffled := input.(retrievedContextDigests := digests,
            preDecision := input.preDecision.(actionTaken := pre),
                                   postDecision := input.postDecision.(actionTaken := post));
            BuildBody(lib, cfg, shuffled) == BuildBody(lib, cfg, input)
  {
    hide StrictTotalOn, StringLess, SortBy, Elements;
    StringOrderTotal(digests);
    StringOrderTotal(pre + post);
    SortByPermutation(StringLess, digests, input.retrievedContextDigests);
    SortByPermutation(StringLess, pre + post, input.preDecision.actionTaken + input.postDecision.actionTaken);
  }

  lemma StringOrderTotal(s: seq<string>)
    ensures StrictTotalOn(StringLess, Elements(s))
  {
    forall x, y ensures !(StringLess(x, y) && StringLess(y, x)) { StringLessTrichotomy(x, y); }
    forall x, y: string | x != y ensures StringLess(x, y) || StringLess(y, x) { StringLessTrichotomy(x, y); }
    forall x, y, z | StringLess(x, y) && StringLess(y, z) ensures StringLess(x, z) { StringLessTransitive(x, y, z); }
  }
}
