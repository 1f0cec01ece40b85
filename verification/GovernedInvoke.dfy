/** The governed invocation: gates, reservation, model call, vault write and receipts over untrusted dependencies. */
module GovernedInvoke {
  import opened Prelude
  import opened Decisions
  import opened Custody

  datatype Status =
    | Completed | RefusedPreModel | RefusedPostModel | RequiresConsent | Escalated | HumanReview | FailedClosed

  /** `Mismatched` is the replay error, `ReserveFailed` any other. */
  datatype ReserveOutcome = Reserved | Replayed | Mismatched | ReserveFailed

  /**
   * Everything the dependencies answer, chosen freely. `finalizeThrows` means that a metric failed
   * and the logger then threw; the promise of the result is returned without being awaited, so this
   * rejects the invocation and no handler of it runs.
   */
  datatype Answers = Answers(
    identityAccepted: bool,
    executionNonce: Option<string>,
    allowlistConfigured: bool,
    modelAllowed: bool,
    policyHash: Option<string>,
    policyVersion: string,
    loggerThrows: bool,
    preRetrieval: PolicyDecision,
    retrievalEnabled: bool,
    callerContexts: nat,
    rejectCallerSuppliedContexts: bool,
    requireProviderWhenEnabled: bool,
    allowTaintedDigestOnly: bool,
    provider: Option<bool>,
    crossTenant: bool,
    untrustedInstruction: bool,
    preModel: PolicyDecision,
    nonceStore: Option<ReserveOutcome>,
    promptBuilt: bool,
    viaGateway: bool,
    transit: TransitAnswer,
    directModel: Option<string>,
    postModel: PolicyDecision,
    redacted: string,
    memoryRequested: bool,
    memoryDecision: PolicyDecision,
    vault: Option<bool>,
    emitV1: Option<string>,
    v2Configured: bool,
    ledgerConfigured: bool,
    emitV2: Option<string>,
    finalizeThrows: bool)

  datatype Emission = Emission(pre: PolicyDecision, post: PolicyDecision, memoryWritten: bool, modelSucceeded: bool)

  /** The outward effects of one invocation, in order. */
  datatype Effect =
    | Reserve(outcome: ReserveOutcome)
    | Invoke(succeeded: bool)
    | VaultWrite(decision: DecisionKind, written: Option<bool>)
    | EmitV1(emission: Emission, ok: bool)
    | EmitV2(emission: Emission, ok: bool)

  datatype V2Outcome = V2NotAttempted | V2EmptyCustody | V2Failed | V2Emitted(receiptId: string)

  datatype Report = Report(emitted: bool, receiptId: Option<string>, v2: Option<V2Outcome>)

  datatype Result = Result(
    status: Status,
    responseText: Option<string>,
    preRetrieval: Option<PolicyDecision>,
    preModel: PolicyDecision,
    postModel: Option<PolicyDecision>,
    memoryWrite: Option<PolicyDecision>,
    memoryAttempted: bool,
    memoryWritten: bool,
    receiptAttempted: bool,
    receipt: Report)

  /** `Rejected` is an exception that leaves `governedInvoke`. */
  datatype Outcome = Returned(result: Result) | Rejected

  const REFUSAL_TEXT := "The governed runtime refused this model output."

  predicate RetrievalDecisionAllows(d: DecisionKind) {
    d in {ALLOW, RECEIPT_ONLY, MODIFY, REDACT}
  }

  predicate ModelInvocationAllowed(d: DecisionKind) {
    d in {ALLOW, RECEIPT_ONLY, MODIFY}
  }

  predicate MemoryWriteAllowed(d: DecisionKind) {
    d in {ALLOW, RECEIPT_ONLY, MODIFY, REDACT}
  }

  function StatusForBlockingDecision(d: DecisionKind, fallback: Status): Status {
    match d
    case REQUIRE_CONSENT => RequiresConsent
    case ESCALATE => Escalated
    case HUMAN_REVIEW => HumanReview
    case REFUSE => fallback
    case SILENCE => fallback
    case _ => FailedClosed
  }

  function Synthetic(a: Answers, phase: Phase, d: DecisionKind, reason: string, actions: seq<string>,
      risk: real): PolicyDecision {
    PolicyDecision(phase, d, a.policyVersion, if a.policyHash.Some? then a.policyHash.value
        else "", [], [], actions, risk, [reason])
  }

  predicate StrictTaintBlocking(a: Answers) {
    !a.allowTaintedDigestOnly && (a.rejectCallerSuppliedContexts || a.requireProviderWhenEnabled)
  }

  /******** What a run must look like ********/

  /** The identity, nonce and allowlist checks passed and a policy compiled. */
  predicate PolicyCompiled(a: Answers) {
    a.identityAccepted && a.executionNonce.Some? && (a.allowlistConfigured ==> a.modelAllowed) && a.policyHash.Some?
  }

  predicate RetrievalOk(a: Answers) {
    a.retrievalEnabled ==>
      && !(a.rejectCallerSuppliedContexts && a.callerContexts > 0)
      && (if a.provider.Some? then a.provider.value else !a.requireProviderWhenEnabled)
  }

  /** Both policy gates and all retrieval checks let the model be called. */
  predicate GatesOpen(a: Answers) {
    && PolicyCompiled(a) && RetrievalDecisionAllows(a.preRetrieval.decision) && RetrievalOk(a) && !a.crossTenant
    && ModelInvocationAllowed(a.preModel.decision) && !(a.untrustedInstruction && StrictTaintBlocking(a))
  }

  /** The model is called at most once, behind open gates and behind a fresh reservation when a store exists. */
  ghost predicate InvokeDiscipline(a: Answers, trace: seq<Effect>) {
    && (forall i, j :: 0 <= i < |trace| && 0 <= j < |trace| && trace[i].Invoke? && trace[j].Invoke? ==> i == j)
    && (forall k :: 0 <= k < |trace| && trace[k].Invoke? ==>
          GatesOpen(a) && (a.nonceStore.Some? ==> exists j :: 0 <= j < k && trace[j] == Reserve(Reserved)))
  }

  /** Memory is written at most once, only after a model call that succeeded, and only under an allowing decision. */
  ghost predicate VaultDiscipline(trace: seq<Effect>) {
    && (forall i, j :: 0 <= i < |trace| && 0 <= j < |trace| && trace[i].VaultWrite? && trace[j].VaultWrite? ==> i == j)
    && (forall k :: 0 <= k < |trace| && trace[k].VaultWrite? ==>
          MemoryWriteAllowed(trace[k].decision) && exists j :: 0 <= j < k && trace[j] == Invoke(true))
  }

  /** Emissions come last, and a v2 emission follows a successful v1 emission of the same content. */
  ghost predicate EmissionDiscipline(trace: seq<Effect>) {
    && (forall i, j :: 0 <= i < j < |trace| && trace[i].EmitV1? ==> trace[j].EmitV1? || trace[j].EmitV2?)
    && (forall k :: 0 <= k < |trace| && trace[k].EmitV2? ==> k > 0 && trace[k - 1] == EmitV1(trace[k].emission, true))
  }

  ghost function V1Emissions(trace: seq<Effect>): seq<Emission> {
    if |trace| == 0 then []
    else
      var last := trace[|trace| - 1];
      V1Emissions(trace[..|trace| - 1]) + if last.EmitV1? then [last.emission] else []
  }

  ghost predicate TraceDiscipline(a: Answers, trace: seq<Effect>) {
    InvokeDiscipline(a, trace) && VaultDiscipline(trace) && EmissionDiscipline(trace)
  }

  /** What a returned result says about the emissions that were made. */
  ghost predicate ResultMatchesTrace(a: Answers, r: Result, trace: seq<Effect>) {
    var emissions := V1Emissions(trace);
    && (r.receiptAttempted <==> |emissions| > 0)
    && (|emissions| > 0 ==>
          var last := emissions[|emissions| - 1];
          r.preModel == last.pre && r.postModel == Some(last.post) && r.memoryWritten == last.memoryWritten)
    && (r.receipt.emitted ==> |emissions| > 0 && EmitV1(emissions[|emissions| - 1], true) in trace)
    && (r.receipt.emitted && a.v2Configured ==> EmitV2(emissions[|emissions| - 1], true) in trace)
    && (r.status != FailedClosed ==> r.receipt.emitted)
    && (r.responseText.Some? ==> r.receipt.emitted && Invoke(true) in trace)
    && (r.memoryWritten <==> WroteMemory(trace))
    && (r.memoryWritten ==> (r.status == FailedClosed <==> !r.receipt.emitted))
  }

  /** Some vault write answered that it persisted the memory. */
  ghost predicate WroteMemory(trace: seq<Effect>) {
    exists k :: 0 <= k < |trace| && trace[k].VaultWrite? && trace[k].written == Some(true)
  }

  /** How many v1 emissions a run attempts, and what it may answer. */
  ghost predicate RunContract(a: Answers, o: Outcome, trace: seq<Effect>) {
    && TraceDiscipline(a, trace)
    && |V1Emissions(trace)| == (if PolicyCompiled(a) then 1 else 0)
    && (o.Returned? ==> ResultMatchesTrace(a, o.result, trace))
  }

  /**
   * The model is called exactly when the gates are open, the nonce is fresh or unguarded, and the prompt can be built.
   */
  predicate CallsModel(a: Answers) {
    GatesOpen(a) && (a.nonceStore.Some? ==> a.nonceStore.value == Reserved) && a.promptBuilt
  }

  /** The memory decision in force: suppression after the model overrides the policy's own. */
  function MemoryDecision(a: Answers): DecisionKind {
    if a.postModel.decision == MEMORY_SUPPRESS then MEMORY_SUPPRESS else a.memoryDecision.decision
  }

  predicate TextWithheld(d: DecisionKind) {
    d in {SILENCE, ESCALATE, HUMAN_REVIEW, REQUIRE_CONSENT}
  }

  /** What a caller may see of the model's output under a post-model decision. */
  predicate Disclosed(a: Answers, status: Status, text: Option<string>) {
    var d := a.postModel.decision;
    && (text.None? <==> TextWithheld(d))
    && (d == REDACT ==> text == Some(a.redacted))
    && (d == REFUSE ==> text == Some("The governed runtime refused this model output."))
    && (!TextWithheld(d) && d != REDACT && d != REFUSE ==> text == if a.viaGateway then GatewayText(a)
        else a.directModel)
    && (status == Status.Completed <==> !TextWithheld(d) && d != REFUSE)
    && (status == RequiresConsent <==> d == REQUIRE_CONSENT) && (status == Escalated <==> d == ESCALATE)
    && (status == HumanReview <==> d == HUMAN_REVIEW) && (status == RefusedPostModel <==> d == REFUSE || d == SILENCE)
  }

  function GatewayText(a: Answers): Option<string> {
    if a.transit.Completed? then a.transit.outputText else None
  }

  ghost predicate Invoked(trace: seq<Effect>) { exists k :: 0 <= k < |trace| && trace[k].Invoke? }

  ghost predicate AskedVault(trace: seq<Effect>) { exists k :: 0 <= k < |trace| && trace[k].VaultWrite? }

  ghost predicate VaultThrew(trace: seq<Effect>) {
    exists k :: 0 <= k < |trace| && trace[k].VaultWrite? && trace[k].written.None?
  }

  /** A receipt needs the v1 emitter's answer, and without a v2 layer nothing else. */
  predicate ReceiptAnswered(a: Answers, report: Report) {
    (report.emitted ==> a.emitV1.Some?) && (a.emitV1.Some? && !a.v2Configured ==> report.emitted)
  }

  /** A request to remember may persist: not suppressed after the model, and under one of four decisions. */
  ghost predicate MayPersist(a: Answers) {
    a.memoryRequested && a.postModel.decision != MEMORY_SUPPRESS
    && a.memoryDecision.decision in {ALLOW, RECEIPT_ONLY, MODIFY, REDACT}
  }

  /** When the model and the vault are called at all, what they answer, and what is disclosed of the output. */
  ghost predicate ResponseContract(a: Answers, o: Outcome, trace: seq<Effect>) {
    && (o.Rejected? ==> a.finalizeThrows || a.loggerThrows)
    && (o.Returned? && PolicyCompiled(a) ==> ReceiptAnswered(a, o.result.receipt))
    && (Invoked(trace) <==> CallsModel(a))
    && (CallsModel(a) && !a.viaGateway ==> (Invoke(true) in trace <==> a.directModel.Some?))
    && (WroteMemory(trace) <==> AskedVault(trace) && a.vault == Some(true))
    && (AskedVault(trace) <==> Invoke(true) in trace && MayPersist(a))
    && (forall d, w :: VaultWrite(d, w) in trace ==> d == a.memoryDecision.decision)
    && (o.Returned? && o.result.status == Status.Completed ==> Invoke(true) in trace)
    && (o.Returned? && o.result.receipt.emitted && Invoke(true) in trace ==>
          if VaultThrew(trace) then o.result.status == FailedClosed && o.result.responseText.None?
          else Disclosed(a, o.result.status, o.result.responseText))
  }

  /******** What a run carries ********/

  /** The first gate that stops a run before the model, in the order in which they are asked. */
  datatype Stop = AtPreRetrieval | AtRetrieval | AtTaint | AtPreModel | AtReservation | Nowhere

  ghost predicate RetrievalFaulty(a: Answers) {
    a.crossTenant ||
    (a.retrievalEnabled &&
      ((a.rejectCallerSuppliedContexts && a.callerContexts > 0) || a.provider == Some(false)
       || (a.provider.None? && a.requireProviderWhenEnabled)))
  }

  ghost predicate TaintStops(a: Answers) {
    a.untrustedInstruction && !a.allowTaintedDigestOnly && (a.rejectCallerSuppliedContexts
        || a.requireProviderWhenEnabled)
    && a.preModel.decision in {ALLOW, RECEIPT_ONLY, MODIFY}
  }

  ghost function FirstStop(a: Answers): Stop {
    if a.preRetrieval.decision !in {ALLOW, RECEIPT_ONLY, MODIFY, REDACT} then AtPreRetrieval
    else if RetrievalFaulty(a) then AtRetrieval
    else if TaintStops(a) then AtTaint
    else if a.preModel.decision !in {ALLOW, RECEIPT_ONLY, MODIFY} then AtPreModel
    else if a.nonceStore.Some? && a.nonceStore.value != Reserved then AtReservation
    else Nowhere
  }

  /** Identity, nonce and allowlist pass, and a policy compiles. */
  ghost predicate Admitted(a: Answers) {
    a.identityAccepted && a.executionNonce.Some? && !(a.allowlistConfigured && !a.modelAllowed) && a.policyHash.Some?
  }

  /** The model is called exactly when the run is admitted, no gate stops it, and the prompt can be built. */
  lemma ModelIsCalledIff(a: Answers)
    ensures PolicyCompiled(a) <==> Admitted(a)
    ensures CallsModel(a) <==> Admitted(a) && FirstStop(a) == Nowhere && a.promptBuilt
  {
  }

  /** The model's answer is an output: the direct one, or a recorded response of status 200 with text. */
  predicate ModelAnswers(a: Answers, issued: nat) {
    if a.viaGateway then
      Recordable(a.transit, issued) && a.transit.statusCode == 200 && a.transit.outputText.Some?
    else a.directModel.Some?
  }

  /** Why and with which actions the runtime itself decides. */
  datatype Cause = Cause(reason: string, actions: seq<string>)

  ghost function RetrievalCause(a: Answers): Cause {
    if a.retrievalEnabled && a.rejectCallerSuppliedContexts && a.callerContexts > 0 then
      Cause("caller-supplied retrieval context is not trusted in this runtime mode",
            ["block_model_invocation", "quarantine_retrieval"])
    else if a.retrievalEnabled && a.provider == Some(false) then
      Cause("server-side retrieval provider failed", ["fail_closed"])
    else if a.retrievalEnabled && a.provider.None? && a.requireProviderWhenEnabled then
      Cause("server-side retrieval provider is required when retrieval is enabled", ["block_model_invocation"])
    else
      Cause("cross-tenant retrieval contamination detected", ["block_model_invocation", "quarantine_retrieval"])
  }

  ghost function ReplayCause(a: Answers): Cause {
    if a.nonceStore == Some(Replayed) then
      Cause("execution nonce has already been used for this context", ["block_replay", "fail_closed"])
    else if a.nonceStore == Some(Mismatched) then
      Cause("execution nonce replay detected", ["block_replay", "fail_closed"])
    else
      Cause("execution nonce reservation failed", ["block_replay", "fail_closed"])
  }

  const TAINT_CAUSE := Cause("untrusted retrieval instructions detected before prompt construction",
                             ["block_model_invocation", "quarantine_retrieval", "digest_only_receipt"])

  const NO_OUTPUT_CAUSE := Cause("model invocation failed", ["fail_closed"])

  const SUPPRESSION_CAUSE := Cause("post-model decision suppressed memory persistence", ["drop_memory_write"])

  /** The runtime's own decision: under the compiled policy, and matched by no rule. */
  ghost predicate FromRuntime(a: Answers, d: PolicyDecision, phase: Phase, kind: DecisionKind,
      cause: Cause, risk: real) {
    && d.phase == phase && d.decision == kind && d.riskScore == risk
    && d.reasons == [cause.reason] && d.actionTaken == cause.actions
    && d.policyVersion == a.policyVersion && Some(d.policyHash) == a.policyHash
    && d.matchedRuleIds == [] && d.matchedLayers == []
  }

  /** The two decisions that go into the receipt and the result. */
  ghost predicate CarriesDecisions(a: Answers, pre: PolicyDecision, post: PolicyDecision, modelAnswered: bool) {
    match FirstStop(a)
    case AtPreRetrieval =>
      var cause := Cause("pre-retrieval decision blocked model invocation", a.preRetrieval.actionTaken);
      FromRuntime(a, pre, PreModel, a.preRetrieval.decision, cause, a.preRetrieval.riskScore) && post == pre
    case AtRetrieval => FromRuntime(a, pre, PreModel, REFUSE, RetrievalCause(a), 1.0) && post == pre
    case AtTaint => FromRuntime(a, pre, PreModel, ESCALATE, TAINT_CAUSE, 1.0) && post == pre
    case AtPreModel => pre == a.preModel && post == pre
    case AtReservation => FromRuntime(a, pre, PreModel, REFUSE, ReplayCause(a), 1.0) && post == pre
    case Nowhere =>
      && pre == a.preModel
      && if modelAnswered then post == a.postModel else FromRuntime(a, post, PostModel, REFUSE, NO_OUTPUT_CAUSE, 1.0)
  }

  /** The status of a run that a decision stopped before the model and whose receipt is out. */
  ghost predicate StatusOfBlock(d: DecisionKind, status: Status) {
    && (status == RequiresConsent <==> d == REQUIRE_CONSENT) && (status == Escalated <==> d == ESCALATE)
    && (status == HumanReview <==> d == HUMAN_REVIEW) && (status == RefusedPreModel <==> d == REFUSE || d == SILENCE)
    && (status == FailedClosed <==> d !in {REQUIRE_CONSENT, ESCALATE, HUMAN_REVIEW, REFUSE, SILENCE})
  }

  /** The status once the receipt is out; behind a model that answered, `Disclosed` says it. */
  ghost predicate StatusOfStop(a: Answers, status: Status, modelAnswered: bool) {
    match FirstStop(a)
    case AtPreRetrieval => StatusOfBlock(a.preRetrieval.decision, status)
    case AtRetrieval => status == FailedClosed
    case AtTaint => status == Escalated
    case AtPreModel => StatusOfBlock(a.preModel.decision, status)
    case AtReservation => status == FailedClosed
    case Nowhere => !modelAnswered ==> status == FailedClosed
  }

  /** The memory decision: none without a request or an output, suppression if the model's output asks for it. */
  ghost predicate CarriesMemory(a: Answers, memory: Option<PolicyDecision>, attempted: bool, modelAnswered: bool) {
    && (attempted <==> modelAnswered && a.memoryRequested) && (memory.Some? <==> attempted)
    && (attempted && a.postModel.decision != MEMORY_SUPPRESS ==> memory.value == a.memoryDecision)
    && (attempted && a.postModel.decision == MEMORY_SUPPRESS ==>
          && FromRuntime(a, memory.value, MemoryWrite, MEMORY_SUPPRESS, SUPPRESSION_CAUSE, memory.value.riskScore)
          && memory.value.riskScore in {a.postModel.riskScore, a.memoryDecision.riskScore}
          && memory.value.riskScore >= a.postModel.riskScore && memory.value.riskScore >= a.memoryDecision.riskScore)
  }

  /** The receipt report, against what the two emitters answered. */
  ghost predicate ReportFits(a: Answers, report: Report) {
    && (report.emitted ==> a.emitV1.Some?) && report.receiptId == (if report.emitted then a.emitV1 else None)
    && (report.v2.Some? <==> a.v2Configured)
    && (report.v2.Some? ==>
          && (report.v2.value == V2NotAttempted <==> a.emitV1.None?)
          && (report.v2.value.V2Emitted? ==> a.emitV2 == Some(report.v2.value.receiptId))
          && (report.v2.value == V2Failed ==> a.emitV2.None?)
          && (report.emitted <==> report.v2.value.V2Emitted?))
    && (report.v2.None? ==> (report.emitted <==> a.emitV1.Some?))
  }

  /** The metrics of a result: one for each of two statuses, and one for a suppressed memory. */
  ghost predicate NeedsMetric(r: Result) {
    r.status in {Status.Completed, FailedClosed} || (r.memoryWrite.Some?
        && r.memoryWrite.value.decision == MEMORY_SUPPRESS)
  }

  /** The result that a run builds once its policy is compiled, with the one emission of its trace. */
  ghost predicate Carries(a: Answers, r: Result, trace: seq<Effect>) {
    var emissions, modelAnswered := V1Emissions(trace), Invoke(true) in trace;
    |emissions| == 1 &&
    var em := emissions[0];
    && CarriesDecisions(a, em.pre, em.post, modelAnswered) && (em.modelSucceeded <==> modelAnswered)
    && (em.memoryWritten <==> WroteMemory(trace))
    && r.preRetrieval == Some(a.preRetrieval) && r.preModel == em.pre && r.postModel == Some(em.post)
    && r.memoryWritten == em.memoryWritten && r.receiptAttempted
    && (if r.receipt.emitted then StatusOfStop(a, r.status, modelAnswered) else r.status == FailedClosed)
    && CarriesMemory(a, r.memoryWrite, r.memoryAttempted, modelAnswered) && ReportFits(a, r.receipt)
  }

  /** The refusal before a policy is compiled: no receipt, and a decision under no policy. */
  ghost predicate RefusedWithoutPolicy(a: Answers, r: Result) {
    var d := r.preModel;
    && r.status == FailedClosed && r.responseText.None? && r.preRetrieval.None? && r.postModel.None?
        && r.memoryWrite.None?
    && !r.memoryAttempted && !r.memoryWritten && !r.receiptAttempted && r.receipt == Report(false, None, None)
    && d.phase == PreModel && d.decision == REFUSE && d.riskScore == 1.0
    && d.policyVersion == "unavailable" && |d.policyHash| == 64 && (forall c :: c in d.policyHash ==> c == '0')
    && (d.actionTaken == ["block_model_invocation"] <==>
        a.identityAccepted && a.executionNonce.Some? && a.allowlistConfigured && !a.modelAllowed)
    && d.actionTaken in [["block_model_invocation"], ["fail_closed"]]
  }

  /**
   * Which result a run builds, and whether it is answered: a metric that fails together with the logger rejects the
   * invocation exactly when the result needs a metric.
   */
  ghost predicate DecisionContract(a: Answers, o: Outcome, trace: seq<Effect>) {
    if PolicyCompiled(a) then
      exists r :: Carries(a, r, trace) && o == if a.finalizeThrows && NeedsMetric(r) then Rejected else Returned(r)
    else
      && (o.Rejected? <==> a.loggerThrows || a.finalizeThrows)
      && (o.Returned? ==> RefusedWithoutPolicy(a, o.result))
  }

  /******** Emission ********/

  function CustodyCount(a: Answers, ledger: TransitLedger): nat
    reads ledger
  {
    if a.ledgerConfigured then |ledger.transits| else 0
  }

  /** No custody ledger, or one without a record. */
  ghost predicate CustodyEmpty(a: Answers, ledger: TransitLedger)
    reads ledger
  {
    a.ledgerConfigured ==> ledger.transits == []
  }

  /** What one call of `emitReceipt` does to the outside. */
  ghost predicate EmissionEffects(a: Answers, em: Emission, report: Report, effects: seq<Effect>) {
    && 1 <= |effects| <= 2 && effects[0].EmitV1? && effects[0].emission == em && (effects[0].ok <==> a.emitV1.Some?)
    && (|effects| == 2 ==> effects[0].ok && effects[1].EmitV2? && effects[1].emission == em)
    && (report.emitted <==> effects[0].ok && (a.v2Configured ==> |effects| == 2 && effects[1].ok))
    && ReportFits(a, report)
  }

  method EmitReceiptV2Layer(a: Answers, ledger: TransitLedger, em: Emission)
      returns (v2: Option<V2Outcome>, effects: seq<Effect>)
    ensures v2.Some? <==> a.v2Configured
    ensures v2 == Some(V2EmptyCustody) <==> a.v2Configured && em.modelSucceeded && CustodyEmpty(a, ledger)
    ensures effects == if a.v2Configured && v2 != Some(V2EmptyCustody) then [EmitV2(em, v2.value.V2Emitted?)] else []
    ensures v2 != Some(V2NotAttempted)
    ensures v2.Some? && v2.value.V2Emitted? ==> a.emitV2 == Some(v2.value.receiptId)
    ensures v2 == Some(V2Failed) ==> a.emitV2.None?
  {
    if !a.v2Configured {
      return None, [];
    }
    if em.modelSucceeded && CustodyCount(a, ledger) == 0 {
      return Some(V2EmptyCustody), [];
    }
    var answer := a.emitV2;
    v2 := Some(if answer.Some? then V2Emitted(answer.value) else V2Failed);
    effects := [EmitV2(em, answer.Some?)];
  }

  method EmitReceipt(a: Answers, ledger: TransitLedger, em: Emission) returns (report: Report, effects: seq<Effect>)
    ensures EmissionEffects(a, em, report, effects)
    ensures report.v2 == Some(V2EmptyCustody) <==>
            a.v2Configured && a.emitV1.Some? && em.modelSucceeded && CustodyEmpty(a, ledger)
  {
    var receiptId := a.emitV1;
    if receiptId.None? {
      return Report(false, None, if a.v2Configured then Some(V2NotAttempted) else None), [EmitV1(em, false)];
    }
    var v2, more := EmitReceiptV2Layer(a, ledger, em);
    effects := [EmitV1(em, true)] + more;
    if v2.None? || v2.value.V2Emitted? {
      return Report(true, receiptId, v2), effects;
    }
    report := Report(false, None, v2);
  }

  /** `finalizeResult` emits a metric for these two statuses and for every extra metric it is given. */
  predicate FinalizeThrows(a: Answers, status: Status, extraMetric: bool) {
    (status == Status.Completed || status == FailedClosed || extraMetric) && a.finalizeThrows
  }

  /******** From a prefix without emissions to a whole run ********/

  /** The effects before the first emission. */
  ghost predicate Quiet(a: Answers, prefix: seq<Effect>) {
    && InvokeDiscipline(a, prefix) && VaultDiscipline(prefix)
    && forall k :: 0 <= k < |prefix| ==> !prefix[k].EmitV1? && !prefix[k].EmitV2?
  }

  lemma {:induction false} QuietHasNoEmissions(trace: seq<Effect>)
    requires forall k :: 0 <= k < |trace| ==> !trace[k].EmitV1?
    ensures V1Emissions(trace) == []
  {
    if |trace| > 0 {
      QuietHasNoEmissions(trace[..|trace| - 1]);
    }
  }

  lemma V1EmissionsAppend(trace: seq<Effect>, em: Emission, effects: seq<Effect>)
    requires 1 <= |effects| <= 2 && effects[0].EmitV1? && effects[0].emission == em
             && (|effects| == 2 ==> effects[1].EmitV2?)
    ensures V1Emissions(trace + effects) == V1Emissions(trace) + [em]
  {
    var t := trace + effects;
    assert (trace + [effects[0]])[..|trace|] == trace;
    if |effects| == 1 {
      assert t == trace + [effects[0]];
    } else {
      assert t[..|t| - 1] == trace + [effects[0]];
    }
  }

  lemma InvokesAfterEmission(a: Answers, prefix: seq<Effect>, effects: seq<Effect>)
    requires InvokeDiscipline(a, prefix) && forall k :: 0 <= k < |effects| ==> !effects[k].Invoke?
    ensures InvokeDiscipline(a, prefix + effects)
  {
    hide GatesOpen;
    var trace := prefix + effects;
    forall k | 0 <= k < |trace| && trace[k].Invoke?
      ensures GatesOpen(a) && (a.nonceStore.Some? ==> exists j :: 0 <= j < k && trace[j] == Reserve(Reserved))
    {
      assert prefix[k].Invoke?;
      if a.nonceStore.Some? {
        var j :| 0 <= j < k && prefix[j] == Reserve(Reserved);
        assert trace[j] == Reserve(Reserved);
      }
    }
  }

  lemma WritesAfterEmission(prefix: seq<Effect>, effects: seq<Effect>)
    requires VaultDiscipline(prefix) && forall k :: 0 <= k < |effects| ==> !effects[k].VaultWrite?
    ensures VaultDiscipline(prefix + effects)
  {
    hide MemoryWriteAllowed;
    var trace := prefix + effects;
    forall k | 0 <= k < |trace| && trace[k].VaultWrite?
      ensures MemoryWriteAllowed(trace[k].decision) && exists j :: 0 <= j < k && trace[j] == Invoke(true)
    {
      assert prefix[k].VaultWrite?;
      var j :| 0 <= j < k && prefix[j] == Invoke(true);
      assert trace[j] == Invoke(true);
    }
  }

  lemma DisciplineAfterEmission(a: Answers, prefix: seq<Effect>, em: Emission, report: Report, effects: seq<Effect>)
    requires Quiet(a, prefix) && EmissionEffects(a, em, report, effects)
    ensures TraceDiscipline(a, prefix + effects)
  {
    hide InvokeDiscipline, VaultDiscipline;
    var trace := prefix + effects;
    assert forall k :: 0 <= k < |trace| ==> trace[k] == if k < |prefix| then prefix[k] else effects[k - |prefix|];
    InvokesAfterEmission(a, prefix, effects);
    WritesAfterEmission(prefix, effects);
  }

  /** The result an exit builds from its decisions and its emission report. */
  function ExitResult(status: Status, text: Option<string>, preRetrieval: PolicyDecision, em: Emission,
                      memory: Option<PolicyDecision>, memoryAttempted: bool, report: Report): Result {
    Result(if report.emitted then status else FailedClosed, if report.emitted then text else None,
           Some(preRetrieval), em.pre, Some(em.post), memory, memoryAttempted, em.memoryWritten, true, report)
  }

  /** One emission after a quiet prefix fulfils the contract. */
  lemma ExitIsSound(a: Answers, prefix: seq<Effect>, em: Emission, report: Report, effects: seq<Effect>,
                    status: Status, text: Option<string>, memory: Option<PolicyDecision>, attempted: bool)
    requires Quiet(a, prefix) && EmissionEffects(a, em, report, effects) && PolicyCompiled(a)
    requires text.Some? ==> Invoke(true) in prefix
    requires em.memoryWritten <==> WroteMemory(prefix)
    requires em.memoryWritten ==> status != FailedClosed
    ensures RunContract(a, Returned(ExitResult(status, text, a.preRetrieval, em, memory, attempted, report)),
            prefix + effects)
    ensures RunContract(a, Rejected, prefix + effects)
  {
    hide GatesOpen, PolicyCompiled, InvokeDiscipline, VaultDiscipline, EmissionDiscipline, WroteMemory;
    DisciplineAfterEmission(a, prefix, em, report, effects);
    QuietHasNoEmissions(prefix);
    V1EmissionsAppend(prefix, em, effects);
    TailFacts(a, prefix, em, report, effects);
  }

  lemma TailFacts(a: Answers, prefix: seq<Effect>, em: Emission, report: Report, effects: seq<Effect>)
    requires Quiet(a, prefix) && EmissionEffects(a, em, report, effects)
    ensures report.emitted ==> EmitV1(em, true) in prefix + effects
    ensures report.emitted && a.v2Configured ==> EmitV2(em, true) in prefix + effects
    ensures Invoke(true) in prefix ==> Invoke(true) in prefix + effects
    ensures WroteMemory(prefix + effects) <==> WroteMemory(prefix)
  {
    hide InvokeDiscipline, VaultDiscipline;
    var trace := prefix + effects;
    assert forall k :: 0 <= k < |trace| ==> trace[k] == if k < |prefix| then prefix[k] else effects[k - |prefix|];
    if report.emitted {
      assert trace[|prefix|] == EmitV1(em, true);
      if a.v2Configured { assert trace[|prefix| + 1] == EmitV2(em, true); }
    }
    if k :| 0 <= k < |prefix| && prefix[k].VaultWrite? && prefix[k].written == Some(true) {
      assert trace[k].VaultWrite? && trace[k].written == Some(true);
    }
    if k :| 0 <= k < |trace| && trace[k].VaultWrite? && trace[k].written == Some(true) {
      assert prefix[k].VaultWrite?;
    }
  }

  /** Nothing but emissions follows the prefix. */
  ghost predicate OnlyEmissionsAfter(prefix: seq<Effect>, trace: seq<Effect>) {
    prefix <= trace && forall k :: |prefix| <= k < |trace| ==> trace[k].EmitV1? || trace[k].EmitV2?
  }

  lemma EmissionsCallNothing(prefix: seq<Effect>, trace: seq<Effect>)
    requires OnlyEmissionsAfter(prefix, trace)
    ensures Invoked(trace) <==> Invoked(prefix)
    ensures AskedVault(trace) <==> AskedVault(prefix)
    ensures VaultThrew(trace) <==> VaultThrew(prefix)
    ensures WroteMemory(trace) <==> WroteMemory(prefix)
    ensures Invoke(true) in trace <==> Invoke(true) in prefix
    ensures forall d, w :: VaultWrite(d, w) in trace ==> VaultWrite(d, w) in prefix
  {
    assert forall k :: 0 <= k < |prefix| ==> trace[k] == prefix[k];
    if k :| 0 <= k < |prefix| && prefix[k].Invoke? { assert trace[k].Invoke?; }
    if k :| 0 <= k < |prefix| && prefix[k].VaultWrite? { assert trace[k].VaultWrite?; }
    if k :| 0 <= k < |prefix| && prefix[k].VaultWrite? && prefix[k].written.None? {
      assert trace[k].VaultWrite? && trace[k].written.None?;
    }
    if k :| 0 <= k < |prefix| && prefix[k].VaultWrite? && prefix[k].written == Some(true) {
      assert trace[k].VaultWrite? && trace[k].written == Some(true);
    }
    if k :| 0 <= k < |prefix| && prefix[k] == Invoke(true) { assert trace[k] == Invoke(true); }
  }

  /** The effects before the emissions: a reservation, then a model call, then a vault write. */
  function Prefix(start: seq<Effect>, model: Option<bool>, vault: Option<(DecisionKind, Option<bool>)>): seq<Effect> {
    start + (if model.Some? then [Invoke(model.value)] else []) +
        (if vault.Some? then [VaultWrite(vault.value.0, vault.value.1)] else [])
  }

  lemma StartIsPrefix(start: seq<Effect>)
    ensures Prefix(start, None, None) == start
  {
  }

  lemma PrefixGrows(start: seq<Effect>, ok: bool, write: (DecisionKind, Option<bool>))
    ensures Prefix(start, None, None) == start && Prefix(start, Some(ok), None) == start + [Invoke(ok)]
    ensures Prefix(start, Some(ok), Some(write)) == start + [Invoke(ok)] + [VaultWrite(write.0, write.1)]
  {
  }

  lemma PrefixCalls(start: seq<Effect>, model: Option<bool>, vault: Option<(DecisionKind, Option<bool>)>)
    requires forall k :: 0 <= k < |start| ==> start[k].Reserve?
    ensures var p := Prefix(start, model, vault);
            && (Invoked(p) <==> model.Some?) && (Invoke(true) in p <==> model == Some(true))
            && (AskedVault(p) <==> vault.Some?) && (VaultThrew(p) <==> vault.Some? && vault.value.1.None?)
            && (WroteMemory(p) <==> vault.Some? && vault.value.1 == Some(true))
            && (forall d, w :: VaultWrite(d, w) in p ==> vault == Some((d, w)))
  {
    var p := Prefix(start, model, vault);
    if model.Some? { assert p[|start|] == Invoke(model.value); }
    if vault.Some? { assert p[|p| - 1] == VaultWrite(vault.value.0, vault.value.1); }
  }

  lemma PersistsIff(a: Answers)
    ensures MayPersist(a) <==> a.memoryRequested && MemoryWriteAllowed(MemoryDecision(a))
    ensures MayPersist(a) ==> MemoryDecision(a) == a.memoryDecision.decision
  {
  }

  /** What an exit answers, against what was called before it. */
  lemma ResponseIsSound(a: Answers, start: seq<Effect>, model: Option<bool>,
      vault: Option<(DecisionKind, Option<bool>)>,
                        o: Outcome, trace: seq<Effect>)
    requires (forall k :: 0 <= k < |start| ==> start[k].Reserve?)
             && OnlyEmissionsAfter(Prefix(start, model, vault), trace)
    requires o.Rejected? ==> a.finalizeThrows || a.loggerThrows
    requires o.Returned? && PolicyCompiled(a) ==> ReceiptAnswered(a, o.result.receipt)
    requires (model.Some? <==> CallsModel(a)) && (model.Some? && !a.viaGateway ==> model == Some(a.directModel.Some?))
    requires vault.Some? ==> vault.value == (a.memoryDecision.decision, a.vault)
    requires vault.Some? <==> model == Some(true) && a.memoryRequested && MemoryWriteAllowed(MemoryDecision(a))
    requires o.Returned? && o.result.status == Status.Completed ==> model == Some(true)
    requires o.Returned? && o.result.receipt.emitted && model == Some(true) ==>
               if vault.Some? && vault.value.1.None? then o.result.status == FailedClosed && o.result.responseText.None?
               else Disclosed(a, o.result.status, o.result.responseText)
    ensures ResponseContract(a, o, trace) && (Invoke(true) in trace <==> model == Some(true))
  {
    hide Invoked, AskedVault, VaultThrew, WroteMemory, OnlyEmissionsAfter, Prefix, CallsModel, ReceiptAnswered,
      PolicyCompiled, Disclosed, MemoryWriteAllowed, MemoryDecision, MayPersist;
    PersistsIff(a);
    PrefixCalls(start, model, vault);
    EmissionsCallNothing(Prefix(start, model, vault), trace);
  }

  predicate Suppressed(memory: Option<PolicyDecision>) {
    memory.Some? && memory.value.decision == MEMORY_SUPPRESS
  }

  lemma ExitTrace(a: Answers, prefix: seq<Effect>, em: Emission, report: Report, effects: seq<Effect>)
    requires Quiet(a, prefix) && EmissionEffects(a, em, report, effects)
    ensures V1Emissions(prefix + effects) == [em] && ReportFits(a, report)
    ensures Invoke(true) in prefix + effects <==> Invoke(true) in prefix
    ensures WroteMemory(prefix + effects) <==> WroteMemory(prefix)
  {
    hide InvokeDiscipline, VaultDiscipline, WroteMemory, ReportFits, V1Emissions;
    QuietHasNoEmissions(prefix);
    V1EmissionsAppend(prefix, em, effects);
    assert [] + [em] == [em];
    TailFacts(a, prefix, em, report, effects);
    NoInvokeBehind(prefix, effects);
  }

  /** An exit carries the decisions and the status that its caller took. */
  lemma ExitCarries(a: Answers, prefix: seq<Effect>, em: Emission, report: Report, effects: seq<Effect>,
                    status: Status, text: Option<string>, memory: Option<PolicyDecision>, attempted: bool)
    requires Quiet(a, prefix) && EmissionEffects(a, em, report, effects)
    requires em.memoryWritten <==> WroteMemory(prefix)
    requires CarriesDecisions(a, em.pre, em.post, em.modelSucceeded) && StatusOfStop(a, status, em.modelSucceeded)
    requires CarriesMemory(a, memory, attempted, em.modelSucceeded) && (em.modelSucceeded <==> Invoke(true) in prefix)
    ensures Carries(a, ExitResult(status, text, a.preRetrieval, em, memory, attempted, report), prefix + effects)
  {
    hide Quiet, EmissionEffects, WroteMemory, CarriesDecisions, StatusOfStop, CarriesMemory, ReportFits, V1Emissions;
    ExitTrace(a, prefix, em, report, effects);
  }

  lemma NoInvokeBehind(prefix: seq<Effect>, effects: seq<Effect>)
    requires forall k :: 0 <= k < |effects| ==> !effects[k].Invoke?
    ensures Invoke(true) in prefix + effects <==> Invoke(true) in prefix
  {
    var trace := prefix + effects;
    assert forall k :: 0 <= k < |trace| ==> trace[k] == if k < |prefix| then prefix[k] else effects[k - |prefix|];
    if k :| 0 <= k < |prefix| && prefix[k] == Invoke(true) { assert trace[k] == Invoke(true); }
  }

  /******** The invocation ********/

  /** Emits the receipt of an exit and finalises its result. */
  method Exit(a: Answers, ledger: TransitLedger, prefix: seq<Effect>, em: Emission, status: Status,
      text: Option<string>,
              memory: Option<PolicyDecision>, memoryAttempted: bool, extraMetric: bool)
    returns (o: Outcome, trace: seq<Effect>)
    requires Quiet(a, prefix) && PolicyCompiled(a)
    requires text.Some? ==> Invoke(true) in prefix
    requires em.memoryWritten <==> WroteMemory(prefix)
    requires em.memoryWritten ==> status != FailedClosed
    requires CarriesDecisions(a, em.pre, em.post, em.modelSucceeded) && StatusOfStop(a, status, em.modelSucceeded)
    requires CarriesMemory(a, memory, memoryAttempted, em.modelSucceeded)
             && (em.modelSucceeded <==> Invoke(true) in prefix)
    requires (Suppressed(memory) ==> extraMetric) && (extraMetric && !Suppressed(memory) ==> status == FailedClosed)
    ensures RunContract(a, o, trace) && OnlyEmissionsAfter(prefix, trace) && DecisionContract(a, o, trace)
    ensures o.Rejected? ==> a.finalizeThrows
    ensures o.Returned? ==> ReceiptAnswered(a, o.result.receipt)
    ensures o.Returned? ==> o.result.status == (if o.result.receipt.emitted then status else FailedClosed)
    ensures o.Returned? ==> o.result.preModel == em.pre && o.result.postModel == Some(em.post)
    ensures o.Returned? && o.result.receipt.emitted ==> o.result.responseText == text
    ensures o.Returned? ==>
              (o.result.receipt.v2 == Some(V2EmptyCustody) <==>
              a.v2Configured && a.emitV1.Some? && em.modelSucceeded && CustodyEmpty(a, ledger))
  {
    hide RunContract, Quiet, PolicyCompiled, WroteMemory, Carries, CarriesDecisions, CarriesMemory,
      StatusOfStop, ReportFits;
    var report, effects := EmitReceipt(a, ledger, em);
    ExitIsSound(a, prefix, em, report, effects, status, text, memory, memoryAttempted);
    ExitCarries(a, prefix, em, report, effects, status, text, memory, memoryAttempted);
    var result := ExitResult(status, text, a.preRetrieval, em, memory, memoryAttempted, report);
    trace := prefix + effects;
    o := if FinalizeThrows(a, result.status, extraMetric) then Rejected else Returned(result);
  }

  ghost predicate NoVault(prefix: seq<Effect>) {
    forall k :: 0 <= k < |prefix| ==> !prefix[k].VaultWrite?
  }

  /** Nothing but a reservation, as the configuration asks for it. */
  ghost predicate Started(a: Answers, prefix: seq<Effect>) {
    prefix == if a.nonceStore.Some? then [Reserve(a.nonceStore.value)] else []
  }

  lemma StartIsQuiet(a: Answers, prefix: seq<Effect>)
    requires Started(a, prefix) || prefix == []
    ensures Quiet(a, prefix) && NoVault(prefix) && !WroteMemory(prefix)
  {
  }

  lemma InvokeIsQuiet(a: Answers, prefix: seq<Effect>, succeeded: bool)
    requires GatesOpen(a) && Started(a, prefix) && (a.nonceStore.Some? ==> a.nonceStore.value == Reserved)
    ensures Quiet(a, prefix + [Invoke(succeeded)]) && NoVault(prefix + [Invoke(succeeded)])
            && !WroteMemory(prefix + [Invoke(succeeded)])
    ensures succeeded ==> Invoke(true) in prefix + [Invoke(succeeded)]
  {
    var trace := prefix + [Invoke(succeeded)];
    assert trace[|prefix|] == Invoke(succeeded);
    if a.nonceStore.Some? { assert trace[0] == Reserve(Reserved); }
  }

  lemma VaultIsQuiet(a: Answers, prefix: seq<Effect>, d: DecisionKind, written: Option<bool>)
    requires Quiet(a, prefix) && NoVault(prefix) && Invoke(true) in prefix && MemoryWriteAllowed(d)
    ensures Quiet(a, prefix + [VaultWrite(d, written)]) && Invoke(true) in prefix + [VaultWrite(d, written)]
    ensures WroteMemory(prefix + [VaultWrite(d, written)]) <==> written == Some(true)
  {
    hide GatesOpen;
    var trace := prefix + [VaultWrite(d, written)];
    assert forall k :: 0 <= k < |prefix| ==> trace[k] == prefix[k];
    assert trace[|prefix|] == VaultWrite(d, written);
    var n :| 0 <= n < |prefix| && prefix[n] == Invoke(true);
    assert trace[n] == Invoke(true);
    forall k | 0 <= k < |trace| && trace[k].Invoke?
      ensures GatesOpen(a) && (a.nonceStore.Some? ==> exists j :: 0 <= j < k && trace[j] == Reserve(Reserved))
    {
      assert prefix[k].Invoke?;
      if a.nonceStore.Some? {
        var j :| 0 <= j < k && prefix[j] == Reserve(Reserved);
        assert trace[j] == Reserve(Reserved);
      }
    }
  }

  /** For all answers of all dependencies, the run keeps its contract. */
  method GovernedInvoke(a: Answers, ledger: TransitLedger) returns (o: Outcome, trace: seq<Effect>)
    requires ledger.Valid()
    modifies ledger
    ensures ledger.Valid()
    ensures RunContract(a, o, trace) && ResponseContract(a, o, trace) && DecisionContract(a, o, trace)
    ensures a.viaGateway && a.ledgerConfigured && o.Returned? ==> o.result.receipt.v2 != Some(V2EmptyCustody)
    ensures Invoke(true) in trace <==> CallsModel(a) && ModelAnswers(a, old(ledger.allocatedSequenceCount))
    ensures o.Returned? ==>
              (o.result.receipt.v2 == Some(V2EmptyCustody) <==>
              a.v2Configured && a.emitV1.Some? && Invoke(true) in trace && CustodyEmpty(a, ledger))
  {
    hide RunContract, ResponseContract, OnlyEmissionsAfter, Prefix, Quiet, GatesOpen, PolicyCompiled, WroteMemory,
      Disclosed, CallsModel, DecisionContract, CarriesDecisions, StatusOfStop, CarriesMemory, FirstStop, FromRuntime;
    ClosedGatesCallNothing(a);
    if !PolicyCompiled(a) {
      o := RefuseBeforePolicy(a);
      trace := [];
      NoEmissionsYet([]);
      StartIsPrefix([]);
      ResponseIsSound(a, [], None, None, o, []);
      return;
    }
    var blocked := BlockBeforeModel(a);
    if blocked.Some? {
      var d := blocked.value.decision;
      StartIsQuiet(a, []);
      NoMemoryYet(a);
      o, trace := Exit(a, ledger, [], Emission(d, d, false, false), blocked.value.status, None, None, false,
          blocked.value.extraMetric);
      StartIsPrefix([]);
      ResponseIsSound(a, [], None, None, o, trace);
      return;
    }
    CallsBehindGates(a);
    if a.nonceStore.Some? && a.nonceStore.value != Reserved {
      o, trace := RefuseReservation(a, ledger);
      return;
    }
    o, trace := InvokeAndFinish(a, ledger);
  }

  /** A replayed nonce, or a reservation that failed: a refusal receipt, and the model is not called. */
  method RefuseReservation(a: Answers, ledger: TransitLedger) returns (o: Outcome, trace: seq<Effect>)
    requires GatesOpen(a) && a.nonceStore.Some? && a.nonceStore.value != Reserved
    ensures RunContract(a, o, trace) && ResponseContract(a, o, trace) && DecisionContract(a, o, trace)
    ensures o.Returned? ==> o.result.status == FailedClosed && o.result.preModel.decision == REFUSE
    ensures o.Returned? ==> o.result.receipt.v2 != Some(V2EmptyCustody)
    ensures Invoke(true) !in trace
  {
    hide ReservationReason, RunContract, ResponseContract, OnlyEmissionsAfter, Prefix, Quiet, GatesOpen, PolicyCompiled,
      WroteMemory, Disclosed, Synthetic, Suppressed,
      DecisionContract, CarriesDecisions, StatusOfStop, CarriesMemory, FirstStop, FromRuntime;
    GatesMeanCompiled(a);
    var prefix := [Reserve(a.nonceStore.value)];
    StartIsQuiet(a, prefix);
    StartIsPrefix(prefix);
    var d := Synthetic(a, PreModel, REFUSE, ReservationReason(a.nonceStore.value),
        ["block_replay", "fail_closed"], 1.0);
    CompiledHash(a);
    OpenGatesStopNowhere(a);
    RuntimeDecides(a, PreModel, REFUSE, ReservationReason(a.nonceStore.value), ["block_replay", "fail_closed"], 1.0);
    ReplayHasCause(a);
    CarriesReplay(a, d);
    NoMemoryYet(a);
    o, trace := Exit(a, ledger, prefix, Emission(d, d, false, false), FailedClosed, None, None, false, false);
    ResponseIsSound(a, prefix, None, None, o, trace);
  }

  function ReservationReason(o: ReserveOutcome): string {
    match o
    case Replayed => "execution nonce has already been used for this context"
    case Mismatched => "execution nonce replay detected"
    case _ => "execution nonce reservation failed"
  }

  /** The four exits before a policy is compiled: no receipt. */
  method RefuseBeforePolicy(a: Answers) returns (o: Outcome)
    requires !PolicyCompiled(a)
    ensures RunContract(a, o, [])
    ensures DecisionContract(a, o, [])
    ensures o.Rejected? ==> a.finalizeThrows || a.loggerThrows
    ensures o.Returned? ==> o.result.status == FailedClosed && o.result.receipt.v2.None?
  {
    if a.loggerThrows || FinalizeThrows(a, FailedClosed, false) {
      return Rejected;
    }
    var noPolicy := seq(64, _ => '0');
    var d := PolicyDecision(PreModel, REFUSE, "unavailable", noPolicy, [], [], ["fail_closed"], 1.0,
        ["runtime failed before policy decision"]);
    if a.identityAccepted && a.executionNonce.Some? && a.allowlistConfigured && !a.modelAllowed {
      d := d.(actionTaken := ["block_model_invocation"], reasons := ["model id is not in governed invoke allowlist"]);
    }
    o := Returned(Result(FailedClosed, None, None, d, None, None, false, false, false, Report(false, None, None)));
  }

  /** A decision taken before the model, with the status it has once its receipt is out. */
  datatype Blocked = Blocked(decision: PolicyDecision, status: Status, extraMetric: bool)

  /** The pre-retrieval gate, the retrieval checks, the taint check and the pre-model gate, in order. */
  method BlockBeforeModel(a: Answers) returns (b: Option<Blocked>)
    requires PolicyCompiled(a)
    ensures b.None? <==> GatesOpen(a)
    ensures b.None? <==> FirstStop(a) in {AtReservation, Nowhere}
    ensures b.Some? ==> b.value.status != Status.Completed && (b.value.extraMetric ==> b.value.status == FailedClosed)
    ensures b.Some? && b.value.status != FailedClosed ==>
              b.value.decision.decision in {REFUSE, SILENCE, ESCALATE, HUMAN_REVIEW, REQUIRE_CONSENT}
    ensures b.Some? ==> CarriesDecisions(a, b.value.decision, b.value.decision, false)
    ensures b.Some? ==> StatusOfStop(a, b.value.status, false)
  {
    hide FirstStop, CarriesDecisions, StatusOfStop, StatusOfBlock, FromRuntime, RetrievalFaulty,
      TaintStops, PolicyCompiled,
      GatesOpen, Synthetic, StatusForBlockingDecision, RetrievalOk, StrictTaintBlocking;
    GatesInOrder(a);
    if !RetrievalDecisionAllows(a.preRetrieval.decision) {
      var d := Synthetic(a, PreModel, a.preRetrieval.decision, "pre-retrieval decision blocked model invocation",
                         a.preRetrieval.actionTaken, a.preRetrieval.riskScore);
      StoppedAtPreRetrieval(a, d);
      return Some(Blocked(d, StatusForBlockingDecision(d.decision, RefusedPreModel), false));
    }
    b := BlockRetrieval(a);
    if b.Some? {
      StoppedAtRetrieval(a, b.value.decision);
      return;
    }
    if a.untrustedInstruction && StrictTaintBlocking(a) && ModelInvocationAllowed(a.preModel.decision) {
      var d := Synthetic(a, PreModel, ESCALATE, "untrusted retrieval instructions detected before prompt construction",
                         ["block_model_invocation", "quarantine_retrieval", "digest_only_receipt"], 1.0);
      StoppedByTaint(a, d);
      return Some(Blocked(d, StatusForBlockingDecision(ESCALATE, RefusedPreModel), false));
    }
    if !ModelInvocationAllowed(a.preModel.decision) {
      StoppedAtPreModel(a);
      return Some(Blocked(a.preModel, StatusForBlockingDecision(a.preModel.decision, RefusedPreModel), false));
    }
  }

  /** The gates as the code asks them are the gates of the contract. */
  lemma GatesInOrder(a: Answers)
    requires PolicyCompiled(a)
    ensures a.policyHash.Some?
    ensures GatesOpen(a) <==> FirstStop(a) in {AtReservation, Nowhere}
    ensures FirstStop(a) == AtPreRetrieval <==> !RetrievalDecisionAllows(a.preRetrieval.decision)
    ensures FirstStop(a) == AtRetrieval <==> RetrievalDecisionAllows(a.preRetrieval.decision) && RetrievalFaulty(a)
    ensures FirstStop(a) == AtTaint <==>
            && RetrievalDecisionAllows(a.preRetrieval.decision) && !RetrievalFaulty(a)
            && a.untrustedInstruction && StrictTaintBlocking(a) && ModelInvocationAllowed(a.preModel.decision)
    ensures FirstStop(a) == AtPreModel <==>
            && RetrievalDecisionAllows(a.preRetrieval.decision) && !RetrievalFaulty(a)
            && !ModelInvocationAllowed(a.preModel.decision)
  {
  }

  lemma BlockedStatus(d: DecisionKind)
    ensures var status := StatusForBlockingDecision(d, RefusedPreModel);
            && StatusOfBlock(d, status) && status != Status.Completed
            && (status != FailedClosed ==> d in {REFUSE, SILENCE, ESCALATE, HUMAN_REVIEW, REQUIRE_CONSENT})
            && (d == ESCALATE ==> status == Escalated)
  {
  }

  lemma StoppedAtPreRetrieval(a: Answers, d: PolicyDecision)
    requires FirstStop(a) == AtPreRetrieval && a.policyHash.Some?
    requires d == Synthetic(a, PreModel, a.preRetrieval.decision, "pre-retrieval decision blocked model invocation",
                            a.preRetrieval.actionTaken, a.preRetrieval.riskScore)
    ensures CarriesDecisions(a, d, d, false)
    ensures var status := StatusForBlockingDecision(d.decision, RefusedPreModel);
            && StatusOfStop(a, status, false) && status != Status.Completed
            && (status != FailedClosed ==> d.decision in {REFUSE, SILENCE, ESCALATE, HUMAN_REVIEW, REQUIRE_CONSENT})
  {
    hide FirstStop, FromRuntime, Synthetic, StatusOfBlock, StatusForBlockingDecision;
    RuntimeDecides(a, PreModel, a.preRetrieval.decision, "pre-retrieval decision blocked model invocation",
                   a.preRetrieval.actionTaken, a.preRetrieval.riskScore);
    BlockedStatus(d.decision);
  }

  lemma StoppedAtRetrieval(a: Answers, d: PolicyDecision)
    requires FirstStop(a) == AtRetrieval && FromRuntime(a, d, PreModel, REFUSE, RetrievalCause(a), 1.0)
    ensures CarriesDecisions(a, d, d, false) && StatusOfStop(a, FailedClosed, false)
  {
    hide FirstStop, FromRuntime;
  }

  lemma StoppedByTaint(a: Answers, d: PolicyDecision)
    requires FirstStop(a) == AtTaint && a.policyHash.Some?
    requires d == Synthetic(a, PreModel, ESCALATE,
             "untrusted retrieval instructions detected before prompt construction",
                            ["block_model_invocation", "quarantine_retrieval", "digest_only_receipt"], 1.0)
    ensures CarriesDecisions(a, d, d, false) && d.decision == ESCALATE
    ensures StatusForBlockingDecision(ESCALATE, RefusedPreModel) == Escalated && StatusOfStop(a, Escalated, false)
  {
    hide FirstStop, FromRuntime, Synthetic;
    RuntimeDecides(a, PreModel, ESCALATE, "untrusted retrieval instructions detected before prompt construction",
                   ["block_model_invocation", "quarantine_retrieval", "digest_only_receipt"], 1.0);
  }

  lemma StoppedAtPreModel(a: Answers)
    requires FirstStop(a) == AtPreModel
    ensures CarriesDecisions(a, a.preModel, a.preModel, false)
    ensures var status := StatusForBlockingDecision(a.preModel.decision, RefusedPreModel);
            && StatusOfStop(a, status, false) && status != Status.Completed
            && (status != FailedClosed ==>
                  a.preModel.decision in {REFUSE, SILENCE, ESCALATE, HUMAN_REVIEW, REQUIRE_CONSENT})
  {
    hide FirstStop, StatusOfBlock, StatusForBlockingDecision;
    BlockedStatus(a.preModel.decision);
  }

  datatype RetrievalFault = UntrustedContexts | ProviderFailed | ProviderMissing | Contaminated

  ghost function CauseOf(fault: RetrievalFault): Cause {
    match fault
    case UntrustedContexts =>
      Cause("caller-supplied retrieval context is not trusted in this runtime mode",
            ["block_model_invocation", "quarantine_retrieval"])
    case ProviderFailed => Cause("server-side retrieval provider failed", ["fail_closed"])
    case ProviderMissing =>
      Cause("server-side retrieval provider is required when retrieval is enabled", ["block_model_invocation"])
    case Contaminated =>
      Cause("cross-tenant retrieval contamination detected", ["block_model_invocation", "quarantine_retrieval"])
  }

  /** The synthetic decision of each fault; contamination alone counts a metric of its own. */
  function RetrievalBlock(a: Answers, fault: RetrievalFault): (b: Blocked)
    ensures b.status == FailedClosed && b.decision.decision == REFUSE
    ensures a.policyHash.Some? ==> FromRuntime(a, b.decision, PreModel, REFUSE, CauseOf(fault), 1.0)
  {
    var d := match fault
      case UntrustedContexts =>
        Synthetic(a, PreModel, REFUSE, "caller-supplied retrieval context is not trusted in this runtime mode",
                  ["block_model_invocation", "quarantine_retrieval"], 1.0)
      case ProviderFailed =>
        Synthetic(a, PreModel, REFUSE, "server-side retrieval provider failed", ["fail_closed"], 1.0)
      case ProviderMissing =>
        Synthetic(a, PreModel, REFUSE, "server-side retrieval provider is required when retrieval is enabled",
                  ["block_model_invocation"], 1.0)
      case Contaminated =>
        Synthetic(a, PreModel, REFUSE, "cross-tenant retrieval contamination detected",
                  ["block_model_invocation", "quarantine_retrieval"], 1.0);
    Blocked(d, FailedClosed, fault.Contaminated?)
  }

  /** The causes, in the order in which the code finds them. */
  lemma CauseInOrder(a: Answers)
    ensures a.retrievalEnabled && a.rejectCallerSuppliedContexts && a.callerContexts > 0 ==>
              RetrievalCause(a) == CauseOf(UntrustedContexts)
    ensures a.retrievalEnabled && !(a.rejectCallerSuppliedContexts && a.callerContexts > 0)
            && a.provider == Some(false) ==>
              RetrievalCause(a) == CauseOf(ProviderFailed)
    ensures a.retrievalEnabled && !(a.rejectCallerSuppliedContexts && a.callerContexts > 0) && a.provider.None?
            && a.requireProviderWhenEnabled ==>
              RetrievalCause(a) == CauseOf(ProviderMissing)
    ensures RetrievalOk(a) ==> RetrievalCause(a) == CauseOf(Contaminated)
  {
  }

  /** Caller-supplied contexts, the retrieval provider and cross-tenant contamination. */
  method BlockRetrieval(a: Answers) returns (b: Option<Blocked>)
    ensures b.None? <==> RetrievalOk(a) && !a.crossTenant
    ensures b.None? <==> !RetrievalFaulty(a)
    ensures b.Some? ==> b.value.status == FailedClosed && b.value.decision.decision == REFUSE
    ensures b.Some? && a.policyHash.Some? ==> FromRuntime(a, b.value.decision, PreModel, REFUSE, RetrievalCause(a), 1.0)
  {
    hide RetrievalBlock, FromRuntime, CauseOf, RetrievalCause;
    CauseInOrder(a);
    if a.retrievalEnabled {
      if a.rejectCallerSuppliedContexts && a.callerContexts > 0 {
        return Some(RetrievalBlock(a, UntrustedContexts));
      }
      if a.provider.Some? {
        if !a.provider.value {
          return Some(RetrievalBlock(a, ProviderFailed));
        }
      } else if a.requireProviderWhenEnabled {
        return Some(RetrievalBlock(a, ProviderMissing));
      }
    }
    if a.crossTenant {
      return Some(RetrievalBlock(a, Contaminated));
    }
    b := None;
  }

  lemma NoEmissionsYet(prefix: seq<Effect>)
    ensures OnlyEmissionsAfter(prefix, prefix)
  {
  }

  lemma ClosedGatesCallNothing(a: Answers)
    ensures CallsModel(a) ==>
              PolicyCompiled(a) && GatesOpen(a) && (a.nonceStore.Some? ==> a.nonceStore.value == Reserved)
  {
  }

  lemma CallsBehindGates(a: Answers)
    requires GatesOpen(a)
    ensures CallsModel(a) <==> (a.nonceStore.Some? ==> a.nonceStore.value == Reserved) && a.promptBuilt
  {
  }

  lemma StartReserves(a: Answers, prefix: seq<Effect>)
    requires Started(a, prefix)
    ensures forall k :: 0 <= k < |prefix| ==> prefix[k].Reserve?
  {
  }

  /** The exit behind a prompt that cannot be built or a model call that throws. */
  method FailWithoutOutput(a: Answers, ledger: TransitLedger, start: seq<Effect>)
      returns (o: Outcome, trace: seq<Effect>)
    requires GatesOpen(a) && Started(a, start) && (a.nonceStore.Some? ==> a.nonceStore.value == Reserved)
    requires a.promptBuilt && !a.viaGateway ==> a.directModel.None?
    ensures RunContract(a, o, trace) && ResponseContract(a, o, trace) && DecisionContract(a, o, trace)
    ensures o.Returned? ==> o.result.receipt.v2 != Some(V2EmptyCustody)
    ensures Invoke(true) !in trace
  {
    hide RunContract, ResponseContract, Quiet, GatesOpen, WroteMemory, NoVault, PolicyCompiled, OnlyEmissionsAfter,
      Disclosed, Prefix,
      MemoryWriteAllowed, MemoryDecision, Started, Synthetic, Suppressed,
      DecisionContract, CarriesDecisions, StatusOfStop, CarriesMemory, FirstStop, FromRuntime;
    GatesMeanCompiled(a);
    StartIsQuiet(a, start);
    StartIsPrefix(start);
    InvokeIsQuiet(a, start, false);
    PrefixGrows(start, false, (ALLOW, None));
    StartReserves(a, start);
    var failed := Synthetic(a, PostModel, REFUSE, "model invocation failed", ["fail_closed"], 1.0);
    var prefix := if a.promptBuilt then start + [Invoke(false)] else start;
    CompiledHash(a);
    OpenGatesStopNowhere(a);
    RuntimeDecides(a, PostModel, REFUSE, "model invocation failed", ["fail_closed"], 1.0);
    CarriesBehindGates(a, failed);
    NoMemoryYet(a);
    NoInvokeYet(start, prefix);
    o, trace := Exit(a, ledger, prefix, Emission(a.preModel, failed, false, false), FailedClosed, None,
        None, false, true);
    ResponseIsSound(a, start, if a.promptBuilt then Some(false) else None, None, o, trace);
  }

  /** The model call; without an output the run fails closed. */
  method InvokeAndFinish(a: Answers, ledger: TransitLedger) returns (o: Outcome, trace: seq<Effect>)
    requires ledger.Valid() && GatesOpen(a) && (a.nonceStore.Some? ==> a.nonceStore.value == Reserved)
    modifies ledger
    ensures ledger.Valid()
    ensures RunContract(a, o, trace) && ResponseContract(a, o, trace) && DecisionContract(a, o, trace)
    ensures a.viaGateway && a.ledgerConfigured && o.Returned? ==> o.result.receipt.v2 != Some(V2EmptyCustody)
    ensures Invoke(true) in trace <==> a.promptBuilt && ModelAnswers(a, old(ledger.allocatedSequenceCount))
    ensures o.Returned? ==>
              (o.result.receipt.v2 == Some(V2EmptyCustody) <==>
              a.v2Configured && a.emitV1.Some? && Invoke(true) in trace && CustodyEmpty(a, ledger))
  {
    hide RunContract, ResponseContract, Quiet, GatesOpen, WroteMemory, NoVault, PolicyCompiled, OnlyEmissionsAfter,
      Disclosed, Prefix,
      MemoryWriteAllowed, MemoryDecision, DecisionContract, CarriesDecisions, StatusOfStop, CarriesMemory,
          FirstStop, FromRuntime;
    GatesMeanCompiled(a);
    var start: seq<Effect> := if a.nonceStore.Some? then [Reserve(Reserved)] else [];
    var output: Option<string> := None;
    if a.promptBuilt {
      if a.viaGateway {
        output := GatewayInvoke(ledger, a.transit);
      } else {
        output := a.directModel;
      }
    }
    if output.None? {
      o, trace := FailWithoutOutput(a, ledger, start);
      return;
    }
    o, trace := FinishAfterModel(a, ledger, start, output.value);
  }

  /** The post-model decision, the memory write and the final receipt. */
  method FinishAfterModel(a: Answers, ledger: TransitLedger, start: seq<Effect>, output: string)
      returns (o: Outcome, trace: seq<Effect>)
    requires CallsModel(a) && Started(a, start) && Some(output) == if a.viaGateway then GatewayText(a)
             else a.directModel
    ensures RunContract(a, o, trace) && ResponseContract(a, o, trace) && DecisionContract(a, o, trace)
    ensures o.Returned? ==>
              (o.result.receipt.v2 == Some(V2EmptyCustody) <==>
              a.v2Configured && a.emitV1.Some? && CustodyEmpty(a, ledger))
    ensures Invoke(true) in trace
  {
    hide RunContract, ResponseContract, Quiet, GatesOpen, WroteMemory, NoVault, PolicyCompiled, OnlyEmissionsAfter,
      Disclosed, Prefix,
      MemoryWriteAllowed, MemoryDecision, Started, GatewayText, CustodyEmpty, Suppressed,
      DecisionContract, CarriesDecisions, StatusOfStop, CarriesMemory, FirstStop, FromRuntime;
    GatesMeanCompiled(a);
    StartReserves(a, start);
    InvokeIsQuiet(a, start, true);
    CompiledHash(a);
    OpenGatesStopNowhere(a);
    CarriesBehindGates(a, a.postModel);
    var status, text := PostModelEffect(a, output);
    var memory, vault := MemoryStage(a);
    PersistsIff(a);
    var prefix := start + [Invoke(true)];
    var write := if vault.Some? then Some((memory.value.decision, vault.value)) else None;
    PrefixGrows(start, true, if write.Some? then write.value else (ALLOW, None));
    if vault.Some? {
      VaultIsQuiet(a, prefix, memory.value.decision, vault.value);
      prefix := prefix + [VaultWrite(memory.value.decision, vault.value)];
      if vault.value.None? {
        o, trace := Exit(a, ledger, prefix, Emission(a.preModel, a.postModel, false, true), FailedClosed, None,
            memory, true, false);
        ResponseIsSound(a, start, Some(true), write, o, trace);
        return;
      }
    }
    var written := vault.Some? && vault.value.value;
    o, trace := Exit(a, ledger, prefix, Emission(a.preModel, a.postModel, written, true), status, text, memory,
        a.memoryRequested,
                     Suppressed(memory));
    ResponseIsSound(a, start, Some(true), write, o, trace);
  }

  /** The memory decision, and the vault's answer if it was asked. */
  method MemoryStage(a: Answers) returns (memory: Option<PolicyDecision>, vault: Option<Option<bool>>)
    ensures memory.Some? <==> a.memoryRequested
    ensures memory.Some? ==> memory.value.decision == MemoryDecision(a)
    ensures a.policyHash.Some? ==> CarriesMemory(a, memory, a.memoryRequested, true)
    ensures vault.Some? <==> memory.Some? && MemoryWriteAllowed(memory.value.decision)
    ensures vault.Some? ==> vault.value == a.vault && a.postModel.decision != MEMORY_SUPPRESS
    ensures vault.Some? ==> !Suppressed(memory)
  {
    if !a.memoryRequested {
      return None, None;
    }
    var decision := a.memoryDecision;
    if a.postModel.decision == MEMORY_SUPPRESS {
      decision := Synthetic(a, MemoryWrite, MEMORY_SUPPRESS, "post-model decision suppressed memory persistence",
          ["drop_memory_write"],
                            if decision.riskScore < a.postModel.riskScore then a.postModel.riskScore
                                else decision.riskScore);
    }
    memory := Some(decision);
    vault := if MemoryWriteAllowed(decision.decision) then Some(a.vault) else None;
  }

  lemma OpenGatesStopNowhere(a: Answers)
    requires GatesOpen(a)
    ensures FirstStop(a) == if a.nonceStore.Some? && a.nonceStore.value != Reserved then AtReservation else Nowhere
  {
  }

  lemma RuntimeDecides(a: Answers, phase: Phase, kind: DecisionKind, reason: string, actions: seq<string>, risk: real)
    requires a.policyHash.Some?
    ensures FromRuntime(a, Synthetic(a, phase, kind, reason, actions, risk), phase, kind, Cause(reason, actions), risk)
    ensures Synthetic(a, phase, kind, reason, actions, risk).decision == kind
    ensures Synthetic(a, phase, kind, reason, actions, risk).actionTaken == actions
  {
  }

  lemma CarriesBehindGates(a: Answers, post: PolicyDecision)
    requires FirstStop(a) == Nowhere
    ensures post == a.postModel ==> CarriesDecisions(a, a.preModel, post, true)
    ensures FromRuntime(a, post, PostModel, REFUSE, NO_OUTPUT_CAUSE, 1.0) ==>
            CarriesDecisions(a, a.preModel, post, false)
    ensures StatusOfStop(a, FailedClosed, false) && forall status :: StatusOfStop(a, status, true)
  {
    hide FirstStop, FromRuntime;
  }

  lemma ReplayHasCause(a: Answers)
    requires a.nonceStore.Some? && a.nonceStore.value != Reserved
    ensures ReplayCause(a) == Cause(ReservationReason(a.nonceStore.value), ["block_replay", "fail_closed"])
  {
  }

  lemma CarriesReplay(a: Answers, d: PolicyDecision)
    requires FirstStop(a) == AtReservation && FromRuntime(a, d, PreModel, REFUSE, ReplayCause(a), 1.0)
    ensures CarriesDecisions(a, d, d, false) && StatusOfStop(a, FailedClosed, false)
  {
    hide FirstStop, FromRuntime;
  }

  lemma NoInvokeYet(start: seq<Effect>, prefix: seq<Effect>)
    requires (forall k :: 0 <= k < |start| ==> start[k].Reserve?)
             && (prefix == start || prefix == start + [Invoke(false)])
    ensures Invoke(true) !in prefix
  {
  }

  lemma NoMemoryYet(a: Answers)
    ensures CarriesMemory(a, None, false, false) && !Suppressed(None)
  {
  }

  lemma CompiledHash(a: Answers)
    requires PolicyCompiled(a)
    ensures a.policyHash.Some?
  {
  }

  lemma GatesMeanCompiled(a: Answers)
    requires GatesOpen(a)
    ensures PolicyCompiled(a)
  {
  }

  /** The status and the text that a post-model decision leaves. */
  method PostModelEffect(a: Answers, output: string) returns (status: Status, text: Option<string>)
    requires Some(output) == if a.viaGateway then GatewayText(a) else a.directModel
    ensures status != FailedClosed && Disclosed(a, status, text)
  {
    status, text := Status.Completed, Some(output);
    if a.postModel.decision == REDACT {
      text := Some(a.redacted);
    } else if a.postModel.decision == REFUSE {
      status, text := RefusedPostModel, Some(REFUSAL_TEXT);
    } else if a.postModel.decision == SILENCE {
      status, text := RefusedPostModel, None;
    } else if a.postModel.decision in {ESCALATE, HUMAN_REVIEW, REQUIRE_CONSENT} {
      status, text := StatusForBlockingDecision(a.postModel.decision, RefusedPostModel), None;
    }
  }

  /******** Departures, at concrete answers ********/

  function Decided(phase: Phase, d: DecisionKind): PolicyDecision {
    PolicyDecision(phase, d, "1", "0", [], [], [], 0.0, [])
  }

  /** A run with open gates, a model that answers, a memory request and a vault that persists it. */
  function Remembering(post: DecisionKind, emitV1: Option<string>): Answers {
    Answers(true, Some("nonce-00"), false, false, Some("0"), "1", false, Decided(PreRetrieval, ALLOW), false, 0, false,
        false, false, None,
            false, false, Decided(PreModel, ALLOW), None, true, false, Severed, Some("output"),
                Decided(PostModel, post), "redacted", true,
            Decided(MemoryWrite, ALLOW), Some(true), emitV1, false, false, None, false)
  }

  lemma RememberingCallsModel(post: DecisionKind, emitV1: Option<string>)
    requires post != MEMORY_SUPPRESS
    ensures var a := Remembering(post, emitV1);
            CallsModel(a) && PolicyCompiled(a) && a.memoryRequested && MemoryWriteAllowed(MemoryDecision(a))
  {
  }

  /** `failed_closed` beside a completed memory write: the receipt fails after the vault has answered. */
  method FailsClosedAfterWriting(ledger: TransitLedger) returns (o: Outcome, trace: seq<Effect>)
    requires ledger.Valid()
    modifies ledger
    ensures o.Returned? && o.result.status == FailedClosed && o.result.memoryWritten && WroteMemory(trace)
  {
    hide CallsModel, PolicyCompiled, TraceDiscipline, V1Emissions, MemoryWriteAllowed, MemoryDecision, Disclosed,
      WroteMemory, Invoked, AskedVault;
    RememberingCallsModel(ALLOW, None);
    o, trace := GovernedInvoke(Remembering(ALLOW, None), ledger);
  }

  /** A post-model REFUSE replaces the text, and the memory is written all the same. */
  method RemembersRefusedOutput(ledger: TransitLedger) returns (o: Outcome, trace: seq<Effect>)
    requires ledger.Valid()
    modifies ledger
    ensures o.Returned? && o.result.status == RefusedPostModel && o.result.responseText == Some(REFUSAL_TEXT)
    ensures o.result.memoryWritten && WroteMemory(trace)
  {
    hide CallsModel, PolicyCompiled, TraceDiscipline, V1Emissions, MemoryWriteAllowed, MemoryDecision, WroteMemory,
      Invoked, AskedVault;
    RememberingCallsModel(REFUSE, Some("grct_0"));
    o, trace := GovernedInvoke(Remembering(REFUSE, Some("grct_0")), ledger);
  }
}
