/** The decision vocabulary shared by policies, receipts and the governed runtime. */
module Decisions {
  import opened Prelude

  datatype DecisionKind =
    | ALLOW | MODIFY | REDACT | REFUSE | SILENCE | ESCALATE
    | REQUIRE_CONSENT | MEMORY_SUPPRESS | RECEIPT_ONLY | HUMAN_REVIEW

  datatype Phase = PreRetrieval | PreModel | PostModel | MemoryWrite | FinalResponse

  datatype ConsentState = Granted | Denied | Missing | NotRequired

  function Rank(d: DecisionKind): (r: nat) {
    match d
    case ALLOW => 0
    case RECEIPT_ONLY => 1
    case MODIFY => 2
    case REDACT => 3
    case REQUIRE_CONSENT => 4
    case MEMORY_SUPPRESS => 5
    case ESCALATE => 6
    case HUMAN_REVIEW => 7
    case REFUSE => 8
    case SILENCE => 9
  }

  datatype PolicyDecision = PolicyDecision(
    phase: Phase,
    decision: DecisionKind,
    policyVersion: string,
    policyHash: string,
    matchedRuleIds: seq<string>,
    matchedLayers: seq<string>,
    actionTaken: seq<string>,
    riskScore: real,
    reasons: seq<string>)
}
