/** Ledger-anchored revocation: standing decided by position in the log, never by the signer's clock. */
module Revocation {
  import opened Prelude
  import opened MerkleText
  import opened Checkpoint
  import opened CheckpointBinding

  datatype Epoch = Epoch(epochId: string, index: int, createdAt: string, merkleRoot: string)

  datatype LedgerSequence = LedgerSequence(logId: string, epochs: seq<Epoch>)

  datatype Input = Input(
    keyId: string,
    receiptTimestamp: Option<string>,
    inclusionEpochId: string,
    inclusionProof: Proof,
    sequence: LedgerSequence,
    revokedKeyId: string,
    revocationEpochId: string)

  datatype LedgerError =
    | NoLogId | NoEpochs | BadIndex | BadRoot | DuplicateEpochId | BadCreatedAt
    | IndexNotIncreasing | CreatedAtNotIncreasing

  datatype Standing = ValidPreRevocation | RejectedPostRevocation | RejectedUnprovable

  datatype Check = Check(name: string, passed: bool)

  datatype Outcome = Outcome(
    verdict: bool,
    standing: Standing,
    inclusionIndex: Option<int>,
    revocationIndex: Option<int>,
    backdatingSuspected: bool,
    checks: seq<Check>)

  /** Date.parse; None for NaN. */
  type Clock = string -> Option<int>

  /** One epoch taken by itself is acceptable. */
  predicate EpochOk(clock: Clock, e: Epoch) {
    0 <= e.index <= MAX_SAFE_INTEGER && DigestShape(e.merkleRoot) && clock(e.createdAt).Some?
  }

  predicate Follows(clock: Clock, e: Epoch, next: Epoch)
    requires EpochOk(clock, e) && EpochOk(clock, next)
  {
    e.index < next.index && clock(e.createdAt).value < clock(next.createdAt).value
  }

  /** An append-only ledger: epochs acceptable, ids unique, indices and seal times strictly increasing. */
  ghost predicate EpochsOrdered(clock: Clock, epochs: seq<Epoch>) {
    && (forall i :: 0 <= i < |epochs| ==> EpochOk(clock, epochs[i]))
    && (forall i, j :: 0 <= i < j < |epochs| ==> epochs[i].epochId != epochs[j].epochId)
    && (forall i, j :: 0 <= i < j < |epochs| ==> Follows(clock, epochs[i], epochs[j]))
  }

  ghost predicate WellFormed(clock: Clock, s: LedgerSequence) {
    |s.logId| > 0 && |s.epochs| > 0 && EpochsOrdered(clock, s.epochs)
  }

  ghost predicate Fresh(epochs: seq<Epoch>, i: int)
    requires 0 <= i < |epochs|
  {
    forall j :: 0 <= j < i ==> epochs[j].epochId != epochs[i].epochId
  }

  /** The first thing wrong with epoch `i`. */
  ghost predicate ObjectsAt(clock: Clock, epochs: seq<Epoch>, i: int, error: LedgerError)
    requires 0 <= i < |epochs|
  {
    var e := epochs[i];
    var indexOk, rootOk := 0 <= e.index <= 9007199254740991, DigestShape(e.merkleRoot);
    match error
    case BadIndex => !indexOk
    case BadRoot => indexOk && !rootOk
    case DuplicateEpochId => indexOk && rootOk && !Fresh(epochs, i)
    case BadCreatedAt => indexOk && rootOk && Fresh(epochs, i) && clock(e.createdAt).None?
    case IndexNotIncreasing =>
      EpochOk(clock, e) && Fresh(epochs, i) && i > 0 && e.index <= epochs[i - 1].index
    case CreatedAtNotIncreasing =>
      EpochOk(clock, e) && Fresh(epochs, i) && i > 0 && e.index > epochs[i - 1].index
      && clock(epochs[i - 1].createdAt).Some?
      && clock(e.createdAt).value <= clock(epochs[i - 1].createdAt).value
    case _ => false
  }

  /** An error names what is wrong with the first epoch that does not extend an ordered ledger. */
  ghost predicate Objects(clock: Clock, s: LedgerSequence, error: LedgerError) {
    if |s.logId| == 0 then error.NoLogId?
    else if |s.epochs| == 0 then error.NoEpochs?
    else exists i :: 0 <= i < |s.epochs| && EpochsOrdered(clock, s.epochs[..i]) && ObjectsAt(clock, s.epochs, i, error)
  }

  lemma EmptyIsOrdered(clock: Clock, s: LedgerSequence)
    ensures EpochsOrdered(clock, s.epochs[..0])
    ensures |s.logId| == 0 ==> Objects(clock, s, NoLogId) && !WellFormed(clock, s)
    ensures |s.logId| > 0 && |s.epochs| == 0 ==> Objects(clock, s, NoEpochs) && !WellFormed(clock, s)
  {
  }

  /** Something wrong with an epoch is wrong with the log. */
  lemma ObjectsHere(clock: Clock, s: LedgerSequence, i: nat, error: LedgerError)
    requires |s.logId| > 0 && i < |s.epochs| && EpochsOrdered(clock, s.epochs[..i])
    requires ObjectsAt(clock, s.epochs, i, error)
    ensures Objects(clock, s, error) && !WellFormed(clock, s)
  {
    hide DigestShape;
    WellFormedIff(clock, s);
    assert !Extends(clock, s.epochs, i);
  }

  lemma OrderedPrefixGrows(clock: Clock, epochs: seq<Epoch>, i: nat)
    requires i < |epochs| && EpochsOrdered(clock, epochs[..i]) && EpochOk(clock, epochs[i]) && Fresh(epochs, i)
    requires i > 0 ==> EpochOk(clock, epochs[i - 1]) && Follows(clock, epochs[i - 1], epochs[i])
    ensures EpochsOrdered(clock, epochs[..i + 1])
  {
    hide DigestShape, EpochOk;
    if i > 0 { assert epochs[..i][i - 1] == epochs[i - 1]; }
    OrderedExtends(clock, epochs[..i], epochs[i]);
    assert epochs[..i] + [epochs[i]] == epochs[..i + 1];
  }

  /** Only neighbours are compared; that is enough for the whole order. */
  method AssertMonotonicLedgerSequence(clock: Clock, s: LedgerSequence) returns (error: Option<LedgerError>)
    ensures error.None? <==> WellFormed(clock, s)
    ensures error.Some? ==> Objects(clock, s, error.value)
  {
    hide DigestShape, EpochsOrdered, Objects;
    EmptyIsOrdered(clock, s);
    if |s.logId| == 0 { return Some(NoLogId); }
    if |s.epochs| == 0 { return Some(NoEpochs); }
    var seenIds: set<string> := {};
    for i := 0 to |s.epochs|
      invariant EpochsOrdered(clock, s.epochs[..i])
      invariant i > 0 ==> EpochOk(clock, s.epochs[i - 1])
      invariant forall id :: id in seenIds <==> exists j :: 0 <= j < i && s.epochs[j].epochId == id
    {
      var epoch := s.epochs[i];
      if !(0 <= epoch.index <= MAX_SAFE_INTEGER) {
        ObjectsHere(clock, s, i, BadIndex);
        return Some(BadIndex);
      }
      if !DigestShape(epoch.merkleRoot) {
        ObjectsHere(clock, s, i, BadRoot);
        return Some(BadRoot);
      }
      if epoch.epochId in seenIds {
        ObjectsHere(clock, s, i, DuplicateEpochId);
        return Some(DuplicateEpochId);
      }
      seenIds := seenIds + {epoch.epochId};
      if clock(epoch.createdAt).None? {
        ObjectsHere(clock, s, i, BadCreatedAt);
        return Some(BadCreatedAt);
      }
      if i > 0 {
        var previous := s.epochs[i - 1];
        if epoch.index <= previous.index {
          ObjectsHere(clock, s, i, IndexNotIncreasing);
          return Some(IndexNotIncreasing);
        }
        if clock(epoch.createdAt).value <= clock(previous.createdAt).value {
          ObjectsHere(clock, s, i, CreatedAtNotIncreasing);
          return Some(CreatedAtNotIncreasing);
        }
      }
      OrderedPrefixGrows(clock, s.epochs, i);
    }
    assert s.epochs[..|s.epochs|] == s.epochs;
    error := None;
  }

  lemma OrderedExtends(clock: Clock, epochs: seq<Epoch>, e: Epoch)
    requires EpochsOrdered(clock, epochs) && EpochOk(clock, e)
    requires forall j :: 0 <= j < |epochs| ==> epochs[j].epochId != e.epochId
    requires |epochs| > 0 ==> Follows(clock, epochs[|epochs| - 1], e)
    ensures EpochsOrdered(clock, epochs + [e])
  {
    forall i | 0 <= i < |epochs| ensures Follows(clock, epochs[i], e) {
      if i < |epochs| - 1 { assert Follows(clock, epochs[i], epochs[|epochs| - 1]); }
    }
  }

  /** Epoch `i` extends the epochs before it. */
  ghost predicate Extends(clock: Clock, epochs: seq<Epoch>, i: int)
    requires 0 <= i < |epochs|
  {
    var e := epochs[i];
    && 0 <= e.index <= 9007199254740991 && DigestShape(e.merkleRoot) && clock(e.createdAt).Some? && Fresh(epochs, i)
    && (i > 0 ==>
          epochs[i - 1].index < e.index && clock(epochs[i - 1].createdAt).Some?
          && clock(epochs[i - 1].createdAt).value < clock(e.createdAt).value)
  }

  /** Neighbours in order make the whole log ordered. */
  lemma WellFormedIff(clock: Clock, s: LedgerSequence)
    ensures WellFormed(clock, s) <==>
            s.logId != "" && s.epochs != [] && forall i :: 0 <= i < |s.epochs| ==> Extends(clock, s.epochs, i)
  {
    hide DigestShape;
    if forall i :: 0 <= i < |s.epochs| ==> Extends(clock, s.epochs, i) {
      PrefixOrdered(clock, s.epochs, |s.epochs|);
      assert s.epochs[..|s.epochs|] == s.epochs;
    }
    if EpochsOrdered(clock, s.epochs) {
      forall i | 0 <= i < |s.epochs| ensures Extends(clock, s.epochs, i) {
        if i > 0 { assert Follows(clock, s.epochs[i - 1], s.epochs[i]); }
      }
    }
  }

  lemma {:induction false} PrefixOrdered(clock: Clock, epochs: seq<Epoch>, n: nat)
    requires n <= |epochs| && forall i :: 0 <= i < |epochs| ==> Extends(clock, epochs, i)
    ensures EpochsOrdered(clock, epochs[..n])
  {
    hide DigestShape;
    if n > 0 {
      PrefixOrdered(clock, epochs, n - 1);
      assert Extends(clock, epochs, n - 1);
      assert epochs[..n - 1] + [epochs[n - 1]] == epochs[..n];
      if n > 1 { assert epochs[..n - 1][n - 2] == epochs[n - 2]; }
      OrderedExtends(clock, epochs[..n - 1], epochs[n - 1]);
    }
  }

  /** The position of the first epoch with this id. */
  function FindEpoch(epochs: seq<Epoch>, id: string): (r: Option<nat>)
    ensures r.Some? ==> r.value < |epochs| && epochs[r.value].epochId == id && forall j :: 0 <= j < r.value ==>
            epochs[j].epochId != id
    ensures r.None? ==> forall j :: 0 <= j < |epochs| ==> epochs[j].epochId != id
  {
    if |epochs| == 0 then None
    else if epochs[0].epochId == id then Some(0)
    else
      var rest := FindEpoch(epochs[1..], id);
      if rest.None? then None else Some(rest.value + 1)
  }

  /**
   * What a verdict means: standing is a matter of positions in a well-formed log. A receipt is
   * pre-revocation exactly when its proof verifies at an epoch strictly before the revocation epoch.
   */
  ghost predicate ProvenAt(sha: Sha, clock: Clock, input: Input, i: int, j: int) {
    && WellFormed(clock, input.sequence) && input.keyId == input.revokedKeyId
    && 0 <= i < |input.sequence.epochs| && 0 <= j < |input.sequence.epochs|
    && input.sequence.epochs[i].epochId == input.inclusionEpochId
    && input.sequence.epochs[j].epochId == input.revocationEpochId
    && Verifies(sha, input.inclusionProof, input.sequence.epochs[i].merkleRoot)
  }

  /** The clock contradicts the log: a claimed time before the revocation, a position at or after it. */
  ghost predicate Backdated(clock: Clock, input: Input, i: int, j: int)
    requires 0 <= i < |input.sequence.epochs| && 0 <= j < |input.sequence.epochs|
  {
    && input.receiptTimestamp.Some? && clock(input.receiptTimestamp.value).Some?
    && clock(input.sequence.epochs[j].createdAt).Some?
    && clock(input.receiptTimestamp.value).value < clock(input.sequence.epochs[j].createdAt).value
    && j <= i
  }

  /** The standing that positions alone give. */
  ghost function StandingOf(sha: Sha, clock: Clock, input: Input): Standing {
    if exists i, j :: i < j && ProvenAt(sha, clock, input, i, j) then ValidPreRevocation
    else if exists i, j :: j <= i && ProvenAt(sha, clock, input, i, j) then RejectedPostRevocation
    else RejectedUnprovable
  }

  /******** The report ********/

  const STAGES := ["ledger_monotonic", "key_scope", "inclusion_epoch_located", "inclusion_proof",
                   "revocation_epoch_located"]

  ghost predicate IncludedAt(input: Input, i: int) {
    0 <= i < |input.sequence.epochs| && input.sequence.epochs[i].epochId == input.inclusionEpochId
  }

  ghost predicate RevokedAt(input: Input, j: int) {
    0 <= j < |input.sequence.epochs| && input.sequence.epochs[j].epochId == input.revocationEpochId
  }

  /** What each stage asks. */
  ghost predicate Passes(sha: Sha, clock: Clock, input: Input, stage: int) {
    match stage
    case 0 => WellFormed(clock, input.sequence)
    case 1 => input.keyId == input.revokedKeyId
    case 2 => exists i :: IncludedAt(input, i)
    case 3 =>
      exists i :: IncludedAt(input, i) && Verifies(sha, input.inclusionProof, input.sequence.epochs[i].merkleRoot)
    case _ => exists j :: RevokedAt(input, j)
  }

  ghost predicate PassesUpTo(sha: Sha, clock: Clock, input: Input, stage: int) {
    forall k :: 0 <= k <= stage ==> Passes(sha, clock, input, k)
  }

  /**
   * The report lists the stages in order and ends behind the first that does not pass; behind all of them it
   * tells of backdating when a time is claimed, and of the order of the two epochs.
   */
  ghost predicate Reported(sha: Sha, clock: Clock, input: Input, r: Outcome) {
    && 0 < |r.checks|
    && (forall k :: 0 <= k < |r.checks| && k < 5 ==>
          r.checks[k].name == STAGES[k] && (r.checks[k].passed <==> Passes(sha, clock, input, k)))
    && (forall k :: 0 <= k < 5 ==> (|r.checks| > k + 1 <==> PassesUpTo(sha, clock, input, k)))
    && (|r.checks| > 5 ==> r.checks[5..] == LastChecks(input, r.backdatingSuspected, r.verdict))
    && (r.inclusionIndex.Some? <==> |r.checks| > 3) && (r.revocationIndex.Some? <==> |r.checks| > 5)
    && (forall i :: |r.checks| > 3 && IncludedAt(input, i) ==>
          r.inclusionIndex == Some(input.sequence.epochs[i].index))
  }

  ghost function LastChecks(input: Input, backdating: bool, ordered: bool): seq<Check> {
    (if input.receiptTimestamp.Some? then [Check("backdating_detector", !backdating)] else []) +
    [Check("ledger_order", ordered)]
  }

  /** The checks of the first `n` stages, all passed. */
  ghost function PassedStages(n: nat): (checks: seq<Check>)
    requires n <= 5
    ensures |checks| == n && forall k :: 0 <= k < n ==> checks[k] == Check(STAGES[k], true)
  {
    if n == 0 then [] else PassedStages(n - 1) + [Check(STAGES[n - 1], true)]
  }

  /** The first `n` stages pass, and are reported. */
  ghost predicate AtStage(sha: Sha, clock: Clock, input: Input, checks: seq<Check>, n: nat) {
    n <= 5 && checks == PassedStages(n) && forall k :: 0 <= k < n ==> Passes(sha, clock, input, k)
  }

  lemma NoStageYet(sha: Sha, clock: Clock, input: Input)
    ensures AtStage(sha, clock, input, [], 0)
  {
  }

  lemma NextStage(sha: Sha, clock: Clock, input: Input, checks: seq<Check>, n: nat, name: string)
    requires AtStage(sha, clock, input, checks, n) && n < 5 && name == STAGES[n] && Passes(sha, clock, input, n)
    ensures AtStage(sha, clock, input, Push(checks, name, true), n + 1)
  {
    hide Passes;
  }

  lemma StagesAsk(sha: Sha, clock: Clock, input: Input)
    ensures Passes(sha, clock, input, 0) <==> WellFormed(clock, input.sequence)
    ensures Passes(sha, clock, input, 1) <==> input.keyId == input.revokedKeyId
    ensures Passes(sha, clock, input, 2) <==> exists i :: IncludedAt(input, i)
    ensures Passes(sha, clock, input, 4) <==> exists j :: RevokedAt(input, j)
  {
    hide WellFormed;
  }

  /** The verdict, the standing, the warning and the indices, in terms of the epochs a proof is proven at. */
  ghost predicate Judged(sha: Sha, clock: Clock, input: Input, r: Outcome) {
    && r.standing == StandingOf(sha, clock, input) && (r.verdict <==> r.standing == ValidPreRevocation)
    && (r.standing == ValidPreRevocation <==> exists i, j :: i < j && ProvenAt(sha, clock, input, i, j))
    && (r.standing == RejectedPostRevocation <==> exists i, j :: j <= i && ProvenAt(sha, clock, input, i, j))
    && (r.backdatingSuspected <==> exists i, j :: ProvenAt(sha, clock, input, i, j) && Backdated(clock, input, i, j))
    && forall i, j :: ProvenAt(sha, clock, input, i, j) ==>
         r.inclusionIndex == Some(input.sequence.epochs[i].index)
         && r.revocationIndex == Some(input.sequence.epochs[j].index)
  }

  lemma ProvenPasses(sha: Sha, clock: Clock, input: Input, i: int, j: int)
    requires ProvenAt(sha, clock, input, i, j)
    ensures PassesUpTo(sha, clock, input, 4)
  {
    hide WellFormed, Verifies;
    assert IncludedAt(input, i) && RevokedAt(input, j);
  }

  lemma ProvenHere(sha: Sha, clock: Clock, input: Input, i: int, j: int)
    requires WellFormed(clock, input.sequence) && input.keyId == input.revokedKeyId
    requires IncludedAt(input, i) && RevokedAt(input, j)
    requires Verifies(sha, input.inclusionProof, input.sequence.epochs[i].merkleRoot)
    ensures ProvenAt(sha, clock, input, i, j)
  {
    hide WellFormed, Verifies;
  }

  /** A run that ends behind stage `n`. */
  lemma EndsAtStage(sha: Sha, clock: Clock, input: Input, r: Outcome, n: nat, passed: seq<Check>)
    requires n < 5 && AtStage(sha, clock, input, passed, n) && r.checks == Push(passed, STAGES[n], false)
    requires !Passes(sha, clock, input, n)
    requires r.standing == RejectedUnprovable && !r.verdict && !r.backdatingSuspected
    requires r.revocationIndex.None? && (r.inclusionIndex.Some? <==> n >= 3)
    requires forall i :: n >= 3 && IncludedAt(input, i) ==>
               r.inclusionIndex == Some(input.sequence.epochs[i].index)
    ensures Reported(sha, clock, input, r) && Judged(sha, clock, input, r)
  {
    hide Passes, ProvenAt, Backdated;
    forall i, j ensures !ProvenAt(sha, clock, input, i, j) {
      if ProvenAt(sha, clock, input, i, j) {
        ProvenPasses(sha, clock, input, i, j);
        assert false;
      }
    }
  }

  /** A run that passes all stages, for the one inclusion and the one revocation epoch there are. */
  lemma EndsBehindStages(sha: Sha, clock: Clock, input: Input, r: Outcome, i: nat, j: nat, passed: seq<Check>)
    requires AtStage(sha, clock, input, passed, 5) && r.checks == passed +
             LastChecks(input, r.backdatingSuspected, r.verdict)
    requires ProvenAt(sha, clock, input, i, j)
    requires r.inclusionIndex == Some(input.sequence.epochs[i].index)
    requires r.revocationIndex == Some(input.sequence.epochs[j].index)
    requires r.verdict <==> i < j
    requires r.standing == if i < j then ValidPreRevocation else RejectedPostRevocation
    requires r.backdatingSuspected <==> Backdated(clock, input, i, j)
    ensures Reported(sha, clock, input, r) && Judged(sha, clock, input, r)
  {
    hide Passes, WellFormed, Verifies, Backdated, StandingOf, Reported, PassedStages, LastChecks;
    UniquelyProven(sha, clock, input, i, j);
    ProvenStanding(sha, clock, input, i, j);
    AllStagesReported(sha, clock, input, r, i, j);
  }

  lemma AllStagesReported(sha: Sha, clock: Clock, input: Input, r: Outcome, i: nat, j: nat)
    requires forall k :: 0 <= k < 5 ==> Passes(sha, clock, input, k)
    requires r.checks == PassedStages(5) + LastChecks(input, r.backdatingSuspected, r.verdict)
    requires ProvenAt(sha, clock, input, i, j)
    requires r.inclusionIndex == Some(input.sequence.epochs[i].index) && r.revocationIndex.Some?
    ensures Reported(sha, clock, input, r)
  {
    hide Passes, WellFormed, Verifies;
    assert IncludedAt(input, i);
    LocatedOnce(sha, clock, input, i);
  }

  /** Ids are unique in a well-formed log, so each stage speaks of one epoch. */
  lemma LocatedOnce(sha: Sha, clock: Clock, input: Input, i: int)
    requires WellFormed(clock, input.sequence) && IncludedAt(input, i)
    ensures forall k :: IncludedAt(input, k) ==> k == i
    ensures Passes(sha, clock, input, 2)
    ensures Passes(sha, clock, input, 3) <==>
            Verifies(sha, input.inclusionProof, input.sequence.epochs[i].merkleRoot)
  {
    hide Verifies;
  }

  lemma TailReported(input: Input, passed: seq<Check>, backdating: bool, ordered: bool)
    ensures var noted := if input.receiptTimestamp.Some? then Push(passed, "backdating_detector", !backdating)
                         else passed;
            Push(noted, "ledger_order", ordered) == passed + LastChecks(input, backdating, ordered)
  {
  }

  method EnforceLedgerAnchoredRevocation(sha: Sha, clock: Clock, input: Input) returns (r: Outcome)
    ensures Judged(sha, clock, input, r) && (r.verdict <==> AllPassed(r.checks))
    ensures Reported(sha, clock, input, r)
  {
    hide WellFormed, Verifies, AllPassed, Reported, Judged, Passes, StandingOf, AtStage, Push, PassedStages,
      ProvenAt;
    StagesAsk(sha, clock, input);
    var checks: seq<Check> := [];
    NoChecksPass();
    NoStageYet(sha, clock, input);
    var error := AssertMonotonicLedgerSequence(clock, input.sequence);
    if error.Some? {
      r := Outcome(false, RejectedUnprovable, None, None, false, Push(checks, "ledger_monotonic", false));
      EndsAtStage(sha, clock, input, r, 0, checks);
      return;
    }
    NextStage(sha, clock, input, checks, 0, "ledger_monotonic");
    checks := Push(checks, "ledger_monotonic", true);
    if input.keyId != input.revokedKeyId {
      r := Outcome(false, RejectedUnprovable, None, None, false, Push(checks, "key_scope", false));
      EndsAtStage(sha, clock, input, r, 1, checks);
      return;
    }
    NextStage(sha, clock, input, checks, 1, "key_scope");
    checks := Push(checks, "key_scope", true);
    var epochs := input.sequence.epochs;
    var inclusion := FindEpoch(epochs, input.inclusionEpochId);
    if inclusion.None? {
      r := Outcome(false, RejectedUnprovable, None, None, false, Push(checks, "inclusion_epoch_located", false));
      EndsAtStage(sha, clock, input, r, 2, checks);
      return;
    }
    var i := inclusion.value;
    LocatedOnce(sha, clock, input, i);
    NextStage(sha, clock, input, checks, 2, "inclusion_epoch_located");
    checks := Push(checks, "inclusion_epoch_located", true);
    var valid := VerifyMerkleInclusionProof(sha, input.inclusionProof, epochs[i].merkleRoot);
    if !valid {
      r := Outcome(false, RejectedUnprovable, Some(epochs[i].index), None, false,
          Push(checks, "inclusion_proof", false));
      EndsAtStage(sha, clock, input, r, 3, checks);
      return;
    }
    NextStage(sha, clock, input, checks, 3, "inclusion_proof");
    checks := Push(checks, "inclusion_proof", true);
    var revocation := FindEpoch(epochs, input.revocationEpochId);
    if revocation.None? {
      r := Outcome(false, RejectedUnprovable, Some(epochs[i].index), None, false,
          Push(checks, "revocation_epoch_located", false));
      EndsAtStage(sha, clock, input, r, 4, checks);
      return;
    }
    var j := revocation.value;
    assert RevokedAt(input, j);
    NextStage(sha, clock, input, checks, 4, "revocation_epoch_located");
    checks := Push(checks, "revocation_epoch_located", true);
    ProvenHere(sha, clock, input, i, j);
    PositionsOrder(clock, input.sequence, i, j);
    ghost var passed := checks;
    var backdating := false;
    if input.receiptTimestamp.Some? {
      var claimed, sealed := clock(input.receiptTimestamp.value), clock(epochs[j].createdAt);
      if claimed.Some? && sealed.Some? && claimed.value < sealed.value && epochs[j].index <= epochs[i].index {
        backdating := true;
      }
      checks := Push(checks, "backdating_detector", !backdating);
    }
    var pre := epochs[i].index < epochs[j].index;
    checks := Push(checks, "ledger_order", pre);
    r := Outcome(pre, if pre then ValidPreRevocation else RejectedPostRevocation,
                 Some(epochs[i].index), Some(epochs[j].index), backdating, checks);
    TailReported(input, passed, backdating, pre);
    EndsBehindStages(sha, clock, input, r, i, j, passed);
  }

  /** All checks of the report passed. */
  predicate AllPassed(checks: seq<Check>) {
    forall k :: 0 <= k < |checks| ==> checks[k].passed
  }

  lemma NoChecksPass()
    ensures AllPassed([])
  {
  }

  function Push(checks: seq<Check>, name: string, passed: bool): (longer: seq<Check>)
    ensures AllPassed(longer) <==> AllPassed(checks) && passed
  {
    assert (checks + [Check(name, passed)])[|checks|].passed == passed;
    assert forall k :: 0 <= k < |checks| ==> (checks + [Check(name, passed)])[k] == checks[k];
    checks + [Check(name, passed)]
  }

  /** In a well-formed log the two positions are unique. */
  lemma UniquelyProven(sha: Sha, clock: Clock, input: Input, i: int, j: int)
    requires ProvenAt(sha, clock, input, i, j)
    ensures EpochsOrdered(clock, input.sequence.epochs)
    ensures forall k, l :: ProvenAt(sha, clock, input, k, l) ==> k == i && l == j
  {
    hide Verifies;
  }

  lemma IndexOrderIsPosition(clock: Clock, epochs: seq<Epoch>, i: nat, j: nat)
    requires EpochsOrdered(clock, epochs) && i < |epochs| && j < |epochs|
    ensures epochs[i].index < epochs[j].index <==> i < j
  {
    if i < j { assert Follows(clock, epochs[i], epochs[j]); }
    if j < i { assert Follows(clock, epochs[j], epochs[i]); }
  }

  lemma PositionsOrder(clock: Clock, s: LedgerSequence, i: nat, j: nat)
    requires WellFormed(clock, s) && i < |s.epochs| && j < |s.epochs|
    ensures s.epochs[i].index < s.epochs[j].index <==> i < j
  {
    IndexOrderIsPosition(clock, s.epochs, i, j);
  }

  /******** What the standing says ********/

  /**
   * A pre-revocation standing puts the leaf into the head set of an epoch strictly earlier in the
   * log than the revocation epoch.
   */
  lemma PreRevocationMeansEarlierHead(sha: Sha, clock: Clock, locale: Locale, input: Input, i: int,
      j: int, heads: seq<Leaf>)
    requires i < j && ProvenAt(sha, clock, input, i, j) && FixedWidth(sha)
    requires input.sequence.epochs[i].merkleRoot == MerkleRoot(sha, locale, heads)
    requires var p := input.inclusionProof;
             CollisionFree(sha, TreeTexts(sha, Normalize(locale, heads)) + {LeafText(p.leaf)} +
                 ClimbTexts(sha, LeafHash(sha, p.leaf), p.steps))
    ensures var leaf := input.inclusionProof.leaf;
            leaf.tenantId in LastWins(heads) && LastWins(heads)[leaf.tenantId] == leaf.headHash
    ensures input.sequence.epochs[i].index < input.sequence.epochs[j].index
  {
    UniquelyProven(sha, clock, input, i, j);
    IndexOrderIsPosition(clock, input.sequence.epochs, i, j);
    hide CollisionFree, FixedWidth, TreeTexts, ClimbTexts, Normalize, LastWins, LeafText, TreeRoot, EpochsOrdered;
    AcceptedProofNamesLeaf(sha, Normalize(locale, heads), input.inclusionProof);
    NormalizedLeaves(locale, heads);
  }

  /** The signer's timestamp takes no part in the standing. */
  lemma TimestampIsIgnored(sha: Sha, clock: Clock, input: Input, timestamp: Option<string>)
    ensures StandingOf(sha, clock, input.(receiptTimestamp := timestamp)) == StandingOf(sha, clock, input)
  {
    hide WellFormed, Verifies;
    var other := input.(receiptTimestamp := timestamp);
    assert forall i, j :: ProvenAt(sha, clock, input, i, j) <==> ProvenAt(sha, clock, other, i, j);
  }

  /** Extending a ledger, as long as it stays well formed, keeps every standing that was ordered. */
  lemma ExtensionKeepsStanding(sha: Sha, clock: Clock, input: Input, longer: LedgerSequence)
    requires input.sequence.epochs <= longer.epochs && WellFormed(clock, longer)
    requires StandingOf(sha, clock, input) != RejectedUnprovable
    ensures StandingOf(sha, clock, input.(sequence := longer)) == StandingOf(sha, clock, input)
  {
    hide WellFormed, Verifies, StandingOf;
    var k, l := OrderedIsProven(sha, clock, input);
    var extended := input.(sequence := longer);
    assert longer.epochs[k] == input.sequence.epochs[k] && longer.epochs[l] == input.sequence.epochs[l];
    ProvenStanding(sha, clock, input, k, l);
    ProvenStanding(sha, clock, extended, k, l);
  }

  lemma ProvenStanding(sha: Sha, clock: Clock, input: Input, i: int, j: int)
    requires ProvenAt(sha, clock, input, i, j)
    ensures StandingOf(sha, clock, input) == if i < j then ValidPreRevocation else RejectedPostRevocation
  {
    UniquelyProven(sha, clock, input, i, j);
  }

  lemma OrderedIsProven(sha: Sha, clock: Clock, input: Input) returns (i: int, j: int)
    requires StandingOf(sha, clock, input) != RejectedUnprovable
    ensures ProvenAt(sha, clock, input, i, j)
  {
    hide ProvenAt;
    if k, l :| k < l && ProvenAt(sha, clock, input, k, l) {
      i, j := k, l;
    } else {
      i, j :| j <= i && ProvenAt(sha, clock, input, i, j);
    }
  }
}
