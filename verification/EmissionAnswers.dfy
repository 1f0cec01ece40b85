/** What an emission answers, in terms of the receipts created before it. */
module EmissionAnswers {
  import opened Prelude
  import opened Receipts
  import opened ReceiptStore
  import opened Emission
  import opened EmissionRuns

  /** A receipt under the built id answers the emission when it is the same receipt. */
  ghost predicate AnswersStored(lib: Lib, log: seq<Signed>, r: Signed, result: EmitResult) {
    forall i :: 0 <= i < |log| && SameId(log[i], r) ==>
      result == if lib.digest(UnsignedPayload(r.unsigned)) == lib.digest(UnsignedPayload(log[i].unsigned))
      then Emitted(log[i]) else Threw(ReplayLookupMismatch)
  }

  /** An earlier receipt of the request answers the emission when the content agrees. */
  ghost predicate AnswersSameRequest(lib: Lib, log: seq<Signed>, r: Signed, result: EmitResult) {
    forall i :: 0 <= i < |log| && SameRequest(lib, log[i], r) ==>
      result == if lib.digest(RequestPayload(r.unsigned.body)) == lib.digest(RequestPayload(log[i].unsigned.body))
      then Emitted(log[i]) else Threw(PutFailed(RequestReplayMismatch))
  }

  ghost predicate Conflicts(lib: Lib, log: seq<Signed>, r: Signed) {
    r.unsigned.prev != LastHash(lib, TenantChain(log, r.unsigned.body.tenantIdHash))
  }

  /** How an accepted emission that builds `r` ends: the stored id, the signer, the form, the request, the link. */
  ghost predicate AnsweredByLog(lib: Lib, log: seq<Signed>, r: Signed, signed: bool, result: EmitResult) {
    if HasId(log, r) then AnswersStored(lib, log, r, result)
    else if !signed then result == Threw(SignerFailed)
    else if !lib.schemaAccepts(r) then result == Threw(PutFailed(SchemaInvalid))
    else if HasRequest(lib, log, r) then AnswersSameRequest(lib, log, r, result)
    else if Conflicts(lib, log, r) then
      result == Threw(PutFailed(ChainHeadConflict(r.unsigned.prev,
        LastHash(lib, TenantChain(log, r.unsigned.body.tenantIdHash)))))
    else result == Emitted(r)
  }

  ghost predicate Creates(lib: Lib, log: seq<Signed>, r: Signed, signed: bool) {
    !HasId(log, r) && signed && lib.schemaAccepts(r) && !HasRequest(lib, log, r) && !Conflicts(lib, log, r)
  }

  /** The receipt an emission builds records its input, links as declared and is named by its content. */
  ghost predicate Builds(lib: Lib, cfg: Config, log: seq<Signed>, input: EmissionInput, signature: Option<string>,
      r: Signed)
  {
    && RecordsInput(lib, cfg, input, r.unsigned.body) && ContentAddressed(lib, r.unsigned)
    && (if input.previousReceiptHash.Some? then r.unsigned.prev == input.previousReceiptHash.value
        else r.unsigned.prev == LastHash(lib, TenantChain(log, lib.hmac(input.identity.tenantId))))
    && r.signature == GetOr(signature, "")
  }

  /** Every emission that nobody disturbs, after any receipts: what it answers and what it stores. */
  lemma EmissionByLog(lib: Lib, cfg: Config, log: seq<Signed>, input: EmissionInput, signature: Option<string>)
      returns (r: Signed)
    requires Admissible(lib, log)
    ensures Builds(lib, cfg, log, input, signature, r)
    ensures var (result, after) := EmitAlone(lib, cfg, Replay(lib, log), input, signature);
            && (if cfg.accepts(input) then AnsweredByLog(lib, log, r, signature.Some?, result)
                else result == Threw(InvalidInput))
            && after == if cfg.accepts(input) && Creates(lib, log, r, signature.Some?) then Replay(lib, log + [r])
                        else Replay(lib, log)
  {
    hide BuildBody, RecordsInput, Replay, Admissible, TenantChain, LastHash, SchemaValid, SameId, SameRequest;
    var s := Replay(lib, log);
    r := Signed(BuildUnsigned(lib, cfg, input, PreviousHash(lib, s, input)), GetOr(signature, ""));
    BuiltBodyRecordsInput(lib, cfg, input);
    BodyFields(lib, cfg, input);
    ChainsAreUnforked(lib, log, InputTenant(lib, input));
    LookupByLog(lib, log, r);
    PutByLog(lib, log, r);
    PrefixedId(lib, r);
    StoredByPut(lib, log, r);
  }

  lemma PrefixedId(lib: Lib, r: Signed)
    requires ContentAddressed(lib, r.unsigned)
    ensures "grct_" <= r.unsigned.receiptId && (SchemaValid(lib, r) <==> lib.schemaAccepts(r))
  {
  }

  lemma LookupByLog(lib: Lib, log: seq<Signed>, r: Signed)
    requires Admissible(lib, log)
    ensures var found := LookupAnswer(lib, Replay(lib, log), r.unsigned);
            (found.Some? <==> HasId(log, r)) && (found.Some? ==> AnswersStored(lib, log, r, found.value))
  {
    hide Replay, Admissible;
    ReceiptsHold(lib, log, r);
  }

  lemma StoredByPut(lib: Lib, log: seq<Signed>, r: Signed)
    ensures PutState(lib, Replay(lib, log), r) ==
            if PutAnswer(lib, Replay(lib, log), r).Created? then Replay(lib, log + [r]) else Replay(lib, log)
  {
    hide PutAnswer, Insert;
    assert (log + [r])[..|log|] == log;
  }

  /******** Inside any run ********/

  /** The four steps of one attempt. */
  ghost function Attempt(e: nat, signature: Option<string>): seq<(nat, Event)> {
    [(e, ReadHead), (e, Lookup), (e, Sign(signature)), (e, Persist)]
  }

  lemma FourSteps(lib: Lib, cfg: Config, sys: System, e: nat, signature: Option<string>)
    ensures Run(lib, cfg, sys, Attempt(e, signature)) ==
            Step(lib, cfg, Step(lib, cfg, Step(lib, cfg, Step(lib, cfg, sys, e, ReadHead), e, Lookup), e,
                Sign(signature)), e, Persist)
  {
    hide Step;
    var s := Attempt(e, signature);
    var s1, s2, s3, s4 := s[1..], s[1..][1..], s[1..][1..][1..], s[1..][1..][1..][1..];
    assert s1[0] == (e, Lookup) && s2[0] == (e, Sign(signature)) && s3[0] == (e, Persist) && |s4| == 0;
    var a := Step(lib, cfg, sys, e, ReadHead);
    var b := Step(lib, cfg, a, e, Lookup);
    var c := Step(lib, cfg, b, e, Sign(signature));
    var d := Step(lib, cfg, c, e, Persist);
    assert Run(lib, cfg, d, s4) == d;
    assert Run(lib, cfg, c, s3) == d;
    assert Run(lib, cfg, b, s2) == d;
    assert Run(lib, cfg, a, s1) == d;
  }

  /** An attempt that nobody disturbs, first or repeated, decides: it answers and stores what a lone emission does. */
  lemma UndisturbedIsAlone(lib: Lib, cfg: Config, sys: System, e: nat, signature: Option<string>)
    requires e in sys.emitters && sys.emitters[e].phase.ReadingHead? && sys.emitters[e].phase.attempt < 3
    requires cfg.accepts(sys.emitters[e].input)
    ensures var after := Run(lib, cfg, sys, Attempt(e, signature));
            var (result, store) := EmitAlone(lib, cfg, sys.store, sys.emitters[e].input, signature);
            && e in after.emitters && after.emitters[e].phase == Finished(result) && after.store == store
            && forall f :: f in sys.emitters && f != e ==> f in after.emitters && after.emitters[f] == sys.emitters[f]
  {
    hide BuildBody, ReceiptId, LookupAnswer, PutAnswer, PutState, HeadHash;
    var em := sys.emitters[e];
    var prev := PreviousHash(lib, sys.store, em.input);
    var u := BuildUnsigned(lib, cfg, em.input, prev);
    FourSteps(lib, cfg, sys, e, signature);
    OwnHeadNeverConflicts(lib, cfg, sys.store, em.input, signature);
    var a := Step(lib, cfg, sys, e, ReadHead);
    assert a.emitters[e].phase == LookingUp(em.phase.attempt, prev) && a.store == sys.store;
    var b := Step(lib, cfg, a, e, Lookup);
    var c := Step(lib, cfg, b, e, Sign(signature));
  }

  /** Without a supplied link the head just read is the head compared with. */
  lemma OwnHeadNeverConflicts(lib: Lib, cfg: Config, s: Store, input: EmissionInput, signature: Option<string>)
    ensures var r := Signed(BuildUnsigned(lib, cfg, input, PreviousHash(lib, s, input)), GetOr(signature, ""));
            input.previousReceiptHash.None? ==>
              PutAnswer(lib, s, r).Refused? ==> !PutAnswer(lib, s, r).error.ChainHeadConflict?
  {
    hide BuildBody;
    BodyFields(lib, cfg, input);
  }

  /******** Supplied links ********/

  /** The attempt an unfinished emission is in. */
  ghost predicate InFirstAttempt(phase: Phase) {
    match phase
    case ReadingHead(a) => a == 0
    case LookingUp(a, _) => a == 0
    case Signing(a, _) => a == 0
    case Putting(a, _) => a == 0
    case Finished(_) => true
  }

  ghost predicate SuppliedInFirst(sys: System) {
    forall e :: e in sys.emitters && sys.emitters[e].input.previousReceiptHash.Some? ==>
      InFirstAttempt(sys.emitters[e].phase)
  }

  lemma {:induction false} RunStaysInFirst(lib: Lib, cfg: Config, sys: System, schedule: seq<(nat, Event)>)
    requires SuppliedInFirst(sys)
    ensures SuppliedInFirst(Run(lib, cfg, sys, schedule))
    decreases |schedule|
  {
    hide BuildUnsigned, LookupAnswer, PutAnswer, PutState, PreviousHash;
    if |schedule| > 0 {
      RunStaysInFirst(lib, cfg, Step(lib, cfg, sys, schedule[0].0, schedule[0].1), schedule[1..]);
    }
  }

  /** An emission with a link of the caller's never comes to a second attempt, in any schedule. */
  lemma SuppliedLinkTriesOnce(lib: Lib, cfg: Config, start: System, schedule: seq<(nat, Event)>, e: nat)
    requires Initial(cfg, start)
    requires e in Run(lib, cfg, start, schedule).emitters
    requires Run(lib, cfg, start, schedule).emitters[e].input.previousReceiptHash.Some?
    ensures InFirstAttempt(Run(lib, cfg, start, schedule).emitters[e].phase)
  {
    hide Run;
    RunStaysInFirst(lib, cfg, start, schedule);
  }

  /******** Inputs that are not accepted ********/

  /** An emission ends with the input error exactly when its input is not accepted, and then stored nothing. */
  ghost predicate RefusedAtOnce(cfg: Config, sys: System) {
    && (forall e :: e in sys.emitters ==>
          (sys.emitters[e].phase == Finished(Threw(InvalidInput)) <==> !cfg.accepts(sys.emitters[e].input)))
    && (forall i :: 0 <= i < |sys.log| ==>
          sys.log[i].emitter in sys.emitters && cfg.accepts(sys.emitters[sys.log[i].emitter].input))
  }

  lemma RefusalIsFinal(lib: Lib, cfg: Config, s: Store, now: nat, em: Emitter, ev: Event)
    ensures var after := Advance(lib, cfg, s, now, em, ev);
            && (after.phase == Finished(Threw(InvalidInput)) <==> em.phase == Finished(Threw(InvalidInput)))
            && after.input == em.input
  {
    hide BuildUnsigned, PutAnswer, PreviousHash;
  }

  lemma StepRefusesAtOnce(lib: Lib, cfg: Config, sys: System, e: nat, ev: Event)
    requires RefusedAtOnce(cfg, sys)
    ensures RefusedAtOnce(cfg, Step(lib, cfg, sys, e, ev))
  {
    hide Advance, PutAnswer, PutState;
    if e in sys.emitters { RefusalIsFinal(lib, cfg, sys.store, |sys.log|, sys.emitters[e], ev); }
  }

  lemma {:induction false} RunRefusesAtOnce(lib: Lib, cfg: Config, sys: System, schedule: seq<(nat, Event)>)
    requires RefusedAtOnce(cfg, sys)
    ensures RefusedAtOnce(cfg, Run(lib, cfg, sys, schedule))
    decreases |schedule|
  {
    hide Step, RefusedAtOnce;
    if |schedule| > 0 {
      StepRefusesAtOnce(lib, cfg, sys, schedule[0].0, schedule[0].1);
      RunRefusesAtOnce(lib, cfg, Step(lib, cfg, sys, schedule[0].0, schedule[0].1), schedule[1..]);
    }
  }

  /** In every schedule, what is stored comes from accepted inputs, and the others end in the input error alone. */
  lemma OnlyAcceptedAreStored(lib: Lib, cfg: Config, start: System, schedule: seq<(nat, Event)>)
    requires Initial(cfg, start)
    ensures RefusedAtOnce(cfg, Run(lib, cfg, start, schedule))
  {
    hide Run;
    RunRefusesAtOnce(lib, cfg, start, schedule);
  }
}
