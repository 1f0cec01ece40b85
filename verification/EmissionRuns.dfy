/** Any number of emitters interleaved over one repository, one await at a time. */
module EmissionRuns {
  import opened Prelude
  import opened Receipts
  import opened ReceiptStore
  import opened Emission

  /** Where one emission stands; the store is touched only in the step out of each phase. */
  datatype Phase =
    | ReadingHead(attempt: nat)
    | LookingUp(attempt: nat, prev: Option<string>)
    | Signing(attempt: nat, unsigned: Unsigned)
    | Putting(attempt: nat, signed: Signed)
    | Finished(result: EmitResult)

  /** `readAt` is the log length at the last head read, `lost` the (read, put) spans of lost attempts. */
  datatype Emitter = Emitter(input: EmissionInput, phase: Phase, readAt: nat, lost: seq<(nat, nat)>,
      built: seq<Unsigned>)

  datatype Entry = Entry(emitter: nat, receipt: Signed)

  datatype System = System(store: Store, log: seq<Entry>, emitters: map<nat, Emitter>)

  datatype Event = ReadHead | Lookup | Sign(signature: Option<string>) | Persist

  ghost function ReceiptsOf(log: seq<Entry>): seq<Signed> {
    seq(|log|, i requires 0 <= i < |log| => log[i].receipt)
  }

  predicate Initial(cfg: Config, sys: System) {
    && sys.store == EMPTY && sys.log == []
    && forall e :: e in sys.emitters ==>
         sys.emitters[e] == Emitter(sys.emitters[e].input,
                                    if cfg.accepts(sys.emitters[e].input) then ReadingHead(0)
                                        else Finished(Threw(InvalidInput)),
                                    0, [], [])
  }

  function Retries(em: Emitter, error: PutError): bool
    requires em.phase.Putting?
  {
    error.ChainHeadConflict? && em.input.previousReceiptHash.None? && em.phase.attempt < MAX_ATTEMPTS - 1
  }

  /** One emitter's own change of state, given the store it sees. */
  function Advance(lib: Lib, cfg: Config, s: Store, now: nat, em: Emitter, ev: Event): Emitter {
    match (em.phase, ev)
    case (ReadingHead(a), ReadHead) =>
      if a < MAX_ATTEMPTS then em.(phase := LookingUp(a, PreviousHash(lib, s, em.input)), readAt := now)
      else em.(phase := Finished(Threw(HeadKeptAdvancing)))
    case (LookingUp(a, prev), Lookup) =>
      var u := BuildUnsigned(lib, cfg, em.input, prev);
      var found := LookupAnswer(lib, s, u);
      em.(phase := if found.Some? then Finished(found.value) else Signing(a, u), built := em.built + [u])
    case (Signing(a, u), Sign(signature)) =>
      em.(phase := if signature.Some? then Putting(a, Signed(u, signature.value)) else Finished(Threw(SignerFailed)))
    case (Putting(a, r), Persist) =>
      var answer := PutAnswer(lib, s, r);
      if !answer.Refused? then em.(phase := Finished(Emitted(answer.receipt)))
      else
        var lost := if answer.error.ChainHeadConflict? then em.lost + [(em.readAt, now)] else em.lost;
        em.(phase := if Retries(em, answer.error) then ReadingHead(a + 1)
            else Finished(Threw(PutFailed(answer.error))), lost := lost)
    case _ => em
  }

  function Step(lib: Lib, cfg: Config, sys: System, e: nat, ev: Event): System {
    if e !in sys.emitters then sys
    else
      var em := sys.emitters[e];
      var em' := Advance(lib, cfg, sys.store, |sys.log|, em, ev);
      if em.phase.Putting? && ev.Persist? then
        var r := em.phase.signed;
        System(PutState(lib, sys.store, r),
               if PutAnswer(lib, sys.store, r).Created? then sys.log + [Entry(e, r)] else sys.log,
               sys.emitters[e := em'])
      else sys.(emitters := sys.emitters[e := em'])
  }

  /** The state after a schedule: which emitter moves, and with which kind of step. */
  function Run(lib: Lib, cfg: Config, sys: System, schedule: seq<(nat, Event)>): System
    decreases |schedule|
  {
    if |schedule| == 0 then sys
    else Run(lib, cfg, Step(lib, cfg, sys, schedule[0].0, schedule[0].1), schedule[1..])
  }

  /******** What every reachable state keeps ********/

  /** Entry `i` is a receipt of `tenant` that somebody else created. */
  ghost predicate ByAnother(log: seq<Entry>, e: nat, tenant: string, i: int) {
    0 <= i < |log| && log[i].emitter != e && Tenant(log[i].receipt) == tenant
  }

  /** Somebody else created a receipt of `tenant` within the span. */
  ghost predicate Overtaken(log: seq<Entry>, e: nat, tenant: string, span: (nat, nat)) {
    exists i :: span.0 <= i < span.1 && ByAnother(log, e, tenant, i)
  }

  /** The lost attempts happened one after the other and each was overtaken. */
  ghost predicate LostInOrder(log: seq<Entry>, e: nat, tenant: string, lost: seq<(nat, nat)>, end: nat) {
    && (forall k :: 0 <= k < |lost| ==> lost[k].0 <= lost[k].1 <= end && Overtaken(log, e, tenant, lost[k]))
    && (forall k :: 0 < k < |lost| ==> lost[k - 1].1 <= lost[k].0)
  }

  ghost predicate ReadIsCurrent(lib: Lib, log: seq<Entry>, em: Emitter, prev: Option<string>) {
    && em.readAt <= |log|
    && prev == PreviousHash(lib, Replay(lib, ReceiptsOf(log[..em.readAt])), em.input)
  }

  ghost predicate BuiltFrom(lib: Lib, cfg: Config, em: Emitter, u: Unsigned) {
    u == BuildUnsigned(lib, cfg, em.input, u.prev) && u in em.built
  }

  ghost predicate PhaseOk(lib: Lib, cfg: Config, log: seq<Entry>, em: Emitter) {
    match em.phase
    case ReadingHead(a) => true
    case LookingUp(a, prev) => ReadIsCurrent(lib, log, em, prev)
    case Signing(a, u) => ReadIsCurrent(lib, log, em, u.prev) && BuiltFrom(lib, cfg, em, u)
    case Putting(a, r) => ReadIsCurrent(lib, log, em, r.unsigned.prev) && BuiltFrom(lib, cfg, em, r.unsigned)
    case Finished(Emitted(r)) => Answers(lib, cfg, log, em, r)
    case Finished(Threw(error)) => error != HeadKeptAdvancing
  }

  /** The answered receipt is stored, and its digests are those of this emission. */
  ghost predicate Answers(lib: Lib, cfg: Config, log: seq<Entry>, em: Emitter, r: Signed) {
    && r in ReceiptsOf(log)
    && exists u :: u in em.built && u.body == BuildBody(lib, cfg, em.input)
         && (RequestDigest(lib, u) == RequestDigest(lib, r.unsigned)
             || UnsignedDigest(lib, u) == UnsignedDigest(lib, r.unsigned))
  }

  /** With no caller-supplied link, the number of lost attempts is the attempt number, and three on giving up. */
  ghost predicate LossesCounted(em: Emitter) {
    match em.phase
    case ReadingHead(a) => |em.lost| == a
    case LookingUp(a, _) => |em.lost| == a
    case Signing(a, _) => |em.lost| == a
    case Putting(a, _) => |em.lost| == a
    case Finished(Threw(PutFailed(ChainHeadConflict(_, _)))) => |em.lost| == 3
    case Finished(_) => true
  }

  ghost predicate AttemptsBounded(em: Emitter) {
    match em.phase
    case ReadingHead(a) => a < MAX_ATTEMPTS
    case LookingUp(a, _) => a < MAX_ATTEMPTS
    case Signing(a, _) => a < MAX_ATTEMPTS
    case Putting(a, _) => a < MAX_ATTEMPTS
    case Finished(_) => true
  }

  ghost predicate EmitterOk(lib: Lib, cfg: Config, log: seq<Entry>, e: nat, em: Emitter) {
    && PhaseOk(lib, cfg, log, em) && AttemptsBounded(em)
    && (!em.phase.Finished? ==> forall i :: 0 <= i < |log| ==> log[i].emitter != e)
    && (em.input.previousReceiptHash.None? ==>
          LossesCounted(em) &&
          LostInOrder(log, e, InputTenant(lib, em.input), em.lost,
                      if em.phase.ReadingHead? || em.phase.Finished? then |log| else em.readAt))
  }

  ghost predicate Inv(lib: Lib, cfg: Config, sys: System) {
    && Admissible(lib, ReceiptsOf(sys.log)) && Honest(lib, ReceiptsOf(sys.log))
    && sys.store == Replay(lib, ReceiptsOf(sys.log))
    && forall e :: e in sys.emitters ==> EmitterOk(lib, cfg, sys.log, e, sys.emitters[e])
  }

  lemma CreatedAppend(log: seq<Entry>, x: Entry)
    ensures ReceiptsOf(log + [x]) == ReceiptsOf(log) + [x.receipt]
  {
  }

  lemma CreatedPrefix(log: seq<Entry>, n: nat)
    requires n <= |log|
    ensures ReceiptsOf(log[..n]) == ReceiptsOf(log)[..n]
  {
  }

  lemma HeadUnmoved(lib: Lib, log: seq<Signed>, tenant: string)
    requires |log| > 0 && Tenant(log[|log| - 1]) != tenant
    ensures HeadHash(Replay(lib, log), tenant) == HeadHash(Replay(lib, log[..|log| - 1]), tenant)
  {
  }

  /** A changed head means that a receipt of the tenant was created in between. */
  lemma {:induction false} HeadMovedBySomeone(lib: Lib, log: seq<Signed>, n: nat, tenant: string)
    requires n <= |log|
    requires HeadHash(Replay(lib, log), tenant) != HeadHash(Replay(lib, log[..n]), tenant)
    ensures exists i :: n <= i < |log| && Tenant(log[i]) == tenant
  {
    hide Replay;
    assert log[..|log|] == log;
    var last := |log| - 1;
    if Tenant(log[last]) != tenant {
      HeadUnmoved(lib, log, tenant);
      assert log[..last][..n] == log[..n];
      HeadMovedBySomeone(lib, log[..last], n, tenant);
      var i :| n <= i < last && Tenant(log[..last][i]) == tenant;
      assert Tenant(log[i]) == tenant;
    }
  }

  /** What one emitter knows survives another emitter's creation. */
  lemma OthersKeepEmitterOk(lib: Lib, cfg: Config, log: seq<Entry>, e: nat, em: Emitter, x: Entry)
    requires EmitterOk(lib, cfg, log, e, em) && x.emitter != e
    ensures EmitterOk(lib, cfg, log + [x], e, em)
  {
    var longer := log + [x];
    CreatedAppend(log, x);
    if em.readAt <= |log| { assert longer[..em.readAt] == log[..em.readAt]; }
    if em.input.previousReceiptHash.None? {
      OvertakenPersists(log, e, InputTenant(lib, em.input), em.lost, x);
    }
  }

  lemma OvertakenPersists(log: seq<Entry>, e: nat, tenant: string, lost: seq<(nat, nat)>, x: Entry)
    requires forall k :: 0 <= k < |lost| ==> Overtaken(log, e, tenant, lost[k])
    ensures forall k :: 0 <= k < |lost| ==> Overtaken(log + [x], e, tenant, lost[k])
  {
    forall k | 0 <= k < |lost| ensures Overtaken(log + [x], e, tenant, lost[k]) {
      var i :| lost[k].0 <= i < lost[k].1 && ByAnother(log, e, tenant, i);
      assert ByAnother(log + [x], e, tenant, i);
    }
  }

  /** Steps that do not write keep what the moving emitter knows. */
  lemma QuietStep(lib: Lib, cfg: Config, sys: System, e: nat, ev: Event)
    requires Inv(lib, cfg, sys) && e in sys.emitters && !ev.Persist?
    ensures EmitterOk(lib, cfg, sys.log, e, Advance(lib, cfg, sys.store, |sys.log|, sys.emitters[e], ev))
  {
    hide Replay, Admissible, Honest, BuildBody, Overtaken;
    var em := sys.emitters[e];
    assert EmitterOk(lib, cfg, sys.log, e, em);
    match (em.phase, ev)
    case (ReadingHead(a), ReadHead) =>
      assert sys.log[..|sys.log|] == sys.log;
    case (LookingUp(a, prev), Lookup) =>
      LookupStep(lib, cfg, sys, e);
    case _ =>
  }

  /** The lookup answers a logged receipt with this unsigned digest, or a mismatch. */
  lemma FoundIsLogged(lib: Lib, log: seq<Signed>, u: Unsigned)
    requires Admissible(lib, log)
    ensures var found := LookupAnswer(lib, Replay(lib, log), u);
            && (found.Some? && found.value.Emitted? ==>
                  && found.value.receipt in log
                  && UnsignedDigest(lib, u) == UnsignedDigest(lib, found.value.receipt.unsigned))
            && (found.Some? && found.value.Threw? ==> found.value.error == ReplayLookupMismatch)
  {
    hide Admissible, Replay, Indexes;
    var key := (u.body.tenantIdHash, u.receiptId);
    ReceiptsAreIndexed(lib, log);
    if key in Replay(lib, log).receipts {
      var i := IndexedAt(Replay(lib, log).receipts, log, ReceiptKey, Itself, key);
    }
  }

  lemma LookupStep(lib: Lib, cfg: Config, sys: System, e: nat)
    requires Inv(lib, cfg, sys) && e in sys.emitters && sys.emitters[e].phase.LookingUp?
    ensures PhaseOk(lib, cfg, sys.log, Advance(lib, cfg, sys.store, |sys.log|, sys.emitters[e], Lookup))
  {
    hide Admissible, Honest, BuildBody, LostInOrder, Replay, LookupAnswer, ReceiptId;
    var em := sys.emitters[e];
    assert EmitterOk(lib, cfg, sys.log, e, em);
    var em' := Advance(lib, cfg, sys.store, |sys.log|, em, Lookup);
    var u := BuildUnsigned(lib, cfg, em.input, em.phase.prev);
    assert em'.built[|em.built|] == u;
    FoundIsLogged(lib, ReceiptsOf(sys.log), u);
  }

  lemma ConflictMeansHeadMoved(lib: Lib, s: Store, r: Signed)
    requires PutAnswer(lib, s, r).Refused? && PutAnswer(lib, s, r).error.ChainHeadConflict?
    ensures r.unsigned.prev != HeadHash(s, Tenant(r))
  {
  }

  /** A put that is refused over the head was overtaken since its head read. */
  lemma ConflictWasOvertaken(lib: Lib, cfg: Config, sys: System, e: nat)
    requires Inv(lib, cfg, sys) && e in sys.emitters && sys.emitters[e].phase.Putting?
    requires sys.emitters[e].input.previousReceiptHash.None?
    requires PutAnswer(lib, sys.store, sys.emitters[e].phase.signed).Refused?
    requires PutAnswer(lib, sys.store, sys.emitters[e].phase.signed).error.ChainHeadConflict?
    ensures Overtaken(sys.log, e, InputTenant(lib, sys.emitters[e].input), (sys.emitters[e].readAt, |sys.log|))
  {
    hide Replay, Admissible, Honest, BuildBody, PutAnswer, LostInOrder;
    var em := sys.emitters[e];
    var tenant := InputTenant(lib, em.input);
    assert EmitterOk(lib, cfg, sys.log, e, em);
    BodyFields(lib, cfg, em.input);
    ConflictMeansHeadMoved(lib, sys.store, em.phase.signed);
    CreatedPrefix(sys.log, em.readAt);
    HeadMovedBySomeone(lib, ReceiptsOf(sys.log), em.readAt, tenant);
    var i :| em.readAt <= i < |sys.log| && Tenant(ReceiptsOf(sys.log)[i]) == tenant;
    assert ByAnother(sys.log, e, tenant, i);
  }

  lemma IndexedAt<V(!new)>(m: map<Key, V>, log: seq<Signed>, key: Signed -> Key, val: Signed -> V, k: Key)
      returns (i: nat)
    requires Indexes(m, log, key, val) && k in m
    ensures i < |log| && key(log[i]) == k && m[k] == val(log[i])
  {
    i :| 0 <= i < |log| && key(log[i]) == k;
  }

  lemma ExistingIsLogged(lib: Lib, log: seq<Signed>, r: Signed)
    requires Admissible(lib, log) && PutAnswer(lib, Replay(lib, log), r).Existing?
    ensures PutAnswer(lib, Replay(lib, log), r).receipt in log
    ensures var stored := PutAnswer(lib, Replay(lib, log), r).receipt;
            RequestDigest(lib, stored.unsigned) == RequestDigest(lib, r.unsigned) ||
            UnsignedDigest(lib, stored.unsigned) == UnsignedDigest(lib, r.unsigned)
  {
    hide Admissible, Replay, Indexes, SchemaValid, RequestDigest, UnsignedDigest;
    var s := Replay(lib, log);
    ReceiptsAreIndexed(lib, log);
    MarkersAreIndexed(lib, log);
    if MarkerKey(lib, r) in s.markers {
      var i := IndexedAt(s.markers, log, MarkerKeys(lib), Markers(lib), MarkerKey(lib, r));
      PutFindsRequest(lib, log, i, r);
    } else {
      var i := IndexedAt(s.receipts, log, ReceiptKey, Itself, ReceiptKey(r));
    }
  }

  lemma LossesSettle(log: seq<Entry>, e: nat, tenant: string, lost: seq<(nat, nat)>, end: nat)
    requires LostInOrder(log, e, tenant, lost, end) && end <= |log|
    ensures LostInOrder(log, e, tenant, lost, |log|)
  {
    hide Overtaken;
  }

  lemma LossesPersist(log: seq<Entry>, e: nat, tenant: string, lost: seq<(nat, nat)>, end: nat, x: Entry)
    requires LostInOrder(log, e, tenant, lost, end) && end <= |log|
    ensures LostInOrder(log + [x], e, tenant, lost, |log + [x]|)
  {
    hide Overtaken;
    OvertakenPersists(log, e, tenant, lost, x);
  }

  lemma OneMoreLoss(log: seq<Entry>, e: nat, tenant: string, lost: seq<(nat, nat)>, readAt: nat)
    requires LostInOrder(log, e, tenant, lost, readAt) && readAt <= |log| && Overtaken(log, e, tenant, (readAt, |log|))
    ensures LostInOrder(log, e, tenant, lost + [(readAt, |log|)], |log|)
  {
    hide Overtaken;
  }

  /** What a put leaves of the log and of the putting emitter. */
  lemma Persisted(lib: Lib, cfg: Config, sys: System, e: nat)
    requires e in sys.emitters && sys.emitters[e].phase.Putting?
    ensures var em, after := sys.emitters[e], Step(lib, cfg, sys, e, Persist);
            var answer := PutAnswer(lib, sys.store, em.phase.signed);
            && e in after.emitters
            && after.log == (if answer.Created? then sys.log + [Entry(e, em.phase.signed)] else sys.log)
            && (!answer.Refused? ==> after.emitters[e] == em.(phase := Finished(Emitted(answer.receipt))))
            && (answer.Refused? ==>
                  after.emitters[e] ==
                  em.(phase := if Retries(em, answer.error) then ReadingHead(em.phase.attempt + 1)
                      else Finished(Threw(PutFailed(answer.error))),
                      lost := if answer.error.ChainHeadConflict? then em.lost + [(em.readAt, |sys.log|)] else em.lost))
  {
    hide PutAnswer, PutState;
  }

  /** A put keeps what the putting emitter knows. */
  lemma PersistStep(lib: Lib, cfg: Config, sys: System, e: nat)
    requires Inv(lib, cfg, sys) && e in sys.emitters && sys.emitters[e].phase.Putting?
    ensures EmitterOk(lib, cfg, Step(lib, cfg, sys, e, Persist).log, e, Step(lib, cfg, sys, e, Persist).emitters[e])
  {
    hide Replay, Admissible, Honest, BuildBody, BuildUnsigned, Overtaken, LostInOrder, PutAnswer,
      PutState, Step, Advance;
    var em := sys.emitters[e];
    var r := em.phase.signed;
    Persisted(lib, cfg, sys, e);
    assert EmitterOk(lib, cfg, sys.log, e, em);
    var tenant := InputTenant(lib, em.input);
    match PutAnswer(lib, sys.store, r)
    case Created(_, _) =>
      CreatedStep(lib, cfg, sys, e);
      if em.input.previousReceiptHash.None? { LossesPersist(sys.log, e, tenant, em.lost, em.readAt, Entry(e, r)); }
    case Existing(stored, _) =>
      ExistingStep(lib, cfg, sys, e);
      if em.input.previousReceiptHash.None? { LossesSettle(sys.log, e, tenant, em.lost, em.readAt); }
    case Refused(error) =>
      if em.input.previousReceiptHash.None? {
        LossesSettle(sys.log, e, tenant, em.lost, em.readAt);
        if error.ChainHeadConflict? {
          ConflictWasOvertaken(lib, cfg, sys, e);
          OneMoreLoss(sys.log, e, tenant, em.lost, em.readAt);
        }
      }
  }

  lemma CreatedStep(lib: Lib, cfg: Config, sys: System, e: nat)
    requires Inv(lib, cfg, sys) && e in sys.emitters && sys.emitters[e].phase.Putting?
    requires PutAnswer(lib, sys.store, sys.emitters[e].phase.signed).Created?
    ensures var r := sys.emitters[e].phase.signed;
            PutAnswer(lib, sys.store, r).receipt == r &&
            Answers(lib, cfg, sys.log + [Entry(e, r)], sys.emitters[e], r)
  {
    hide Replay, Admissible, Honest, BuildBody, LostInOrder;
    var em := sys.emitters[e];
    var r := em.phase.signed;
    assert EmitterOk(lib, cfg, sys.log, e, em);
    CreatedAppend(sys.log, Entry(e, r));
    assert (ReceiptsOf(sys.log) + [r])[|sys.log|] == r;
    assert r.unsigned in em.built;
  }

  lemma ExistingStep(lib: Lib, cfg: Config, sys: System, e: nat)
    requires Inv(lib, cfg, sys) && e in sys.emitters && sys.emitters[e].phase.Putting?
    requires PutAnswer(lib, sys.store, sys.emitters[e].phase.signed).Existing?
    ensures Answers(lib, cfg, sys.log, sys.emitters[e], PutAnswer(lib, sys.store, sys.emitters[e].phase.signed).receipt)
  {
    hide Replay, Admissible, Honest, BuildBody, LostInOrder, PutAnswer;
    var em := sys.emitters[e];
    assert EmitterOk(lib, cfg, sys.log, e, em);
    ExistingIsLogged(lib, ReceiptsOf(sys.log), em.phase.signed);
    assert em.phase.signed.unsigned in em.built;
  }

  /** The invariant survives every step of every emitter. */
  lemma StepKeepsInv(lib: Lib, cfg: Config, sys: System, e: nat, ev: Event)
    requires Inv(lib, cfg, sys)
    ensures Inv(lib, cfg, Step(lib, cfg, sys, e, ev))
  {
    hide Replay, Admissible, Honest, EmitterOk, PutAnswer, PutState, Advance;
    var sys' := Step(lib, cfg, sys, e, ev);
    if e in sys.emitters {
      var em := sys.emitters[e];
      if em.phase.Putting? && ev.Persist? {
        var r := em.phase.signed;
        PersistStep(lib, cfg, sys, e);
        PutKeepsLog(lib, ReceiptsOf(sys.log), r);
        CreatedAppend(sys.log, Entry(e, r));
        HonestStep(lib, cfg, sys, e);
        forall f | f in sys.emitters && f != e ensures EmitterOk(lib, cfg, sys'.log, f, sys'.emitters[f]) {
          OthersKeepEmitterOk(lib, cfg, sys.log, f, sys.emitters[f], Entry(e, r));
        }
      } else if !ev.Persist? {
        QuietStep(lib, cfg, sys, e, ev);
      } else {
        IdleStep(lib, cfg, sys.store, |sys.log|, em);
      }
    }
  }

  lemma IdleStep(lib: Lib, cfg: Config, s: Store, now: nat, em: Emitter)
    requires !em.phase.Putting?
    ensures Advance(lib, cfg, s, now, em, Persist) == em
  {
  }

  lemma HonestStep(lib: Lib, cfg: Config, sys: System, e: nat)
    requires Inv(lib, cfg, sys) && e in sys.emitters && sys.emitters[e].phase.Putting?
    ensures Honest(lib, ReceiptsOf(sys.log) + [sys.emitters[e].phase.signed])
  {
    assert EmitterOk(lib, cfg, sys.log, e, sys.emitters[e]);
  }

  lemma {:induction false} RunKeepsInv(lib: Lib, cfg: Config, sys: System, schedule: seq<(nat, Event)>)
    requires Inv(lib, cfg, sys)
    ensures Inv(lib, cfg, Run(lib, cfg, sys, schedule))
    decreases |schedule|
  {
    hide Inv, Step;
    if |schedule| > 0 {
      StepKeepsInv(lib, cfg, sys, schedule[0].0, schedule[0].1);
      RunKeepsInv(lib, cfg, Step(lib, cfg, sys, schedule[0].0, schedule[0].1), schedule[1..]);
    }
  }

  lemma InitialInv(lib: Lib, cfg: Config, sys: System)
    requires Initial(cfg, sys)
    ensures Inv(lib, cfg, sys)
  {
  }

  /******** Whole runs ********/

  /**
   * In every interleaving of any number of emitters, each tenant's receipts form one chain from
   * null to the recorded head, the maps hold exactly the created receipts, ids are distinct, and
   * there is one marker per receipt.
   */
  lemma EveryInterleavingIsSafe(lib: Lib, cfg: Config, start: System, schedule: seq<(nat, Event)>, tenant: string)
    requires Initial(cfg, start)
    ensures var sys := Run(lib, cfg, start, schedule);
            var log := ReceiptsOf(sys.log);
            && Linked(lib, tenant, TenantChain(log, tenant))
            && HeadHash(sys.store, tenant) == LastHash(lib, TenantChain(log, tenant))
            && Indexes(sys.store.receipts, log, ReceiptKey, Itself)
            && Indexes(sys.store.markers, log, MarkerKeys(lib), Markers(lib))
            && Admissible(lib, log) && Honest(lib, log)
  {
    hide Replay, Admissible, Honest, Initial, Linked, Indexes, EmitterOk, Run;
    InitialInv(lib, cfg, start);
    RunKeepsInv(lib, cfg, start, schedule);
    var log := ReceiptsOf(Run(lib, cfg, start, schedule).log);
    ChainsAreUnforked(lib, log, tenant);
    ReceiptsAreIndexed(lib, log);
    MarkersAreIndexed(lib, log);
  }

  /**
   * An emission without a caller-supplied link gives up over the chain head only if three other
   * receipts of its tenant were created while it ran, one inside each of its three attempts.
   */
  lemma GivingUpMeansOvertakenThrice(lib: Lib, cfg: Config, start: System, schedule: seq<(nat, Event)>, e: nat)
    requires Initial(cfg, start)
    requires var sys := Run(lib, cfg, start, schedule);
             && e in sys.emitters && sys.emitters[e].input.previousReceiptHash.None?
             && sys.emitters[e].phase.Finished? && sys.emitters[e].phase.result.Threw?
             && sys.emitters[e].phase.result.error.PutFailed?
             && sys.emitters[e].phase.result.error.error.ChainHeadConflict?
    ensures var sys := Run(lib, cfg, start, schedule);
            var em := sys.emitters[e];
            var tenant := InputTenant(lib, em.input);
            && |em.lost| == MAX_ATTEMPTS
            && LostInOrder(sys.log, e, tenant, em.lost, |sys.log|)
            && exists i, j, k :: i < j < k && ByAnother(sys.log, e, tenant, i)
                 && ByAnother(sys.log, e, tenant, j) && ByAnother(sys.log, e, tenant, k)
  {
    hide Replay, Admissible, Honest, Initial, Step, Run;
    InitialInv(lib, cfg, start);
    RunKeepsInv(lib, cfg, start, schedule);
    var sys := Run(lib, cfg, start, schedule);
    var em := sys.emitters[e];
    assert EmitterOk(lib, cfg, sys.log, e, em);
    var tenant := InputTenant(lib, em.input);
    assert Overtaken(sys.log, e, tenant, em.lost[0]) && Overtaken(sys.log, e, tenant, em.lost[1])
        && Overtaken(sys.log, e, tenant, em.lost[2]);
    var i :| em.lost[0].0 <= i < em.lost[0].1 && ByAnother(sys.log, e, tenant, i);
    var j :| em.lost[1].0 <= j < em.lost[1].1 && ByAnother(sys.log, e, tenant, j);
    var k :| em.lost[2].0 <= k < em.lost[2].1 && ByAnother(sys.log, e, tenant, k);
    assert i < j < k;
  }

  /** The throw behind the retry loop is never reached. */
  lemma LoopNeverRunsOut(lib: Lib, cfg: Config, start: System, schedule: seq<(nat, Event)>, e: nat)
    requires Initial(cfg, start)
    requires e in Run(lib, cfg, start, schedule).emitters
    ensures Run(lib, cfg, start, schedule).emitters[e].phase != Finished(Threw(HeadKeptAdvancing))
  {
    hide Replay, Admissible, Honest, Initial, Step, Run;
    InitialInv(lib, cfg, start);
    RunKeepsInv(lib, cfg, start, schedule);
    var sys := Run(lib, cfg, start, schedule);
    assert EmitterOk(lib, cfg, sys.log, e, sys.emitters[e]);
  }

  /** The records hashed on behalf of the log and of two emitters. */
  ghost predicate Hashed(sys: System, e: nat, f: nat, x: Record)
    requires e in sys.emitters && f in sys.emitters
  {
    || x in LogRecords(ReceiptsOf(sys.log))
    || (exists u :: u in sys.emitters[e].built && x in InputRecords(u))
    || (exists u :: u in sys.emitters[f].built && x in InputRecords(u))
  }

  ghost predicate NoCollision(lib: Lib, sys: System, e: nat, f: nat)
    requires e in sys.emitters && f in sys.emitters
  {
    forall a, b :: Hashed(sys, e, f, a) && Hashed(sys, e, f, b) && lib.digest(a) == lib.digest(b) ==> a == b
  }

  lemma AnswerHasOwnBody(lib: Lib, cfg: Config, sys: System, e: nat, f: nat, r: Signed)
    requires e in sys.emitters && f in sys.emitters && NoCollision(lib, sys, e, f)
    requires Answers(lib, cfg, sys.log, sys.emitters[e], r)
    ensures r.unsigned.body == BuildBody(lib, cfg, sys.emitters[e].input)
  {
    hide BuildBody;
    var em := sys.emitters[e];
    var u :| u in em.built && u.body == BuildBody(lib, cfg, em.input)
      && (RequestDigest(lib, u) == RequestDigest(lib, r.unsigned)
          || UnsignedDigest(lib, u) == UnsignedDigest(lib, r.unsigned));
    assert RequestPayload(u.body) in InputRecords(u) && UnsignedPayload(u) in InputRecords(u);
    var i :| 0 <= i < |ReceiptsOf(sys.log)| && ReceiptsOf(sys.log)[i] == r;
    assert RequestPayload(r.unsigned.body) in HashedRecords(r) && UnsignedPayload(r.unsigned) in HashedRecords(r);
    assert RequestPayload(r.unsigned.body) in LogRecords(ReceiptsOf(sys.log));
    assert UnsignedPayload(r.unsigned) in LogRecords(ReceiptsOf(sys.log));
  }

  /**
   * Exactly once: however two emissions of one tenant and one request id are interleaved with each
   * other and with everybody else, if both answer then they answer the same stored receipt, whose
   * request-stable content is the one both asked for.
   */
  lemma SameRequestSameReceipt(lib: Lib, cfg: Config, start: System, schedule: seq<(nat, Event)>, e: nat, f: nat,
      r: Signed, q: Signed)
    requires Initial(cfg, start)
    requires var sys := Run(lib, cfg, start, schedule);
             && e in sys.emitters && f in sys.emitters && NoCollision(lib, sys, e, f)
             && sys.emitters[e].phase == Finished(Emitted(r)) && sys.emitters[f].phase == Finished(Emitted(q))
             && InputTenant(lib, sys.emitters[e].input) == InputTenant(lib, sys.emitters[f].input)
             && sys.emitters[e].input.identity.requestId == sys.emitters[f].input.identity.requestId
    ensures r == q && r.unsigned.body == BuildBody(lib, cfg, Run(lib, cfg, start, schedule).emitters[e].input)
  {
    hide Replay, Admissible, Honest, Initial, Step, Run, NoCollision, Answers;
    InitialInv(lib, cfg, start);
    RunKeepsInv(lib, cfg, start, schedule);
    var sys := Run(lib, cfg, start, schedule);
    var log := ReceiptsOf(sys.log);
    assert EmitterOk(lib, cfg, sys.log, e, sys.emitters[e]);
    assert EmitterOk(lib, cfg, sys.log, f, sys.emitters[f]);
    AnswerHasOwnBody(lib, cfg, sys, e, f, r);
    NoCollisionSymmetric(lib, sys, e, f);
    AnswerHasOwnBody(lib, cfg, sys, f, e, q);
    AnswerIsLogged(lib, cfg, sys.log, sys.emitters[e], r);
    AnswerIsLogged(lib, cfg, sys.log, sys.emitters[f], q);
    var i :| 0 <= i < |log| && log[i] == r;
    var j :| 0 <= j < |log| && log[j] == q;
    OneReceiptPerRequest(lib, log, i, j);
  }

  lemma AnswerIsLogged(lib: Lib, cfg: Config, log: seq<Entry>, em: Emitter, r: Signed)
    requires Answers(lib, cfg, log, em, r)
    ensures r in ReceiptsOf(log)
  {
  }

  lemma NoCollisionSymmetric(lib: Lib, sys: System, e: nat, f: nat)
    requires e in sys.emitters && f in sys.emitters && NoCollision(lib, sys, e, f)
    ensures NoCollision(lib, sys, f, e)
  {
  }

  /******** What is stored says what was asked ********/

  /** Every emitter keeps its input, and every logged receipt was built from the input of the emitter that stored it. */
  ghost predicate StoredFromInputs(lib: Lib, cfg: Config, start: System, sys: System) {
    && sys.emitters.Keys == start.emitters.Keys
    && (forall e :: e in start.emitters ==> sys.emitters[e].input == start.emitters[e].input)
    && forall i :: 0 <= i < |sys.log| ==>
         && sys.log[i].emitter in start.emitters
         && var u := sys.log[i].receipt.unsigned;
            u == BuildUnsigned(lib, cfg, start.emitters[sys.log[i].emitter].input, u.prev)
  }

  lemma InputStays(lib: Lib, cfg: Config, s: Store, now: nat, em: Emitter, ev: Event)
    ensures Advance(lib, cfg, s, now, em, ev).input == em.input
  {
    hide BuildUnsigned, LookupAnswer, PutAnswer, PreviousHash;
  }

  lemma PuttingIsBuilt(lib: Lib, cfg: Config, log: seq<Entry>, e: nat, em: Emitter)
    requires EmitterOk(lib, cfg, log, e, em) && em.phase.Putting?
    ensures var u := em.phase.signed.unsigned; u == BuildUnsigned(lib, cfg, em.input, u.prev)
  {
    hide BuildUnsigned;
  }

  lemma StepStoresFromInputs(lib: Lib, cfg: Config, start: System, sys: System, e: nat, ev: Event)
    requires Inv(lib, cfg, sys) && StoredFromInputs(lib, cfg, start, sys)
    ensures StoredFromInputs(lib, cfg, start, Step(lib, cfg, sys, e, ev))
  {
    hide EmitterOk, BuildUnsigned, Advance, PutAnswer, PutState, Replay, Admissible, Honest;
    if e in sys.emitters {
      InputStays(lib, cfg, sys.store, |sys.log|, sys.emitters[e], ev);
      if sys.emitters[e].phase.Putting? { PuttingIsBuilt(lib, cfg, sys.log, e, sys.emitters[e]); }
    }
  }

  lemma {:induction false} RunStoresFromInputs(lib: Lib, cfg: Config, start: System, sys: System,
      schedule: seq<(nat, Event)>)
    requires Inv(lib, cfg, sys) && StoredFromInputs(lib, cfg, start, sys)
    ensures StoredFromInputs(lib, cfg, start, Run(lib, cfg, sys, schedule))
    decreases |schedule|
  {
    hide Inv, Step, StoredFromInputs;
    if |schedule| > 0 {
      StepKeepsInv(lib, cfg, sys, schedule[0].0, schedule[0].1);
      StepStoresFromInputs(lib, cfg, start, sys, schedule[0].0, schedule[0].1);
      RunStoresFromInputs(lib, cfg, start, Step(lib, cfg, sys, schedule[0].0, schedule[0].1), schedule[1..]);
    }
  }

  lemma NothingStoredYet(lib: Lib, cfg: Config, start: System)
    requires Initial(cfg, start)
    ensures StoredFromInputs(lib, cfg, start, start)
  {
  }

  /** In every interleaving, each stored receipt says what the input of the emitter that stored it says. */
  lemma StoredRecordsInput(lib: Lib, cfg: Config, start: System, schedule: seq<(nat, Event)>, i: nat)
    requires Initial(cfg, start) && i < |Run(lib, cfg, start, schedule).log|
    ensures var entry := Run(lib, cfg, start, schedule).log[i];
            && entry.emitter in start.emitters
            && RecordsInput(lib, cfg, start.emitters[entry.emitter].input, entry.receipt.unsigned.body)
            && ContentAddressed(lib, entry.receipt.unsigned)
  {
    hide Run, Inv, RecordsInput, BuildBody, Initial;
    InitialInv(lib, cfg, start);
    NothingStoredYet(lib, cfg, start);
    RunStoresFromInputs(lib, cfg, start, start, schedule);
    var entry := Run(lib, cfg, start, schedule).log[i];
    BuiltBodyRecordsInput(lib, cfg, start.emitters[entry.emitter].input);
  }
}
