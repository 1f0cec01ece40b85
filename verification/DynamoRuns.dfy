/** Any number of puts interleaved over one DynamoDB table: the transaction and each explaining read are steps. */
module DynamoRuns {
  import opened Prelude
  import opened Receipts
  import opened ReceiptStore
  import opened DynamoStore
  import Chain = ReceiptChain

  /** Where one put stands; `last` is the phase that gave the answer. */
  datatype Phase =
    | Writing
    | ReadingMarker
    | ReadingTarget(marker: Item)
    | ReadingReceipt
    | ReadingHead
    | Answered(outcome: PutOutcome, last: Phase)

  /** The moments are lengths of the log of committed receipts, taken when each step was made. */
  datatype Writer = Writer(
    r: Signed, startedAt: nat, failedAt: nat, markerAt: nat, receiptAt: nat, answeredAt: nat, phase: Phase)

  datatype System = System(table: Table, log: seq<Signed>, writers: map<nat, Writer>)

  datatype Event = Begin(r: Signed) | Next

  const NOBODY := System(map[], [], map[])

  /******** Steps ********/

  /** What the marker and the receipt it points to answer. */
  function TargetAnswer(lib: Lib, table: Table, r: Signed, marker: Item): PutOutcome {
    var stored := if marker.MarkerItem? then ReceiptAt(table, (Tenant(r), marker.targetReceiptId)) else None;
    if stored.None? then Refused(MarkerTargetMissing)
    else if RequestDigest(lib, r.unsigned) != marker.requestDigest then Refused(RequestReplayMismatch)
    else Existing(stored.value, marker.persistedAt)
  }

  /** What a receipt stored under the same id answers. */
  function ReceiptAnswer(lib: Lib, r: Signed, stored: Signed, persistedAt: string): PutOutcome {
    if UnsignedDigest(lib, r.unsigned) != UnsignedDigest(lib, stored.unsigned) then Refused(PrimaryKeyCollision)
    else Existing(stored, persistedAt)
  }

  /** What the head answers when neither marker nor receipt was found. */
  function HeadAnswer(r: Signed, observed: Option<string>): PutOutcome {
    if observed != r.unsigned.prev then Refused(ChainHeadConflict(r.unsigned.prev, observed))
    else Refused(NoExistingReceipt)
  }

  predicate Commits(lib: Lib, table: Table, w: Writer) {
    w.phase.Writing? && SchemaValid(lib, w.r) && Writable(lib, table, w.r)
  }

  /** One put's own change of state, given the table it sees. */
  function Advance(lib: Lib, table: Table, now: nat, w: Writer): Writer {
    match w.phase
    case Writing =>
      var failed := w.(failedAt := now, markerAt := now, receiptAt := now, answeredAt := now);
      if !SchemaValid(lib, w.r) then failed.(phase := Answered(Refused(SchemaInvalid), Writing))
      else if Writable(lib, table, w.r)
          then failed.(phase := Answered(Created(w.r, w.r.unsigned.body.timestamp), Writing))
      else failed.(phase := ReadingMarker)
    case ReadingMarker =>
      var key := MarkerKey(lib, w.r);
      w.(markerAt := now, receiptAt := now, answeredAt := now,
         phase := if key in table then ReadingTarget(table[key]) else ReadingReceipt)
    case ReadingTarget(marker) =>
      w.(receiptAt := now, answeredAt := now, phase := Answered(TargetAnswer(lib, table, w.r, marker), w.phase))
    case ReadingReceipt =>
      var key := ReceiptKey(w.r);
      var stored := ReceiptAt(table, key);
      w.(receiptAt := now, answeredAt := now,
         phase := if stored.None? then ReadingHead
                  else Answered(ReceiptAnswer(lib, w.r, stored.value, table[key].persistedAt), ReadingReceipt))
    case ReadingHead =>
      w.(answeredAt := now, phase := Answered(HeadAnswer(w.r, HeadHashAt(table, Tenant(w.r))), ReadingHead))
    case Answered(_, _) => w
  }

  function Step(lib: Lib, sys: System, i: nat, ev: Event): System {
    match ev
    case Begin(r) =>
      var now := |sys.log|;
      if i in sys.writers then sys
      else sys.(writers := sys.writers[i := Writer(r, now, now, now, now, now, Writing)])
    case Next =>
      if i !in sys.writers then sys
      else
        var w := sys.writers[i];
        var w' := Advance(lib, sys.table, |sys.log|, w);
        if Commits(lib, sys.table, w) then
          System(Committed(lib, sys.table, w.r), sys.log + [w.r], sys.writers[i := w'])
        else sys.(writers := sys.writers[i := w'])
  }

  /** The state after a schedule: which put begins or moves. */
  function Run(lib: Lib, sys: System, schedule: seq<(nat, Event)>): System
    decreases |schedule|
  {
    if |schedule| == 0 then sys else Run(lib, Step(lib, sys, schedule[0].0, schedule[0].1), schedule[1..])
  }

  /******** What every reachable state keeps ********/

  /** The store that the first `n` committed receipts make. */
  ghost function At(lib: Lib, log: seq<Signed>, n: nat): Store {
    if n <= |log| then Replay(lib, log[..n]) else EMPTY
  }

  /** Nothing stands in the way of this receipt. */
  ghost predicate Free(lib: Lib, s: Store, r: Signed) {
    ReceiptKey(r) !in s.receipts && MarkerKey(lib, r) !in s.markers && HeadHash(s, Tenant(r)) == r.unsigned.prev
  }

  ghost predicate MomentsOk(log: seq<Signed>, w: Writer) {
    w.startedAt <= w.failedAt <= w.markerAt <= w.receiptAt <= w.answeredAt <= |log|
  }

  ghost predicate TransactionFailed(lib: Lib, log: seq<Signed>, w: Writer) {
    SchemaValid(lib, w.r) && !Free(lib, At(lib, log, w.failedAt), w.r)
  }

  ghost predicate MarkerRead(lib: Lib, log: seq<Signed>, w: Writer, marker: Item) {
    var markers := At(lib, log, w.markerAt).markers;
    MarkerKey(lib, w.r) in markers && marker == ItemOf(markers[MarkerKey(lib, w.r)])
  }

  function ItemOf(m: Marker): Item {
    MarkerItem(m.requestDigest, m.receiptId, m.persistedAt)
  }

  ghost predicate MarkerMissed(lib: Lib, log: seq<Signed>, w: Writer) {
    MarkerKey(lib, w.r) !in At(lib, log, w.markerAt).markers
  }

  ghost predicate ReceiptMissed(lib: Lib, log: seq<Signed>, w: Writer) {
    ReceiptKey(w.r) !in At(lib, log, w.receiptAt).receipts
  }

  /** Each answer was right about the store at the moment of the read that gave it. */
  ghost predicate Justified(lib: Lib, log: seq<Signed>, w: Writer, outcome: PutOutcome, last: Phase) {
    match last
    case Writing =>
      if SchemaValid(lib, w.r) then
        w.answeredAt < |log| && log[w.answeredAt] == w.r && outcome == PutAnswer(lib, At(lib, log, w.answeredAt), w.r)
        && outcome.Created?
      else outcome == Refused(SchemaInvalid)
    case ReadingTarget(marker) =>
      TransactionFailed(lib, log, w) && MarkerRead(lib, log, w, marker)
      && outcome == PutAnswer(lib, At(lib, log, w.markerAt), w.r)
    case ReadingReceipt =>
      var receipts := At(lib, log, w.answeredAt).receipts;
      && TransactionFailed(lib, log, w) && MarkerMissed(lib, log, w) && ReceiptKey(w.r) in receipts
      && var stored := receipts[ReceiptKey(w.r)];
         outcome == ReceiptAnswer(lib, w.r, stored, stored.unsigned.body.timestamp)
    case ReadingHead =>
      && TransactionFailed(lib, log, w) && MarkerMissed(lib, log, w) && ReceiptMissed(lib, log, w)
      && outcome == HeadAnswer(w.r, HeadHash(At(lib, log, w.answeredAt), Tenant(w.r)))
    case _ => false
  }

  ghost predicate WriterOk(lib: Lib, log: seq<Signed>, w: Writer) {
    && MomentsOk(log, w)
    && match w.phase
       case Writing => true
       case ReadingMarker => TransactionFailed(lib, log, w)
       case ReadingTarget(marker) => TransactionFailed(lib, log, w) && MarkerRead(lib, log, w, marker)
       case ReadingReceipt => TransactionFailed(lib, log, w) && MarkerMissed(lib, log, w)
       case ReadingHead => TransactionFailed(lib, log, w) && MarkerMissed(lib, log, w) && ReceiptMissed(lib, log, w)
       case Answered(outcome, last) => Justified(lib, log, w, outcome, last)
  }

  ghost predicate Inv(lib: Lib, sys: System) {
    && Admissible(lib, sys.log) && Represents(sys.table, Replay(lib, sys.log))
    && forall i :: i in sys.writers ==> WriterOk(lib, sys.log, sys.writers[i])
  }

  /******** The log only grows ********/

  lemma AtExtends(lib: Lib, log: seq<Signed>, r: Signed, n: nat)
    requires n <= |log|
    ensures At(lib, log + [r], n) == At(lib, log, n)
  {
    assert (log + [r])[..n] == log[..n];
  }

  lemma AtEnd(lib: Lib, log: seq<Signed>)
    ensures At(lib, log, |log|) == Replay(lib, log)
  {
    assert log[..|log|] == log;
  }

  /** The later store still holds every receipt and marker of the earlier one. */
  ghost predicate Keeps(s: Store, later: Store) {
    && (forall k :: k in s.receipts ==> k in later.receipts && later.receipts[k] == s.receipts[k])
    && (forall k :: k in s.markers ==> k in later.markers && later.markers[k] == s.markers[k])
  }

  lemma {:induction false} PrefixKept(lib: Lib, log: seq<Signed>, n: nat)
    requires Admissible(lib, log) && n <= |log|
    ensures Admissible(lib, log[..n]) && Keeps(Replay(lib, log[..n]), Replay(lib, log))
  {
    hide Admissible, Replay, PutAnswer, SchemaValid, MarkerKey, MarkerOf, ReceiptKey, Itself;
    if n == |log| {
      assert log[..n] == log;
    } else {
      var m := |log| - 1;
      ReplayStep(lib, log);
      CreatedIsFresh(lib, Replay(lib, log[..m]), log[m]);
      PrefixKept(lib, log[..m], n);
      assert log[..m][..n] == log[..n];
    }
  }

  lemma MomentsKept(lib: Lib, log: seq<Signed>, m: nat, n: nat)
    requires Admissible(lib, log) && m <= n <= |log|
    ensures Keeps(At(lib, log, m), At(lib, log, n)) && Sane(At(lib, log, m))
  {
    hide Admissible, Replay, Keeps, Sane;
    PrefixKept(lib, log, n);
    PrefixKept(lib, log[..n], m);
    assert log[..n][..m] == log[..m];
    ReplayIsSane(lib, log[..m]);
  }

  lemma CommitKeepsWriter(lib: Lib, log: seq<Signed>, r: Signed, w: Writer)
    requires WriterOk(lib, log, w)
    ensures WriterOk(lib, log + [r], w)
  {
    hide At, Free, PutAnswer, SchemaValid, MarkerKey, ReceiptKey, HeadHash, ReceiptAnswer, HeadAnswer;
    AtExtends(lib, log, r, w.failedAt);
    AtExtends(lib, log, r, w.markerAt);
    AtExtends(lib, log, r, w.receiptAt);
    AtExtends(lib, log, r, w.answeredAt);
  }

  /******** Steps keep the invariant ********/

  lemma WritableIsFree(lib: Lib, table: Table, s: Store, r: Signed)
    requires Represents(table, s) && Sane(s) && SchemaValid(lib, r)
    ensures Writable(lib, table, r) <==> Free(lib, s, r)
    ensures Free(lib, s, r) ==> PutAnswer(lib, s, r) == Created(r, r.unsigned.body.timestamp)
  {
    hide Represents, Sane, SchemaValid;
    WrittenKeys(lib, table, s, r);
  }

  lemma CommitStep(lib: Lib, sys: System, r: Signed)
    requires Inv(lib, sys) && SchemaValid(lib, r) && Writable(lib, sys.table, r)
    ensures var log := sys.log + [r];
            && PutAnswer(lib, At(lib, log, |sys.log|), r) == Created(r, r.unsigned.body.timestamp)
            && Admissible(lib, log) && Represents(Committed(lib, sys.table, r), Replay(lib, log))
  {
    hide WriterOk, Represents, Sane, SchemaValid, Free, PutAnswer, Writable, Committed;
    var s := Replay(lib, sys.log);
    ReplayIsSane(lib, sys.log);
    WritableIsFree(lib, sys.table, s, r);
    FreeKeys(lib, s, r);
    TransactionRepresentsInsert(lib, sys.table, s, r);
    PutKeepsLog(lib, sys.log, r);
    AtExtends(lib, sys.log, r, |sys.log|);
    AtEnd(lib, sys.log);
    assert (sys.log + [r])[..|sys.log|] == sys.log;
  }

  lemma FreeKeys(lib: Lib, s: Store, r: Signed)
    requires Free(lib, s, r)
    ensures ReceiptKey(r) !in s.receipts && MarkerKey(lib, r) !in s.markers
  {
  }

  lemma MarkerItemRead(lib: Lib, table: Table, s: Store, r: Signed)
    requires Represents(table, s) && Sane(s) && SchemaValid(lib, r)
    ensures MarkerKey(lib, r) in table <==> MarkerKey(lib, r) in s.markers
    ensures MarkerKey(lib, r) in table ==> table[MarkerKey(lib, r)] == ItemOf(s.markers[MarkerKey(lib, r)])
  {
    hide SchemaValid, MarkerKey, ReceiptKey;
    WrittenKeys(lib, table, s, r);
  }

  lemma ReceiptItemRead(lib: Lib, table: Table, s: Store, r: Signed)
    requires Represents(table, s) && Sane(s) && SchemaValid(lib, r)
    ensures ReceiptAt(table, ReceiptKey(r)).Some? <==> ReceiptKey(r) in s.receipts
    ensures ReceiptKey(r) in s.receipts ==>
              var stored := s.receipts[ReceiptKey(r)];
              table[ReceiptKey(r)] == ReceiptItem(stored, stored.unsigned.body.timestamp)
  {
    hide SchemaValid, MarkerKey, ReceiptKey;
    WrittenKeys(lib, table, s, r);
  }

  /** The target of a marker read earlier is found, and it answers what the store answered then. */
  lemma TargetStep(lib: Lib, table: Table, earlier: Store, s: Store, r: Signed, marker: Item)
    requires Represents(table, s) && Keeps(earlier, s) && Sane(earlier) && SchemaValid(lib, r)
    requires MarkerKey(lib, r) in earlier.markers && marker == ItemOf(earlier.markers[MarkerKey(lib, r)])
    ensures TargetAnswer(lib, table, r, marker) == PutAnswer(lib, earlier, r)
  {
    hide SchemaValid, RequestDigest, UnsignedDigest, HeadHash, MarkerKey, ReceiptKey,
      MarkersRepresented, HeadsRepresented;
    var target := (Tenant(r), marker.targetReceiptId);
    assert MarkerKey(lib, r).0 == Tenant(r) by { TenantOfMarker(lib, r); }
    assert target in earlier.receipts && target in s.receipts;
    assert ReceiptAt(table, target) == Some(s.receipts[target]);
  }

  lemma TenantOfMarker(lib: Lib, r: Signed)
    ensures MarkerKey(lib, r).0 == Tenant(r)
  {
  }

  lemma ReadStep(lib: Lib, sys: System, w: Writer)
    requires Inv(lib, sys) && WriterOk(lib, sys.log, w) && !w.phase.Writing?
    ensures WriterOk(lib, sys.log, Advance(lib, sys.table, |sys.log|, w))
  {
    hide Admissible, Represents, Sane, Replay, At, Free, PutAnswer, SchemaValid, MarkerKey, ReceiptKey, HeadHash, Keeps,
      TargetAnswer, ReceiptAnswer, HeadAnswer, ReceiptAt, HeadHashAt, ItemOf;
    var now, s := |sys.log|, Replay(lib, sys.log);
    AtEnd(lib, sys.log);
    ReplayIsSane(lib, sys.log);
    if !w.phase.Answered? {
      MarkerItemRead(lib, sys.table, s, w.r);
      ReceiptItemRead(lib, sys.table, s, w.r);
      HeadItemRead(lib, sys.table, s, w.r);
      FoundItem(sys.table, ReceiptKey(w.r));
    }
    if w.phase.ReadingTarget? {
      MomentsKept(lib, sys.log, w.markerAt, now);
      TargetStep(lib, sys.table, At(lib, sys.log, w.markerAt), s, w.r, w.phase.marker);
    }
  }

  lemma HeadItemRead(lib: Lib, table: Table, s: Store, r: Signed)
    requires Represents(table, s) && Sane(s) && SchemaValid(lib, r)
    ensures HeadHashAt(table, Tenant(r)) == HeadHash(s, Tenant(r))
  {
    hide Represents, Sane, SchemaValid, HeadHash, HeadHashAt;
    WrittenKeys(lib, table, s, r);
  }

  lemma FoundItem(table: Table, key: Key)
    ensures ReceiptAt(table, key).Some? ==>
              key in table && table[key].ReceiptItem? && table[key].receipt == ReceiptAt(table, key).value
  {
  }

  lemma WriteStep(lib: Lib, sys: System, w: Writer)
    requires Inv(lib, sys) && WriterOk(lib, sys.log, w) && w.phase.Writing?
    ensures var w' := Advance(lib, sys.table, |sys.log|, w);
            WriterOk(lib, if Commits(lib, sys.table, w) then sys.log + [w.r] else sys.log, w')
  {
    hide Admissible, Represents, Sane, Replay, At, Free, PutAnswer, SchemaValid, Writable, Committed;
    AtEnd(lib, sys.log);
    ReplayIsSane(lib, sys.log);
    if SchemaValid(lib, w.r) {
      WritableIsFree(lib, sys.table, Replay(lib, sys.log), w.r);
      if Writable(lib, sys.table, w.r) { CommitStep(lib, sys, w.r); }
    }
  }

  /** Every step of every put keeps the table a log and every put's knowledge right. */
  lemma StepKeepsInv(lib: Lib, sys: System, i: nat, ev: Event)
    requires Inv(lib, sys)
    ensures Inv(lib, Step(lib, sys, i, ev))
  {
    hide Admissible, Represents, Replay, WriterOk, Advance, Committed, Commits;
    match ev
    case Begin(r) => FreshWriter(lib, sys.log, r);
    case Next =>
      if i in sys.writers {
        var w := sys.writers[i];
        CommitsWhat(lib, sys.table, w);
        if w.phase.Writing? { WriteStep(lib, sys, w); } else { ReadStep(lib, sys, w); }
        if Commits(lib, sys.table, w) {
          CommitStep(lib, sys, w.r);
          forall j | j in sys.writers ensures WriterOk(lib, sys.log + [w.r], sys.writers[j]) {
            CommitKeepsWriter(lib, sys.log, w.r, sys.writers[j]);
          }
        }
      }
  }

  lemma CommitsWhat(lib: Lib, table: Table, w: Writer)
    ensures Commits(lib, table, w) ==> w.phase.Writing? && SchemaValid(lib, w.r) && Writable(lib, table, w.r)
  {
  }

  lemma FreshWriter(lib: Lib, log: seq<Signed>, r: Signed)
    ensures var now := |log|; WriterOk(lib, log, Writer(r, now, now, now, now, now, Writing))
  {
  }

  lemma {:induction false} RunKeepsInv(lib: Lib, sys: System, schedule: seq<(nat, Event)>)
    requires Inv(lib, sys)
    ensures Inv(lib, Run(lib, sys, schedule))
    decreases |schedule|
  {
    hide Inv, Step;
    if |schedule| > 0 {
      StepKeepsInv(lib, sys, schedule[0].0, schedule[0].1);
      RunKeepsInv(lib, Step(lib, sys, schedule[0].0, schedule[0].1), schedule[1..]);
    }
  }

  lemma NobodyInv(lib: Lib)
    ensures Inv(lib, NOBODY)
  {
  }

  /******** What every schedule of puts guarantees ********/

  lemma RunFacts(lib: Lib, schedule: seq<(nat, Event)>)
    ensures Inv(lib, Run(lib, NOBODY, schedule))
  {
    NobodyInv(lib);
    RunKeepsInv(lib, NOBODY, schedule);
  }

  /** The table always stands for a log of committed receipts, and its head items end unforked chains. */
  lemma TableIsALog(lib: Lib, schedule: seq<(nat, Event)>, tenant: string)
    ensures var sys := Run(lib, NOBODY, schedule);
            && Admissible(lib, sys.log) && Represents(sys.table, Replay(lib, sys.log))
            && Linked(lib, tenant, TenantChain(sys.log, tenant))
            && HeadHashAt(sys.table, tenant) == LastHash(lib, TenantChain(sys.log, tenant))
  {
    hide Run, Admissible, Represents, Replay, Linked, TenantChain, LastHash, HeadHash, HeadHashAt, Sane, WriterOk;
    var sys := Run(lib, NOBODY, schedule);
    RunFacts(lib, schedule);
    ChainsAreUnforked(lib, sys.log, tenant);
    ReplayIsSane(lib, sys.log);
    HeadIsRepresented(sys.table, Replay(lib, sys.log), tenant);
  }

  lemma HeadIsRepresented(table: Table, s: Store, tenant: string)
    requires Represents(table, s) && Sane(s)
    ensures HeadHashAt(table, tenant) == HeadHash(s, tenant)
  {
    KeySpacesDisjoint(CHAIN_HEAD_RECEIPT_ID);
  }

  /** Put `i` of this run has been answered, and `w` is what is known of it. */
  ghost predicate Done(sys: System, i: nat, w: Writer) {
    i in sys.writers && sys.writers[i] == w && w.phase.Answered?
  }

  lemma DoneIsJustified(lib: Lib, schedule: seq<(nat, Event)>, i: nat, w: Writer)
    requires Done(Run(lib, NOBODY, schedule), i, w)
    ensures var log := Run(lib, NOBODY, schedule).log;
            Admissible(lib, log) && MomentsOk(log, w) && Justified(lib, log, w, w.phase.outcome, w.phase.last)
  {
    hide Run, Admissible, Represents, Justified, MomentsOk;
    RunFacts(lib, schedule);
  }

  /** Whatever receipt a put answers with, it is one of the committed receipts. */
  lemma AnsweredIsStored(lib: Lib, schedule: seq<(nat, Event)>, i: nat, w: Writer)
    requires Done(Run(lib, NOBODY, schedule), i, w) && !w.phase.outcome.Refused?
    ensures w.phase.outcome.receipt in Run(lib, NOBODY, schedule).log
  {
    hide Run, Admissible, Justified, MomentsOk;
    DoneIsJustified(lib, schedule, i, w);
    JustifiedIsStored(lib, Run(lib, NOBODY, schedule).log, w);
  }

  lemma StoredIsLogged(lib: Lib, log: seq<Signed>, n: nat, k: Key)
    requires Admissible(lib, log) && n <= |log| && k in At(lib, log, n).receipts
    ensures At(lib, log, n).receipts[k] in log && ReceiptKey(At(lib, log, n).receipts[k]) == k
  {
    hide Admissible, Replay;
    PrefixKept(lib, log, n);
    ReceiptsAreIndexed(lib, log[..n]);
    var j :| 0 <= j < n && ReceiptKey(log[..n][j]) == k;
    assert log[..n][j] == log[j];
  }

  lemma JustifiedIsStored(lib: Lib, log: seq<Signed>, w: Writer)
    requires w.phase.Answered? && Admissible(lib, log) && MomentsOk(log, w)
    requires Justified(lib, log, w, w.phase.outcome, w.phase.last) && !w.phase.outcome.Refused?
    ensures w.phase.outcome.receipt in log
  {
    hide Admissible, At, SchemaValid, ReceiptKey, MarkerKey, HeadHash, RequestDigest, UnsignedDigest;
    match w.phase.last
    case ReadingTarget(marker) =>
      var markers := At(lib, log, w.markerAt).markers;
      StoredIsLogged(lib, log, w.markerAt, (Tenant(w.r), markers[MarkerKey(lib, w.r)].receiptId));
    case ReadingReceipt => StoredIsLogged(lib, log, w.answeredAt, ReceiptKey(w.r));
    case _ =>
  }

  /** The moments at which the in-memory repository would have answered the same. */
  ghost predicate AnsweredAsAt(lib: Lib, log: seq<Signed>, w: Writer, n: nat) {
    w.phase.Answered? && w.startedAt <= n <= w.answeredAt && w.phase.outcome == PutAnswer(lib, At(lib, log, n), w.r)
  }

  /**
   * Puts that answer with a receipt, or refuse it for its form or its request, are atomic: at some moment between their
   * first and last step the in-memory repository would have answered the same.
   */
  lemma AnswersAreAtomic(lib: Lib, schedule: seq<(nat, Event)>, i: nat, w: Writer) returns (n: nat)
    requires Done(Run(lib, NOBODY, schedule), i, w)
    requires var o := w.phase.outcome; o.Refused? ==> o.error.SchemaInvalid? || o.error.RequestReplayMismatch?
    requires CollisionFree(lib, HashedRecords(w.r) + LogRecords(Run(lib, NOBODY, schedule).log))
    ensures AnsweredAsAt(lib, Run(lib, NOBODY, schedule).log, w, n)
  {
    hide Run, Admissible, At, Free, SchemaValid, ReceiptKey, MarkerKey, HeadHash, RequestDigest,
      UnsignedDigest, CollisionFree;
    var log := Run(lib, NOBODY, schedule).log;
    DoneIsJustified(lib, schedule, i, w);
    n := if w.phase.last.ReadingTarget? then w.markerAt else w.answeredAt;
    if w.phase.last.ReadingReceipt? {
      SameContentIsFound(lib, log, w);
    }
  }

  lemma SameContentIsFound(lib: Lib, log: seq<Signed>, w: Writer)
    requires Admissible(lib, log) && w.answeredAt <= |log| && SchemaValid(lib, w.r)
    requires ReceiptKey(w.r) in At(lib, log, w.answeredAt).receipts
    requires var stored := At(lib, log, w.answeredAt).receipts[ReceiptKey(w.r)];
             UnsignedDigest(lib, w.r.unsigned) == UnsignedDigest(lib, stored.unsigned)
    requires CollisionFree(lib, HashedRecords(w.r) + LogRecords(log))
    ensures var stored := At(lib, log, w.answeredAt).receipts[ReceiptKey(w.r)];
            PutAnswer(lib, At(lib, log, w.answeredAt), w.r) == Existing(stored, stored.unsigned.body.timestamp)
  {
    hide Admissible, Replay, SchemaValid, PutAnswer;
    var early := log[..w.answeredAt];
    PrefixKept(lib, log, w.answeredAt);
    ReceiptsAreIndexed(lib, early);
    var j :| 0 <= j < |early| && ReceiptKey(early[j]) == ReceiptKey(w.r);
    assert Replay(lib, early).receipts[ReceiptKey(early[j])] == Itself(early[j]);
    assert early[j] == log[j] && UnsignedPayload(log[j].unsigned) in HashedRecords(log[j]);
    assert w.r.unsigned == early[j].unsigned;
    PutFindsRequest(lib, early, j, w.r);
  }

  /** A conflict reports the head that was read, and it is not the declared link; a marker's target is never missing. */
  lemma RefusalsAreTrue(lib: Lib, schedule: seq<(nat, Event)>, i: nat, w: Writer)
    requires Done(Run(lib, NOBODY, schedule), i, w) && w.phase.outcome.Refused?
    ensures w.phase.outcome.error != MarkerTargetMissing
    ensures w.phase.outcome.error.ChainHeadConflict? ==>
              && w.phase.outcome.error.expected == w.r.unsigned.prev != w.phase.outcome.error.observed
              && w.phase.outcome.error.observed == HeadHash(At(lib, Run(lib, NOBODY, schedule).log, w.answeredAt),
                  Tenant(w.r))
  {
    hide Run, Admissible, At, SchemaValid, ReceiptKey, HeadHash, RequestDigest, UnsignedDigest, Sane;
    var log := Run(lib, NOBODY, schedule).log;
    DoneIsJustified(lib, schedule, i, w);
    if w.phase.last.ReadingTarget? {
      MomentsKept(lib, log, w.markerAt, w.markerAt);
      TargetPresent(lib, At(lib, log, w.markerAt), w.r);
    }
  }

  lemma TargetPresent(lib: Lib, s: Store, r: Signed)
    requires Sane(s) && MarkerKey(lib, r) in s.markers
    ensures (Tenant(r), s.markers[MarkerKey(lib, r)].receiptId) in s.receipts
  {
  }

  /** A put with no commit between its first and last step answers exactly what the in-memory repository answers. */
  lemma UndisturbedIsAtomic(lib: Lib, schedule: seq<(nat, Event)>, i: nat, w: Writer)
    requires Done(Run(lib, NOBODY, schedule), i, w) && w.startedAt == w.answeredAt
    ensures AnsweredAsAt(lib, Run(lib, NOBODY, schedule).log, w, w.startedAt)
  {
    hide Run, Admissible, At, SchemaValid, ReceiptKey, MarkerKey, HeadHash, RequestDigest, UnsignedDigest;
    DoneIsJustified(lib, schedule, i, w);
  }

  /** A conflict is atomic at its last read unless the request or the receipt was stored in the meantime. */
  lemma ConflictIsAtomicIff(lib: Lib, schedule: seq<(nat, Event)>, i: nat, w: Writer)
    requires Done(Run(lib, NOBODY, schedule), i, w)
    requires w.phase.outcome.Refused? && w.phase.outcome.error.ChainHeadConflict?
    ensures var log := Run(lib, NOBODY, schedule).log;
            AnsweredAsAt(lib, log, w, w.answeredAt) <==>
            var s := At(lib, log, w.answeredAt);
            MarkerKey(lib, w.r) !in s.markers && ReceiptKey(w.r) !in s.receipts
  {
    hide Run, Admissible, At, SchemaValid, ReceiptKey, MarkerKey, HeadHash, RequestDigest, UnsignedDigest;
    DoneIsJustified(lib, schedule, i, w);
  }

  /******** The refusal that finds nothing ********/

  lemma {:induction false} ChainGrows(log: seq<Signed>, n: nat, tenant: string)
    requires n <= |log|
    ensures TenantChain(log[..n], tenant) <= TenantChain(log, tenant)
  {
    if n == |log| {
      assert log[..n] == log;
    } else {
      var m := |log| - 1;
      ChainGrows(log[..m], n, tenant);
      assert log[..m][..n] == log[..n];
    }
  }

  lemma LastHashesDiffer(lib: Lib, c: seq<Signed>, x: seq<Signed>, y: seq<Signed>)
    requires Chain.DistinctHashes(lib, c) && x <= y <= c && |x| < |y|
    ensures LastHash(lib, x) != LastHash(lib, y)
  {
    hide SignedHash;
    if |x| > 0 {
      assert c[|x| - 1] == x[|x| - 1] && c[|y| - 1] == y[|y| - 1];
    }
  }

  lemma HeadEndsChain(lib: Lib, log: seq<Signed>, n: nat, tenant: string)
    requires Admissible(lib, log) && n <= |log|
    ensures HeadHash(At(lib, log, n), tenant) == LastHash(lib, TenantChain(log[..n], tenant))
  {
    hide Admissible, Replay, TenantChain, LastHash, HeadHash, Linked;
    PrefixKept(lib, log, n);
    ChainsAreUnforked(lib, log[..n], tenant);
  }

  /** A head hash that was replaced never comes back. */
  lemma HeadNeverReturns(lib: Lib, log: seq<Signed>, tenant: string, a: nat, b: nat, c: nat)
    requires Admissible(lib, log) && CollisionFree(lib, LogRecords(log)) && a <= b <= c <= |log|
    requires HeadHash(At(lib, log, a), tenant) == HeadHash(At(lib, log, c), tenant)
    ensures HeadHash(At(lib, log, b), tenant) == HeadHash(At(lib, log, a), tenant)
  {
    hide Admissible, Replay, CollisionFree, LogRecords, TenantChain, LastHash, Chain.DistinctHashes,
      HeadHash, Linked, At;
    Chain.CollisionFreeHashesDistinct(lib, log, tenant);
    HeadEndsChain(lib, log, a, tenant);
    HeadEndsChain(lib, log, b, tenant);
    HeadEndsChain(lib, log, c, tenant);
    ChainGrows(log, c, tenant);
    ChainGrows(log[..c], b, tenant);
    ChainGrows(log[..b], a, tenant);
    assert log[..c][..b] == log[..b] && log[..b][..a] == log[..a];
    var x, z := TenantChain(log[..a], tenant), TenantChain(log[..c], tenant);
    if |x| < |z| {
      LastHashesDiffer(lib, TenantChain(log, tenant), x, z);
    } else {
      assert TenantChain(log[..b], tenant) == x;
    }
  }

  lemma KeptAbsence(s: Store, later: Store, k: Key)
    requires Keeps(s, later)
    ensures k !in later.receipts ==> k !in s.receipts
    ensures k !in later.markers ==> k !in s.markers
  {
  }

  /**
   * The transaction failed, yet no marker, no receipt and the declared head were found: then the head differed at the
   * failure and became the declared link before the last read. Without a collision, a link that was the head at any
   * moment up to the failure never gets there.
   */
  lemma NothingFoundMeansForeignLink(lib: Lib, schedule: seq<(nat, Event)>, i: nat, w: Writer)
    requires Done(Run(lib, NOBODY, schedule), i, w) && w.phase.outcome == Refused(NoExistingReceipt)
    ensures var log := Run(lib, NOBODY, schedule).log;
            && HeadHash(At(lib, log, w.failedAt), Tenant(w.r)) != w.r.unsigned.prev
            && HeadHash(At(lib, log, w.answeredAt), Tenant(w.r)) == w.r.unsigned.prev
            && (CollisionFree(lib, LogRecords(log)) ==>
                  forall n: nat :: n <= w.failedAt ==> HeadHash(At(lib, log, n), Tenant(w.r)) != w.r.unsigned.prev)
  {
    hide Run, Admissible, At, SchemaValid, ReceiptKey, MarkerKey, HeadHash, RequestDigest,
      UnsignedDigest, CollisionFree,
      LogRecords, Keeps, Sane;
    var log := Run(lib, NOBODY, schedule).log;
    DoneIsJustified(lib, schedule, i, w);
    MomentsKept(lib, log, w.failedAt, w.markerAt);
    MomentsKept(lib, log, w.failedAt, w.receiptAt);
    KeptAbsence(At(lib, log, w.failedAt), At(lib, log, w.markerAt), MarkerKey(lib, w.r));
    KeptAbsence(At(lib, log, w.failedAt), At(lib, log, w.receiptAt), ReceiptKey(w.r));
    if CollisionFree(lib, LogRecords(log)) {
      forall n: nat | n <= w.failedAt ensures HeadHash(At(lib, log, n), Tenant(w.r)) != w.r.unsigned.prev {
        if HeadHash(At(lib, log, n), Tenant(w.r)) == w.r.unsigned.prev {
          HeadNeverReturns(lib, log, Tenant(w.r), n, w.failedAt, w.answeredAt);
        }
      }
    }
  }

  function ThreeReads(i: nat): seq<(nat, Event)> {
    [(i, Next)] + ([(i, Next)] + ([(i, Next)] + []))
  }

  /** The second receipt's transaction fails before the first receipt commits; its three reads come behind. */
  function PredictedLink(a: Signed, b: Signed): seq<(nat, Event)> {
    [(0, Begin(b))] + ([(0, Next)] + ([(1, Begin(a))] + ([(1, Next)] + ThreeReads(0))))
  }

  lemma RunEnds(lib: Lib, sys: System)
    ensures Run(lib, sys, []) == sys
  {
  }

  lemma RunStep(lib: Lib, sys: System, e: (nat, Event), rest: seq<(nat, Event)>)
    ensures Run(lib, sys, [e] + rest) == Run(lib, Step(lib, sys, e.0, e.1), rest)
  {
    assert ([e] + rest)[1..] == rest;
  }

  lemma KeysBehindFirst(lib: Lib, a: Signed, b: Signed)
    requires SchemaValid(lib, a) && SchemaValid(lib, b) && Tenant(a) == Tenant(b)
    requires MarkerKey(lib, a) != MarkerKey(lib, b) && ReceiptKey(a) != ReceiptKey(b)
    ensures var table := Committed(lib, map[], a);
            && MarkerKey(lib, b) !in table && ReceiptAt(table, ReceiptKey(b)).None?
            && HeadHashAt(table, Tenant(b)) == Some(SignedHash(lib, a))
  {
    KeySpacesDisjoint(a.unsigned.receiptId);
    KeySpacesDisjoint(b.unsigned.receiptId);
    KeySpacesDisjoint(MarkerKey(lib, a).1);
    KeySpacesDisjoint(MarkerKey(lib, b).1);
  }

  lemma FirstSteps(lib: Lib, a: Signed, b: Signed)
    requires SchemaValid(lib, a) && SchemaValid(lib, b)
    requires a.unsigned.prev.None? && b.unsigned.prev.Some?
    ensures !Writable(lib, map[], b) && Writable(lib, map[], a)
  {
  }

  lemma FirstCommits(lib: Lib, a: Signed, b: Signed) returns (sys: System)
    requires SchemaValid(lib, a) && SchemaValid(lib, b) && a.unsigned.prev.None? && b.unsigned.prev.Some?
    ensures Run(lib, NOBODY, PredictedLink(a, b)) == Run(lib, sys, ThreeReads(0))
    ensures sys.table == Committed(lib, map[], a)
    ensures 0 in sys.writers && sys.writers[0].r == b && sys.writers[0].phase.ReadingMarker?
  {
    hide Run, SchemaValid, Writable, Committed, ThreeReads;
    FirstSteps(lib, a, b);
    var t4 := ThreeReads(0);
    var t3 := [(1, Next)] + t4;
    var t2 := [(1, Begin(a))] + t3;
    var t1 := [(0, Next)] + t2;
    var s1 := Step(lib, NOBODY, 0, Begin(b));
    var s2 := Step(lib, s1, 0, Next);
    var s3 := Step(lib, s2, 1, Begin(a));
    sys := Step(lib, s3, 1, Next);
    RunStep(lib, NOBODY, (0, Begin(b)), t1);
    RunStep(lib, s1, (0, Next), t2);
    RunStep(lib, s2, (1, Begin(a)), t3);
    RunStep(lib, s3, (1, Next), t4);
  }

  lemma ReadsFindNothing(lib: Lib, sys: System, i: nat)
    requires i in sys.writers && sys.writers[i].phase.ReadingMarker?
    requires var r := sys.writers[i].r;
             && MarkerKey(lib, r) !in sys.table && ReceiptAt(sys.table, ReceiptKey(r)).None?
             && HeadHashAt(sys.table, Tenant(r)) == r.unsigned.prev
    ensures var end := Run(lib, sys, ThreeReads(i));
            i in end.writers && end.writers[i].phase == Answered(Refused(NoExistingReceipt), ReadingHead)
  {
    hide Run, SchemaValid, Writable, Committed, MarkerKey, ReceiptKey, HeadHashAt, ReceiptAt;
    var s1 := Step(lib, sys, i, Next);
    var s2 := Step(lib, s1, i, Next);
    var s3 := Step(lib, s2, i, Next);
    RunStep(lib, sys, (i, Next), [(i, Next)] + ([(i, Next)] + []));
    RunStep(lib, s1, (i, Next), [(i, Next)] + []);
    RunStep(lib, s2, (i, Next), []);
    RunEnds(lib, s3);
  }

  /** A caller who supplies the hash of a receipt that is signed but not yet stored reaches that refusal. */
  lemma PredictedLinkFindsNothing(lib: Lib, a: Signed, b: Signed)
    requires SchemaValid(lib, a) && SchemaValid(lib, b) && Tenant(a) == Tenant(b)
    requires MarkerKey(lib, a) != MarkerKey(lib, b) && ReceiptKey(a) != ReceiptKey(b)
    requires a.unsigned.prev.None? && b.unsigned.prev == Some(SignedHash(lib, a))
    ensures var sys := Run(lib, NOBODY, PredictedLink(a, b));
            0 in sys.writers && sys.writers[0].phase == Answered(Refused(NoExistingReceipt), ReadingHead)
  {
    hide Run, SchemaValid, Committed, MarkerKey, ReceiptKey, HeadHashAt, ReceiptAt, SignedHash,
      PredictedLink, ThreeReads;
    KeysBehindFirst(lib, a, b);
    var sys := FirstCommits(lib, a, b);
    ReadsFindNothing(lib, sys, 0);
  }
}
