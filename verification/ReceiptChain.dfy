/** The receipt chain verifier, and its verdict on the chains the ledger produces. */
module ReceiptChain {
  import opened Prelude
  import opened Receipts
  import opened ReceiptStore

  /** One entry of the submitted array after schema validation. */
  datatype Parsed = Valid(receipt: Signed) | Malformed(error: string)

  datatype Detail =
    | EmptyChain
    | SchemaFailed(error: string)
    | TenantBreak(expected: string, observed: string)
    | DuplicateHash(hash: string)
    | FirstReceipt
    | FirstHasPrevious
    | PriorInvalid
    | TimestampRegressed
    | LinkMatches
    | LinkBroken(expected: string, declared: Option<string>)

  datatype Check = Check(index: int, passed: bool, detail: Detail)

  predicate TenantOk(rs: seq<Parsed>, i: int)
    requires 0 <= i < |rs| && rs[i].Valid?
  {
    rs[0].Valid? ==> Tenant(rs[i].receipt) == Tenant(rs[0].receipt)
  }

  /** Entry `i` was valid, of the chain's tenant, and carried this signed hash. */
  ghost predicate Carries(lib: Lib, rs: seq<Parsed>, i: int, hash: string) {
    0 <= i < |rs| && rs[i].Valid? && TenantOk(rs, i) && SignedHash(lib, rs[i].receipt) == hash
  }

  /** Entry `i` follows its predecessor in time and by hash. */
  ghost predicate LinksBack(lib: Lib, rs: seq<Parsed>, i: int)
    requires 0 <= i < |rs| && rs[i].Valid?
  {
    if i == 0 then rs[0].receipt.unsigned.prev == None
    else
      && rs[i - 1].Valid?
      && lib.millis(rs[i - 1].receipt.unsigned.body.timestamp) <= lib.millis(rs[i].receipt.unsigned.body.timestamp)
      && rs[i].receipt.unsigned.prev == Some(SignedHash(lib, rs[i - 1].receipt))
  }

  ghost predicate EntryPasses(lib: Lib, rs: seq<Parsed>, i: int)
    requires 0 <= i < |rs|
  {
    && rs[i].Valid? && TenantOk(rs, i)
    && (forall j :: 0 <= j < i ==> !Carries(lib, rs, j, SignedHash(lib, rs[i].receipt)))
    && LinksBack(lib, rs, i)
  }

  /** The valid entries up to `i` that carry the hash of entry `i` again. */
  ghost predicate Repeated(lib: Lib, rs: seq<Parsed>, i: int)
    requires 0 <= i < |rs| && rs[i].Valid?
  {
    exists j :: 0 <= j < i && Carries(lib, rs, j, SignedHash(lib, rs[i].receipt))
  }

  /** Entry `i` is a valid receipt of the chain's tenant whose hash was not seen before. */
  ghost predicate Compared(lib: Lib, rs: seq<Parsed>, i: int)
    requires 0 <= i < |rs|
  {
    rs[i].Valid? && TenantOk(rs, i) && !Repeated(lib, rs, i)
  }

  ghost predicate Regressed(lib: Lib, rs: seq<Parsed>, i: int)
    requires 0 < i < |rs| && rs[i - 1].Valid? && rs[i].Valid?
  {
    lib.millis(rs[i].receipt.unsigned.body.timestamp) < lib.millis(rs[i - 1].receipt.unsigned.body.timestamp)
  }

  /** What each detail of entry `i` says, with the values it reports. */
  ghost predicate Explains(lib: Lib, rs: seq<Parsed>, i: int, d: Detail)
    requires 0 <= i < |rs|
  {
    match d
    case EmptyChain => false
    case SchemaFailed(error) => rs[i] == Malformed(error)
    case TenantBreak(expected, observed) =>
      rs[0].Valid? && rs[i].Valid? && expected != observed
      && expected == rs[0].receipt.unsigned.body.tenantIdHash && observed == rs[i].receipt.unsigned.body.tenantIdHash
    case DuplicateHash(hash) =>
      rs[i].Valid? && TenantOk(rs, i) && Repeated(lib, rs, i)
      && hash == "sha256:" + lib.digest(SignedPayload(rs[i].receipt))
    case FirstReceipt => i == 0 && Compared(lib, rs, i) && rs[i].receipt.unsigned.prev.None?
    case FirstHasPrevious => i == 0 && Compared(lib, rs, i) && rs[i].receipt.unsigned.prev.Some?
    case PriorInvalid => i > 0 && Compared(lib, rs, i) && rs[i - 1].Malformed?
    case TimestampRegressed => i > 0 && Compared(lib, rs, i) && rs[i - 1].Valid? && Regressed(lib, rs, i)
    case LinkMatches =>
      i > 0 && Compared(lib, rs, i) && rs[i - 1].Valid? && !Regressed(lib, rs, i)
      && rs[i].receipt.unsigned.prev == Some("sha256:" + lib.digest(SignedPayload(rs[i - 1].receipt)))
    case LinkBroken(expected, declared) =>
      i > 0 && Compared(lib, rs, i) && rs[i - 1].Valid? && !Regressed(lib, rs, i) && declared != Some(expected)
      && expected == "sha256:" + lib.digest(SignedPayload(rs[i - 1].receipt))
      && declared == rs[i].receipt.unsigned.prev
  }

  lemma MalformedIsExplained(lib: Lib, rs: seq<Parsed>, i: int, error: string)
    requires 0 <= i < |rs| && rs[i] == Malformed(error)
    ensures Explains(lib, rs, i, SchemaFailed(error)) && !EntryPasses(lib, rs, i)
  {
  }

  lemma BreakIsExplained(lib: Lib, rs: seq<Parsed>, i: int)
    requires 0 <= i < |rs| && rs[i].Valid? && rs[0].Valid? && !TenantOk(rs, i)
    ensures Explains(lib, rs, i, TenantBreak(Tenant(rs[0].receipt), Tenant(rs[i].receipt)))
    ensures !EntryPasses(lib, rs, i)
  {
  }

  lemma RepeatIsExplained(lib: Lib, rs: seq<Parsed>, i: int)
    requires 0 <= i < |rs| && rs[i].Valid? && TenantOk(rs, i) && Repeated(lib, rs, i)
    ensures Explains(lib, rs, i, DuplicateHash(SignedHash(lib, rs[i].receipt))) && !EntryPasses(lib, rs, i)
  {
  }

  lemma ComparedPassesIff(lib: Lib, rs: seq<Parsed>, i: int)
    requires 0 <= i < |rs| && Compared(lib, rs, i)
    ensures EntryPasses(lib, rs, i) <==> LinksBack(lib, rs, i)
  {
    hide LinksBack;
  }

  method VerifyChain(lib: Lib, rs: seq<Parsed>) returns (checks: seq<Check>)
    ensures |rs| == 0 ==> checks == [Check(-1, false, EmptyChain)]
    ensures |rs| > 0 ==> |checks| == |rs|
    ensures |rs| > 0 ==> forall i :: 0 <= i < |rs| ==>
              checks[i].index == i && (checks[i].passed <==> EntryPasses(lib, rs, i))
              && Explains(lib, rs, i, checks[i].detail)
  {
    hide Explains, EntryPasses, LinksBack;
    if |rs| == 0 {
      return [Check(-1, false, EmptyChain)];
    }
    checks := [];
    var seen: set<string> := {};
    for i := 0 to |rs|
      invariant |checks| == i
      invariant forall h :: h in seen <==> exists j :: 0 <= j < i && Carries(lib, rs, j, h)
      invariant forall j :: 0 <= j < i ==>
                  checks[j].index == j && (checks[j].passed <==> EntryPasses(lib, rs, j))
                  && Explains(lib, rs, j, checks[j].detail)
    {
      var detail;
      match rs[i] {
      case Malformed(error) =>
        detail := SchemaFailed(error);
        MalformedIsExplained(lib, rs, i, error);
      case Valid(receipt) =>
        if rs[0].Valid? && Tenant(receipt) != Tenant(rs[0].receipt) {
          detail := TenantBreak(Tenant(rs[0].receipt), Tenant(receipt));
          BreakIsExplained(lib, rs, i);
        } else {
          var hash := SignedHash(lib, receipt);
          assert Carries(lib, rs, i, hash);
          if hash in seen {
            detail := DuplicateHash(hash);
            RepeatIsExplained(lib, rs, i);
          } else {
            seen := seen + {hash};
            detail := LinkDetail(lib, rs, i);
            ComparedPassesIff(lib, rs, i);
          }
        }
      }
      checks := checks + [Check(i, detail.FirstReceipt? || detail.LinkMatches?, detail)];
    }
  }

  function LinkDetail(lib: Lib, rs: seq<Parsed>, i: int): (d: Detail)
    requires 0 <= i < |rs| && rs[i].Valid?
    ensures d.FirstReceipt? || d.LinkMatches? <==> LinksBack(lib, rs, i)
    ensures Compared(lib, rs, i) ==> Explains(lib, rs, i, d)
  {
    var receipt := rs[i].receipt;
    if i == 0 then
      if receipt.unsigned.prev == None then FirstReceipt else FirstHasPrevious
    else if !rs[i - 1].Valid? then PriorInvalid
    else if lib.millis(receipt.unsigned.body.timestamp) < lib.millis(rs[i - 1].receipt.unsigned.body.timestamp)
        then TimestampRegressed
    else
      var expected := SignedHash(lib, rs[i - 1].receipt);
      if receipt.unsigned.prev == Some(expected) then LinkMatches else LinkBroken(expected, receipt.unsigned.prev)
  }

  ghost function Submitted(c: seq<Signed>): seq<Parsed> {
    seq(|c|, i requires 0 <= i < |c| => Valid(c[i]))
  }

  ghost predicate Accepted(lib: Lib, rs: seq<Parsed>) {
    |rs| > 0 && forall i :: 0 <= i < |rs| ==> EntryPasses(lib, rs, i)
  }

  ghost predicate TimesNonDecreasing(lib: Lib, c: seq<Signed>) {
    forall i :: 0 < i < |c| ==> lib.millis(c[i - 1].unsigned.body.timestamp) <= lib.millis(c[i].unsigned.body.timestamp)
  }

  ghost predicate DistinctHashes(lib: Lib, c: seq<Signed>) {
    forall i, j :: 0 <= i < j < |c| ==> SignedHash(lib, c[i]) != SignedHash(lib, c[j])
  }

  lemma AcceptedMakesChain(lib: Lib, rs: seq<Parsed>) returns (c: seq<Signed>)
    requires Accepted(lib, rs)
    ensures rs == Submitted(c) && |c| == |rs| && Linked(lib, Tenant(c[0]), c) && TimesNonDecreasing(lib, c)
            && DistinctHashes(lib, c)
  {
    hide EntryPasses, SignedHash;
    forall i | 0 <= i < |rs| ensures rs[i].Valid? {
      assert EntryPasses(lib, rs, i);
      EntryIsValid(lib, rs, i);
    }
    c := seq(|rs|, i requires 0 <= i < |rs| => rs[i].receipt);
    assert rs == Submitted(c);
    forall i | 0 <= i < |c| ensures Tenant(c[i]) == Tenant(c[0]) { EntryFollows(lib, c, i); }
    EntryFollows(lib, c, 0);
    forall i | 0 < i < |c|
      ensures c[i].unsigned.prev == Some(SignedHash(lib, c[i - 1]))
      ensures lib.millis(c[i - 1].unsigned.body.timestamp) <= lib.millis(c[i].unsigned.body.timestamp)
    {
      EntryFollows(lib, c, i);
    }
    forall i, j | 0 <= i < j < |c| ensures SignedHash(lib, c[i]) != SignedHash(lib, c[j]) {
      EntriesDiffer(lib, c, i, j);
    }
  }

  lemma EntryIsValid(lib: Lib, rs: seq<Parsed>, i: int)
    requires 0 <= i < |rs| && EntryPasses(lib, rs, i)
    ensures rs[i].Valid?
  {
  }

  lemma EntryFollows(lib: Lib, c: seq<Signed>, i: int)
    requires 0 <= i < |c| && |Submitted(c)| == |c| && EntryPasses(lib, Submitted(c), i)
    ensures Tenant(c[i]) == Tenant(c[0])
    ensures if i == 0 then c[i].unsigned.prev == None else c[i].unsigned.prev == Some(SignedHash(lib, c[i - 1]))
    ensures i > 0 ==> lib.millis(c[i - 1].unsigned.body.timestamp) <= lib.millis(c[i].unsigned.body.timestamp)
  {
    hide Carries;
    var rs := Submitted(c);
    assert rs[i] == Valid(c[i]) && rs[0] == Valid(c[0]);
    if i > 0 { assert rs[i - 1] == Valid(c[i - 1]); }
  }

  lemma EntriesDiffer(lib: Lib, c: seq<Signed>, i: int, j: int)
    requires 0 <= i < j < |c| && |Submitted(c)| == |c| && EntryPasses(lib, Submitted(c), i)
             && EntryPasses(lib, Submitted(c), j)
    ensures SignedHash(lib, c[i]) != SignedHash(lib, c[j])
  {
    hide LinksBack;
    var rs := Submitted(c);
    assert rs[i] == Valid(c[i]) && rs[j] == Valid(c[j]);
    assert !Carries(lib, rs, i, SignedHash(lib, rs[j].receipt));
  }

  /** Full acceptance means exactly: schema-valid, one tenant, linked from null, ordered in time, no repeated hash. */
  lemma AcceptedIffOrderedChain(lib: Lib, rs: seq<Parsed>)
    requires |rs| > 0
    ensures Accepted(lib, rs) <==>
            exists c :: rs == Submitted(c) && |c| == |rs| && Linked(lib, Tenant(c[0]), c) && TimesNonDecreasing(lib, c)
                && DistinctHashes(lib, c)
  {
    hide Accepted, Submitted, Linked, TimesNonDecreasing, DistinctHashes;
    if Accepted(lib, rs) {
      var c := AcceptedMakesChain(lib, rs);
      assert rs == Submitted(c) && |c| == |rs| && Linked(lib, Tenant(c[0]), c) && TimesNonDecreasing(lib, c)
          && DistinctHashes(lib, c);
    }
    if c :|
      rs == Submitted(c) && |c| == |rs| && Linked(lib, Tenant(c[0]), c) && TimesNonDecreasing(lib, c)
      && DistinctHashes(lib, c)
    {
      OrderedChainAccepted(lib, c);
    }
  }

  lemma OrderedChainAccepted(lib: Lib, c: seq<Signed>)
    requires |c| > 0 && Linked(lib, Tenant(c[0]), c) && TimesNonDecreasing(lib, c) && DistinctHashes(lib, c)
    ensures Accepted(lib, Submitted(c))
  {
    var rs := Submitted(c);
    forall i | 0 <= i < |rs| ensures EntryPasses(lib, rs, i) {
      assert rs[i] == Valid(c[i]) && rs[0] == Valid(c[0]);
      if i > 0 { assert rs[i - 1] == Valid(c[i - 1]); }
      forall j | 0 <= j < i ensures !Carries(lib, rs, j, SignedHash(lib, rs[i].receipt)) {
        assert rs[j] == Valid(c[j]);
      }
    }
  }

  lemma {:induction false} ChainComesFromLog(log: seq<Signed>, tenant: string)
    ensures forall r :: r in TenantChain(log, tenant) ==> r in log
  {
    if |log| > 0 {
      ChainComesFromLog(log[..|log| - 1], tenant);
    }
  }

  ghost predicate NoRepeats(c: seq<Signed>) {
    forall i, j :: 0 <= i < j < |c| ==> c[i] != c[j]
  }

  lemma NewestIsNew(lib: Lib, log: seq<Signed>)
    requires Admissible(lib, log) && |log| > 0
    ensures log[|log| - 1] !in log[..|log| - 1]
  {
    hide Admissible, Replay;
    ReceiptsAreIndexed(lib, log);
    var n := |log| - 1;
    assert forall i :: 0 <= i < n ==> ReceiptKey(log[i]) != ReceiptKey(log[n]);
  }

  lemma {:induction false} ChainHasNoRepeats(lib: Lib, log: seq<Signed>, tenant: string)
    requires Admissible(lib, log)
    ensures NoRepeats(TenantChain(log, tenant))
  {
    if |log| > 0 {
      NewestIsNew(lib, log);
      ChainHasNoRepeats(lib, log[..|log| - 1], tenant);
      ChainComesFromLog(log[..|log| - 1], tenant);
    }
  }

  lemma CollisionFreeHashesDistinct(lib: Lib, log: seq<Signed>, tenant: string)
    requires Admissible(lib, log) && CollisionFree(lib, LogRecords(log))
    ensures DistinctHashes(lib, TenantChain(log, tenant))
  {
    hide Admissible, CollisionFree;
    var c := TenantChain(log, tenant);
    ChainHasNoRepeats(lib, log, tenant);
    ChainComesFromLog(log, tenant);
    forall i, j | 0 <= i < j < |c| ensures SignedHash(lib, c[i]) != SignedHash(lib, c[j]) {
      LoggedPayload(log, c[i]);
      LoggedPayload(log, c[j]);
      if SignedHash(lib, c[i]) == SignedHash(lib, c[j]) {
        SignedHashInjective(lib, LogRecords(log), c[i], c[j]);
      }
    }
  }

  lemma LoggedPayload(log: seq<Signed>, r: Signed)
    requires r in log
    ensures SignedPayload(r) in LogRecords(log)
  {
    var i :| 0 <= i < |log| && log[i] == r;
    assert SignedPayload(r) in HashedRecords(log[i]);
  }

  /**
   * The verifier's verdict on a tenant's created receipts depends on the timestamps alone, which
   * `put` never looks at: all entries pass exactly when they do not decrease.
   */
  lemma LedgerChainAcceptedIff(lib: Lib, log: seq<Signed>, tenant: string)
    requires Admissible(lib, log) && CollisionFree(lib, LogRecords(log)) && TenantChain(log, tenant) != []
    ensures Accepted(lib, Submitted(TenantChain(log, tenant))) <==> TimesNonDecreasing(lib, TenantChain(log, tenant))
  {
    hide Admissible, CollisionFree;
    var c := TenantChain(log, tenant);
    ChainsAreUnforked(lib, log, tenant);
    CollisionFreeHashesDistinct(lib, log, tenant);
    assert Tenant(c[0]) == tenant;
    if TimesNonDecreasing(lib, c) {
      OrderedChainAccepted(lib, c);
    }
    if Accepted(lib, Submitted(c)) {
      forall i | 0 < i < |c|
        ensures lib.millis(c[i - 1].unsigned.body.timestamp) <= lib.millis(c[i].unsigned.body.timestamp)
      {
        assert EntryPasses(lib, Submitted(c), i);
        assert Submitted(c)[i - 1] == Valid(c[i - 1]);
      }
    }
  }
}
