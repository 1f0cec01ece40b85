/** The per-invocation custody ledger, and the model invoker that records into it. */
module Custody {
  import opened Prelude

  const TRANSIT_SCHEMA := "ghost.gateway_transit.v1"

  datatype TransitRecord = TransitRecord(
    schemaVersion: string, statusCode: int, sequenceNum: int, requestDigest: string, responseDigest: string,
    outputText: Option<string>)

  datatype LedgerError =
    | BadSchema | BadSequenceNum | NeverAllocated | NotIncreasing | BadRequestDigest | BadResponseDigest

  /** What the ledger demands of a record, in the order it asks. */
  function Objection(r: TransitRecord, issued: nat, last: int): Option<LedgerError> {
    if r.schemaVersion != TRANSIT_SCHEMA then Some(BadSchema)
    else if !(0 <= r.sequenceNum <= MAX_SAFE_INTEGER) then Some(BadSequenceNum)
    else if r.sequenceNum >= issued then Some(NeverAllocated)
    else if r.sequenceNum <= last then Some(NotIncreasing)
    else if !DigestShape(r.requestDigest) then Some(BadRequestDigest)
    else if !DigestShape(r.responseDigest) then Some(BadResponseDigest)
    else None
  }

  /** What a record has to satisfy, in the order the ledger asks. */
  ghost function Demands(r: TransitRecord, issued: nat, last: int): seq<bool> {
    [r.schemaVersion == "ghost.gateway_transit.v1", 0 <= r.sequenceNum <= 9007199254740991, r.sequenceNum < issued,
     last < r.sequenceNum, DigestShape(r.requestDigest), DigestShape(r.responseDigest)]
  }

  const ERRORS := [BadSchema, BadSequenceNum, NeverAllocated, NotIncreasing, BadRequestDigest, BadResponseDigest]

  /** The objection is to the first demand that is not met; a record that meets all of them meets none. */
  lemma ObjectsToFirst(r: TransitRecord, issued: nat, last: int)
    ensures Objection(r, issued, last).None? <==> forall k :: 0 <= k < 6 ==> Demands(r, issued, last)[k]
    ensures forall k :: 0 <= k < 6 ==>
              (Objection(r, issued, last) == Some(ERRORS[k]) <==>
              !Demands(r, issued, last)[k] && forall m :: 0 <= m < k ==> Demands(r, issued, last)[m])
  {
    hide DigestShape;
    var d := Demands(r, issued, last);
    assert d[0] && d[1] && d[2] && d[3] && d[4] && d[5] ==> Objection(r, issued, last).None?;
    forall k | 0 <= k < 6
      ensures Objection(r, issued, last) == Some(ERRORS[k]) <==> !d[k] && forall m :: 0 <= m < k ==> d[m]
    {
      assert k == 0 || k == 1 || k == 2 || k == 3 || k == 4 || k == 5;
    }
  }

  class TransitLedger {
    var allocatedSequenceCount: nat
    var lastRecordedSequenceNum: int
    var transits: seq<TransitRecord>

    /** The records are a strictly increasing subsequence of the allocated numbers. */
    ghost predicate Valid()
      reads this
    {
      && (forall i :: 0 <= i < |transits| ==> 0 <= transits[i].sequenceNum < allocatedSequenceCount)
      && (forall i, j :: 0 <= i < j < |transits| ==> transits[i].sequenceNum < transits[j].sequenceNum)
      && lastRecordedSequenceNum == (if |transits| == 0 then -1 else transits[|transits| - 1].sequenceNum)
    }

    constructor ()
      ensures Valid() && allocatedSequenceCount == 0 && transits == []
    {
      allocatedSequenceCount, lastRecordedSequenceNum, transits := 0, -1, [];
    }

    /** A number is handed out before egress and never again, so a severed transit leaves a gap. */
    method NextSequenceNum() returns (n: nat)
      requires Valid()
      modifies this
      ensures Valid() && n == old(allocatedSequenceCount) && allocatedSequenceCount == n + 1
      ensures transits == old(transits) && lastRecordedSequenceNum == old(lastRecordedSequenceNum)
              && n > lastRecordedSequenceNum
    {
      n := allocatedSequenceCount;
      allocatedSequenceCount := allocatedSequenceCount + 1;
    }

    method Record(r: TransitRecord) returns (error: Option<LedgerError>)
      requires Valid()
      modifies this
      ensures Valid() && allocatedSequenceCount == old(allocatedSequenceCount)
      ensures error == Objection(r, old(allocatedSequenceCount), old(lastRecordedSequenceNum))
      ensures transits == if error.None? then old(transits) + [r] else old(transits)
    {
      error := Objection(r, allocatedSequenceCount, lastRecordedSequenceNum);
      if error.Some? {
        return;
      }
      lastRecordedSequenceNum := r.sequenceNum;
      transits := transits + [r];
    }
  }

  /** What the sidecar transit answers. */
  datatype TransitAnswer = Severed | Completed(statusCode: int, requestDigest: string, responseDigest: string,
      outputText: Option<string>)

  /** The ledger accepts the transit's record under the number allocated for it. */
  predicate Recordable(transit: TransitAnswer, issued: nat) {
    transit.Completed? && DigestShape(transit.requestDigest) && DigestShape(transit.responseDigest)
        && issued <= MAX_SAFE_INTEGER
  }

  /**
   * `GatewayBoundModelInvoker.invoke`: allocate, transit, record, and only then interpret. A model
   * output is returned only with its transit on record; a completed transit is recorded even when
   * the response is unusable.
   */
  method GatewayInvoke(ledger: TransitLedger, transit: TransitAnswer) returns (output: Option<string>)
    requires ledger.Valid()
    modifies ledger
    ensures ledger.Valid() && ledger.allocatedSequenceCount == old(ledger.allocatedSequenceCount) + 1
    ensures Recordable(transit, old(ledger.allocatedSequenceCount)) ==>
              && |ledger.transits| == |old(ledger.transits)| + 1 && old(ledger.transits) <= ledger.transits
              && ledger.transits[|ledger.transits| - 1].sequenceNum == old(ledger.allocatedSequenceCount)
              && ledger.transits[|ledger.transits| - 1].requestDigest == transit.requestDigest
              && ledger.transits[|ledger.transits| - 1].responseDigest == transit.responseDigest
              && ledger.transits[|ledger.transits| - 1].statusCode == transit.statusCode
              && ledger.transits[|ledger.transits| - 1].outputText == transit.outputText
              && ledger.transits[|ledger.transits| - 1].schemaVersion == "ghost.gateway_transit.v1"
    ensures !Recordable(transit, old(ledger.allocatedSequenceCount)) ==>
            ledger.transits == old(ledger.transits) && output.None?
    ensures output.Some? ==> transit.Completed? && transit.statusCode == 200 && output == transit.outputText
    ensures Recordable(transit, old(ledger.allocatedSequenceCount)) && transit.statusCode == 200 ==>
            output == transit.outputText
  {
    var sequenceNum := ledger.NextSequenceNum();
    if transit.Severed? {
      return None;
    }
    var error := ledger.Record(TransitRecord(TRANSIT_SCHEMA, transit.statusCode, sequenceNum, transit.requestDigest,
        transit.responseDigest, transit.outputText));
    if error.Some? || transit.statusCode != 200 {
      return None;
    }
    output := transit.outputText;
  }
}
