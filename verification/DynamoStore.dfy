/** The single-table DynamoDB repository and its refinement of the in-memory one. */
module DynamoStore {
  import opened Prelude
  import opened Receipts
  import opened ReceiptStore

  /** One item of the table; receipts, request markers and chain heads share the key space. */
  datatype Item =
    | ReceiptItem(receipt: Signed, persistedAt: string)
    | MarkerItem(requestDigest: string, targetReceiptId: string, persistedAt: string)
    | HeadItem(headHash: string, previousHash: Option<string>, latestReceiptId: string, updatedAt: string)

  type Table = map<Key, Item>

  const CHAIN_HEAD_RECEIPT_ID := "__chain_head__"

  function HeadKey(tenant: string): Key {
    (tenant, CHAIN_HEAD_RECEIPT_ID)
  }

  /** Attribute reads; an absent item or attribute reads as absent. */
  function ReceiptAt(table: Table, key: Key): Option<Signed> {
    if key in table && table[key].ReceiptItem? then Some(table[key].receipt) else None
  }

  function HeadHashAt(table: Table, tenant: string): Option<string> {
    var key := HeadKey(tenant);
    if key in table && table[key].HeadItem? then Some(table[key].headHash) else None
  }

  /** The condition on the chain-head item: absent for a first receipt, else holding the declared link. */
  predicate HeadCondition(table: Table, r: Signed) {
    if r.unsigned.prev.None? then HeadKey(Tenant(r)) !in table
    else HeadHashAt(table, Tenant(r)) == r.unsigned.prev
  }

  /** All three conditions of the transaction. */
  predicate Writable(lib: Lib, table: Table, r: Signed) {
    ReceiptKey(r) !in table && MarkerKey(lib, r) !in table && HeadCondition(table, r)
  }

  /** The table behind the transaction's three writes. */
  function Committed(lib: Lib, table: Table, r: Signed): Table {
    var persistedAt := r.unsigned.body.timestamp;
    table[ReceiptKey(r) := ReceiptItem(r, persistedAt)]
         [MarkerKey(lib, r) := MarkerItem(RequestDigest(lib, r.unsigned), r.unsigned.receiptId, persistedAt)]
         [HeadKey(Tenant(r)) := HeadItem(SignedHash(lib, r), r.unsigned.prev, r.unsigned.receiptId, persistedAt)]
  }

  /** The table represents the three maps of the in-memory store, and nothing else. */
  ghost predicate Represents(table: Table, s: Store) {
    && ReceiptsRepresented(table, s) && MarkersRepresented(table, s) && HeadsRepresented(table, s)
    && (forall k :: k in table ==> k in s.receipts || k in s.markers || (k.0 in s.heads && k == HeadKey(k.0)))
  }

  ghost predicate ReceiptsRepresented(table: Table, s: Store) {
    forall k :: k in s.receipts ==>
      k in table && table[k] == ReceiptItem(s.receipts[k], s.receipts[k].unsigned.body.timestamp)
  }

  ghost predicate MarkersRepresented(table: Table, s: Store) {
    forall k :: k in s.markers ==>
      k in table && table[k] == MarkerItem(s.markers[k].requestDigest, s.markers[k].receiptId, s.markers[k].persistedAt)
  }

  ghost predicate HeadsRepresented(table: Table, s: Store) {
    forall t :: t in s.heads ==> HeadKey(t) in table && HeadRepresents(table[HeadKey(t)], s.heads[t])
  }

  ghost predicate HeadRepresents(item: Item, head: Head) {
    item.HeadItem? && item.headHash == head.headHash && item.latestReceiptId == head.receiptId
        && item.updatedAt == head.updatedAt
  }

  /** Receipt ids, marker ids and the head id never meet, and every marker has its receipt. */
  ghost predicate Sane(s: Store) {
    && (forall k :: k in s.receipts ==> RECEIPT_ID_PREFIX <= k.1)
    && (forall k :: k in s.markers ==> REQUEST_MARKER_PREFIX <= k.1)
    && (forall k :: k in s.markers ==> (k.0, s.markers[k].receiptId) in s.receipts)
  }

  lemma KeySpacesDisjoint(id: string)
    ensures !("grct_" <= id && "__request__#" <= id)
    ensures !("grct_" <= "__chain_head__") && !("__request__#" <= "__chain_head__")
  {
    assert RECEIPT_ID_PREFIX[0] != REQUEST_MARKER_PREFIX[0] && RECEIPT_ID_PREFIX[0] != CHAIN_HEAD_RECEIPT_ID[0];
    assert REQUEST_MARKER_PREFIX[2] != CHAIN_HEAD_RECEIPT_ID[2];
  }

  lemma PutKeepsSane(lib: Lib, s: Store, r: Signed)
    requires Sane(s)
    ensures Sane(PutState(lib, s, r))
  {
  }

  /** Every store reached by puts is sane, so the refinement applies along every sequence of puts. */
  lemma {:induction false} ReplayIsSane(lib: Lib, log: seq<Signed>)
    requires Admissible(lib, log)
    ensures Sane(Replay(lib, log))
  {
    hide Sane;
    if |log| == 0 {
      EmptyIsSane();
    } else {
      ReplayIsSane(lib, log[..|log| - 1]);
      PutKeepsSane(lib, Replay(lib, log[..|log| - 1]), log[|log| - 1]);
    }
  }

  lemma EmptyIsSane()
    ensures Sane(EMPTY)
  {
  }

  /** The keys one receipt would write, seen from a represented store. */
  lemma WrittenKeys(lib: Lib, table: Table, s: Store, r: Signed)
    requires Represents(table, s) && Sane(s) && SchemaValid(lib, r)
    ensures ReceiptKey(r) in table <==> ReceiptKey(r) in s.receipts
    ensures MarkerKey(lib, r) in table <==> MarkerKey(lib, r) in s.markers
    ensures HeadKey(Tenant(r)) in table <==> Tenant(r) in s.heads
    ensures HeadHashAt(table, Tenant(r)) == HeadHash(s, Tenant(r))
  {
    KeySpacesDisjoint(r.unsigned.receiptId);
    KeySpacesDisjoint(MarkerKey(lib, r).1);
  }

  /** The transaction's three writes represent the in-memory insertion. */
  lemma TransactionRepresentsInsert(lib: Lib, table: Table, s: Store, r: Signed)
    requires Represents(table, s) && Sane(s) && SchemaValid(lib, r)
    requires ReceiptKey(r) !in s.receipts && MarkerKey(lib, r) !in s.markers
    ensures Represents(Committed(lib, table, r), Insert(lib, s, r))
    ensures var after, key := Committed(lib, table, r), (r.unsigned.body.tenantIdHash, "__chain_head__");
            key in after && after[key].HeadItem? && after[key].previousHash == r.unsigned.prev
  {
    hide Sane, SchemaValid, Represents;
    var persistedAt := r.unsigned.body.timestamp;
    var head := HeadItem(SignedHash(lib, r), r.unsigned.prev, r.unsigned.receiptId, persistedAt);
    var s1 := s.(receipts := s.receipts[ReceiptKey(r) := r]);
    var s2 := s1.(markers := s1.markers[MarkerKey(lib, r) := MarkerOf(lib, r)]);
    var t1 := table[ReceiptKey(r) := ReceiptItem(r, persistedAt)];
    var t2 := t1[MarkerKey(lib, r) := MarkerItem(RequestDigest(lib, r.unsigned), r.unsigned.receiptId, persistedAt)];
    KeysApart(lib, s, r);
    WriteReceipt(table, s, r);
    WriteMarker(t1, s1, MarkerKey(lib, r), MarkerOf(lib, r));
    WriteHead(t2, s2, Tenant(r), HeadOf(lib, r), head);
  }

  lemma WriteReceipt(table: Table, s: Store, r: Signed)
    requires Represents(table, s) && ReceiptKey(r) !in s.markers && forall t :: HeadKey(t) != ReceiptKey(r)
    ensures Represents(table[ReceiptKey(r) := ReceiptItem(r, r.unsigned.body.timestamp)],
            s.(receipts := s.receipts[ReceiptKey(r) := r]))
  {
    hide ReceiptKey, HeadRepresents;
  }

  lemma WriteMarker(table: Table, s: Store, k: Key, m: Marker)
    requires Represents(table, s) && k !in s.receipts && forall t :: HeadKey(t) != k
    ensures Represents(table[k := MarkerItem(m.requestDigest, m.receiptId, m.persistedAt)],
            s.(markers := s.markers[k := m]))
  {
    hide ReceiptKey, HeadRepresents;
  }

  lemma WriteHead(table: Table, s: Store, tenant: string, h: Head, item: Item)
    requires Represents(table, s) && HeadKey(tenant) !in s.receipts && HeadKey(tenant) !in s.markers
             && HeadRepresents(item, h)
    ensures Represents(table[HeadKey(tenant) := item], s.(heads := s.heads[tenant := h]))
  {
    hide ReceiptKey, HeadRepresents;
  }

  lemma KeysApart(lib: Lib, s: Store, r: Signed)
    requires Sane(s) && SchemaValid(lib, r)
    ensures ReceiptKey(r) != MarkerKey(lib, r)
    ensures forall t :: HeadKey(t) != ReceiptKey(r) && HeadKey(t) != MarkerKey(lib, r)
    ensures forall k :: k in s.receipts ==> k != MarkerKey(lib, r) && k != HeadKey(Tenant(r))
    ensures forall k :: k in s.markers ==> k != ReceiptKey(r) && k != HeadKey(Tenant(r))
  {
    KeySpacesDisjoint(r.unsigned.receiptId);
    KeySpacesDisjoint(MarkerKey(lib, r).1);
    forall k | k in s.receipts ensures k != MarkerKey(lib, r) { KeySpacesDisjoint(k.1); }
  }

  class DynamoRepository {
    var table: Table

    constructor ()
      ensures table == map[]
    {
      table := map[];
    }

    method Get(key: Key) returns (r: Option<Signed>)
      ensures r == ReceiptAt(table, key)
    {
      r := ReceiptAt(table, key);
    }

    /** The conditional transaction: all three writes or none. */
    method TransactWrite(lib: Lib, r: Signed) returns (committed: bool)
      modifies this
      ensures committed <==> Writable(lib, old(table), r)
      ensures table == if committed then Committed(lib, old(table), r) else old(table)
    {
      committed := ReceiptKey(r) !in table && MarkerKey(lib, r) !in table && HeadCondition(table, r);
      if committed {
        var persistedAt := r.unsigned.body.timestamp;
        table := table[ReceiptKey(r) := ReceiptItem(r, persistedAt)];
        table := table[MarkerKey(lib, r) := MarkerItem(RequestDigest(lib, r.unsigned),
            r.unsigned.receiptId, persistedAt)];
        table := table[HeadKey(Tenant(r)) := HeadItem(SignedHash(lib, r), r.unsigned.prev,
            r.unsigned.receiptId, persistedAt)];
      }
    }

    /** Run with nobody else writing, a put answers what the in-memory put answers and keeps the representation. */
    method Put(lib: Lib, r: Signed, ghost s: Store) returns (outcome: PutOutcome)
      requires Represents(table, s) && Sane(s)
      modifies this
      ensures outcome == PutAnswer(lib, s, r)
      ensures outcome != Refused(NoExistingReceipt)
      ensures Represents(table, PutState(lib, s, r))
    {
      if !SchemaValid(lib, r) {
        return Refused(SchemaInvalid);
      }
      WrittenKeys(lib, table, s, r);
      var committed := TransactWrite(lib, r);
      if committed {
        TransactionRepresentsInsert(lib, old(table), s, r);
        return Created(r, r.unsigned.body.timestamp);
      }
      outcome := ResolveConditionalCollision(lib, r, s);
    }

    method ResolveConditionalCollision(lib: Lib, r: Signed, ghost s: Store) returns (outcome: PutOutcome)
      requires Represents(table, s) && Sane(s) && SchemaValid(lib, r)
      requires !Writable(lib, table, r)
      ensures outcome == PutAnswer(lib, s, r) && !outcome.Created?
      ensures outcome != Refused(NoExistingReceipt)
    {
      hide Sane, SchemaValid, RequestDigest, UnsignedDigest, MarkerKey, ReceiptKey,
        MarkersRepresented, HeadsRepresented;
      WrittenKeys(lib, table, s, r);
      if MarkerKey(lib, r) in table {
        outcome := ResolveRequestMarkerCollision(lib, r, s);
        return;
      }
      var stored := Get(ReceiptKey(r));
      if stored.None? {
        var observedHead := HeadHashAt(table, Tenant(r));
        if observedHead != r.unsigned.prev {
          return Refused(ChainHeadConflict(r.unsigned.prev, observedHead));
        }
        return Refused(NoExistingReceipt);
      }
      if UnsignedDigest(lib, r.unsigned) != UnsignedDigest(lib, stored.value.unsigned) {
        return Refused(PrimaryKeyCollision);
      }
      outcome := Existing(stored.value, table[ReceiptKey(r)].persistedAt);
    }

    method ResolveRequestMarkerCollision(lib: Lib, r: Signed, ghost s: Store) returns (outcome: PutOutcome)
      requires Represents(table, s) && Sane(s) && SchemaValid(lib, r) && MarkerKey(lib, r) in s.markers
      ensures outcome == PutAnswer(lib, s, r)
    {
      var marker := table[MarkerKey(lib, r)];
      var stored := Get((Tenant(r), marker.targetReceiptId));
      if stored.None? {
        return Refused(MarkerTargetMissing);
      }
      if RequestDigest(lib, r.unsigned) != marker.requestDigest {
        return Refused(RequestReplayMismatch);
      }
      outcome := Existing(stored.value, marker.persistedAt);
    }
  }
}
