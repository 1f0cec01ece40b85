/** The in-memory receipt repository: receipts, request markers and chain heads. */
module ReceiptStore {
  import opened Prelude
  import opened Receipts

  datatype Marker = Marker(receiptId: string, requestDigest: string, persistedAt: string)

  datatype Head = Head(receiptId: string, headHash: string, updatedAt: string)

  /** Map keys: (tenant hash, receipt id) and (tenant hash, marker id). */
  type Key = (string, string)

  datatype Store = Store(receipts: map<Key, Signed>, markers: map<Key, Marker>, heads: map<string, Head>)

  datatype PutError =
    | SchemaInvalid
    | RequestReplayMismatch
    | MarkerTargetMissing
    | PrimaryKeyCollision
    | ChainHeadConflict(expected: Option<string>, observed: Option<string>)
    | NoExistingReceipt

  datatype PutOutcome =
    | Created(receipt: Signed, persistedAt: string)
    | Existing(receipt: Signed, persistedAt: string)
    | Refused(error: PutError)

  const EMPTY := Store(map[], map[], map[])

  const REQUEST_MARKER_PREFIX := "__request__#"

  function Tenant(r: Signed): string {
    r.unsigned.body.tenantIdHash
  }

  function ReceiptKey(r: Signed): Key {
    (Tenant(r), r.unsigned.receiptId)
  }

  function MarkerId(lib: Lib, requestId: string): string {
    REQUEST_MARKER_PREFIX + lib.encodeUri(requestId)
  }

  function MarkerKey(lib: Lib, r: Signed): Key {
    (Tenant(r), MarkerId(lib, r.unsigned.body.requestId))
  }

  function MarkerOf(lib: Lib, r: Signed): Marker {
    Marker(r.unsigned.receiptId, RequestDigest(lib, r.unsigned), r.unsigned.body.timestamp)
  }

  function HeadOf(lib: Lib, r: Signed): Head {
    Head(r.unsigned.receiptId, SignedHash(lib, r), r.unsigned.body.timestamp)
  }

  function HeadHash(s: Store, tenant: string): Option<string> {
    if tenant in s.heads then Some(s.heads[tenant].headHash) else None
  }

  /** One line of a listing of chain heads. */
  datatype ChainHead = ChainHead(tenantId: string, head: Head)

  function ByTenant(before: (string, string) -> bool): (ChainHead, ChainHead) -> bool {
    (a: ChainHead, b: ChainHead) => before(a.tenantId, b.tenantId)
  }

  ghost predicate DistinctNames(heads: seq<ChainHead>) {
    forall i, j :: 0 <= i < j < |heads| ==> heads[i].tenantId != heads[j].tenantId
  }

  /** Each tenant with a head is listed once, with that head, and nobody else is. */
  ghost predicate Lists(s: Store, heads: seq<ChainHead>) {
    && (forall h :: h in heads ==> h.tenantId in s.heads && h.head == s.heads[h.tenantId])
    && (forall t :: t in s.heads ==> ChainHead(t, s.heads[t]) in heads)
    && DistinctNames(heads)
  }

  ghost predicate InTenantOrder(before: (string, string) -> bool, heads: seq<ChainHead>) {
    forall i, j :: 0 <= i < j < |heads| ==> before(heads[i].tenantId, heads[j].tenantId)
  }

  lemma NothingListed(s: Store)
    ensures Lists(s.(heads := map[]), [])
  {
  }

  lemma OneMoreListed(s: Store, listed: map<string, Head>, entries: seq<ChainHead>, tenant: string)
    requires Lists(s.(heads := listed), entries) && tenant !in listed && tenant in s.heads
    ensures Lists(s.(heads := listed[tenant := s.heads[tenant]]), entries + [ChainHead(tenant, s.heads[tenant])])
  {
    forall i | 0 <= i < |entries| ensures entries[i].tenantId != tenant { assert entries[i] in entries; }
  }

  /** Sorting a listing leaves a listing, in the order of a locale that separates the tenants. */
  lemma SortedListing(s: Store, before: (string, string) -> bool, entries: seq<ChainHead>)
    requires Lists(s, entries)
    ensures Lists(s, SortBy(ByTenant(before), entries))
    ensures StrictTotalOn(before, s.heads.Keys) ==> InTenantOrder(before, SortBy(ByTenant(before), entries))
  {
    hide SortBy, StrictTotalOn, Elements;
    var heads := SortBy(ByTenant(before), entries);
    SameMembers(heads, entries);
    DistinctKeysStay((h: ChainHead) => h.tenantId, entries, heads);
    if StrictTotalOn(before, s.heads.Keys) {
      TenantsOrder(s, before, entries);
      SortBySorted(ByTenant(before), entries);
      SortedPairs(ByTenant(before), heads);
      OrderedTenants(s, before, heads);
    }
  }

  lemma TenantsOrder(s: Store, before: (string, string) -> bool, entries: seq<ChainHead>)
    requires Lists(s, entries) && StrictTotalOn(before, s.heads.Keys)
    ensures StrictTotalOn(ByTenant(before), Elements(entries))
  {
  }

  lemma OrderedTenants(s: Store, before: (string, string) -> bool, heads: seq<ChainHead>)
    requires Lists(s, heads) && StrictTotalOn(before, s.heads.Keys)
    requires forall i, j :: 0 <= i < j < |heads| ==> !ByTenant(before)(heads[j], heads[i])
    ensures InTenantOrder(before, heads)
  {
    forall i, j | 0 <= i < j < |heads| ensures before(heads[i].tenantId, heads[j].tenantId) {
      assert heads[i] in heads && heads[j] in heads && !ByTenant(before)(heads[j], heads[i]);
    }
  }

  function Insert(lib: Lib, s: Store, r: Signed): Store {
    Store(s.receipts[ReceiptKey(r) := r],
          s.markers[MarkerKey(lib, r) := MarkerOf(lib, r)],
          s.heads[Tenant(r) := HeadOf(lib, r)])
  }

  /** What one `put` answers; only a `Created` answer changes the store. */
  function PutAnswer(lib: Lib, s: Store, r: Signed): PutOutcome {
    if !SchemaValid(lib, r) then Refused(SchemaInvalid)
    else if MarkerKey(lib, r) in s.markers then
      var marker := s.markers[MarkerKey(lib, r)];
      if marker.requestDigest != RequestDigest(lib, r.unsigned) then Refused(RequestReplayMismatch)
      else if (Tenant(r), marker.receiptId) !in s.receipts then Refused(MarkerTargetMissing)
      else Existing(s.receipts[(Tenant(r), marker.receiptId)], marker.persistedAt)
    else if ReceiptKey(r) in s.receipts then
      var existing := s.receipts[ReceiptKey(r)];
      if UnsignedDigest(lib, r.unsigned) != UnsignedDigest(lib, existing.unsigned) then Refused(PrimaryKeyCollision)
      else Existing(existing, existing.unsigned.body.timestamp)
    else if r.unsigned.prev != HeadHash(s, Tenant(r)) then
      Refused(ChainHeadConflict(r.unsigned.prev, HeadHash(s, Tenant(r))))
    else Created(r, r.unsigned.body.timestamp)
  }

  function PutState(lib: Lib, s: Store, r: Signed): Store {
    if PutAnswer(lib, s, r).Created? then Insert(lib, s, r) else s
  }

  class InMemoryRepository {
    var receipts: map<Key, Signed>
    var requestMarkers: map<Key, Marker>
    var chainHeads: map<string, Head>

    function Contents(): Store
      reads this
    {
      Store(receipts, requestMarkers, chainHeads)
    }

    constructor ()
      ensures Contents() == EMPTY
    {
      receipts, requestMarkers, chainHeads := map[], map[], map[];
    }

    method Put(lib: Lib, r: Signed) returns (outcome: PutOutcome)
      modifies this
      ensures outcome == PutAnswer(lib, old(Contents()), r)
      ensures Contents() == PutState(lib, old(Contents()), r)
    {
      if !SchemaValid(lib, r) {
        return Refused(SchemaInvalid);
      }
      var requestDigest := RequestDigest(lib, r.unsigned);
      if MarkerKey(lib, r) in requestMarkers {
        var marker := requestMarkers[MarkerKey(lib, r)];
        if marker.requestDigest != requestDigest {
          return Refused(RequestReplayMismatch);
        }
        var target := (Tenant(r), marker.receiptId);
        if target !in receipts {
          return Refused(MarkerTargetMissing);
        }
        return Existing(receipts[target], marker.persistedAt);
      }
      if ReceiptKey(r) in receipts {
        var existing := receipts[ReceiptKey(r)];
        if UnsignedDigest(lib, r.unsigned) != UnsignedDigest(lib, existing.unsigned) {
          return Refused(PrimaryKeyCollision);
        }
        return Existing(existing, existing.unsigned.body.timestamp);
      }
      var currentHead := LatestHashForTenant(Tenant(r));
      if r.unsigned.prev != currentHead {
        return Refused(ChainHeadConflict(r.unsigned.prev, currentHead));
      }
      receipts := receipts[ReceiptKey(r) := r];
      requestMarkers := requestMarkers[MarkerKey(lib, r) := Marker(r.unsigned.receiptId, requestDigest,
          r.unsigned.body.timestamp)];
      chainHeads := chainHeads[Tenant(r) := Head(r.unsigned.receiptId, SignedHash(lib, r), r.unsigned.body.timestamp)];
      outcome := Created(r, r.unsigned.body.timestamp);
    }

    method Get(tenant: string, receiptId: string) returns (r: Option<Signed>)
      ensures r == if (tenant, receiptId) in receipts then Some(receipts[(tenant, receiptId)]) else None
    {
      r := if (tenant, receiptId) in receipts then Some(receipts[(tenant, receiptId)]) else None;
    }

    method LatestHashForTenant(tenant: string) returns (hash: Option<string>)
      ensures hash == HeadHash(Contents(), tenant)
    {
      hash := if tenant in chainHeads then Some(chainHeads[tenant].headHash) else None;
    }

    /** All recorded heads in the locale's order of their tenants; the map may hand them out in any order. */
    method ListChainHeads(before: (string, string) -> bool) returns (heads: seq<ChainHead>)
      ensures Lists(Contents(), heads)
      ensures StrictTotalOn(before, chainHeads.Keys) ==> InTenantOrder(before, heads)
    {
      hide Lists, InTenantOrder, SortBy, StrictTotalOn;
      var entries, rest := [], chainHeads.Keys;
      NothingListed(Contents());
      assert chainHeads - rest == map[];
      while rest != {}
        invariant rest <= chainHeads.Keys && Lists(Contents().(heads := chainHeads - rest), entries)
        decreases |rest|
      {
        var tenant :| tenant in rest;
        OneMoreListed(Contents(), chainHeads - rest, entries, tenant);
        entries := entries + [ChainHead(tenant, chainHeads[tenant])];
        assert (chainHeads - rest)[tenant := chainHeads[tenant]] == chainHeads - (rest - {tenant});
        rest := rest - {tenant};
      }
      assert chainHeads - {} == chainHeads;
      SortedListing(Contents(), before, entries);
      heads := SortBy(ByTenant(before), entries);
    }
  }

  /******** The log of created receipts ********/

  /** The store reached by creating the receipts of `log` in order. */
  ghost function Replay(lib: Lib, log: seq<Signed>): Store {
    if |log| == 0 then EMPTY
    else Insert(lib, Replay(lib, log[..|log| - 1]), log[|log| - 1])
  }

  /** Every receipt of `log` was accepted as new when it arrived. */
  ghost predicate Admissible(lib: Lib, log: seq<Signed>) {
    |log| == 0 ||
    (Admissible(lib, log[..|log| - 1]) &&
     PutAnswer(lib, Replay(lib, log[..|log| - 1]), log[|log| - 1]).Created?)
  }

  ghost function LogAfterPut(lib: Lib, log: seq<Signed>, r: Signed): seq<Signed> {
    if PutAnswer(lib, Replay(lib, log), r).Created? then log + [r] else log
  }

  /** A put from a replayed store, of any receipt at all, reaches a replayed store. */
  lemma PutKeepsLog(lib: Lib, log: seq<Signed>, r: Signed)
    requires Admissible(lib, log)
    ensures Admissible(lib, LogAfterPut(lib, log, r))
    ensures PutState(lib, Replay(lib, log), r) == Replay(lib, LogAfterPut(lib, log, r))
  {
    assert (log + [r])[..|log|] == log;
  }

  /** The receipts of one tenant in creation order. */
  ghost function TenantChain(log: seq<Signed>, tenant: string): seq<Signed> {
    if |log| == 0 then []
    else
      var before := TenantChain(log[..|log| - 1], tenant);
      if Tenant(log[|log| - 1]) == tenant then before + [log[|log| - 1]] else before
  }

  /** A receipt sequence of one tenant, linked from null by signed hashes. */
  ghost predicate Linked(lib: Lib, tenant: string, c: seq<Signed>) {
    && (forall i :: 0 <= i < |c| ==> Tenant(c[i]) == tenant)
    && (|c| > 0 ==> c[0].unsigned.prev == None)
    && (forall i :: 0 < i < |c| ==> c[i].unsigned.prev == Some(SignedHash(lib, c[i - 1])))
  }

  ghost function LastHash(lib: Lib, c: seq<Signed>): Option<string> {
    if |c| == 0 then None else Some(SignedHash(lib, c[|c| - 1]))
  }

  lemma NothingReplayed(lib: Lib)
    ensures Replay(lib, []) == EMPTY
  {
  }

  /** Each tenant's created receipts form one chain from null to the recorded head. */
  lemma {:induction false} ChainsAreUnforked(lib: Lib, log: seq<Signed>, tenant: string)
    requires Admissible(lib, log)
    ensures Linked(lib, tenant, TenantChain(log, tenant))
    ensures HeadHash(Replay(lib, log), tenant) == LastHash(lib, TenantChain(log, tenant))
  {
    hide Admissible, Replay, PutAnswer, SchemaValid, SignedHash;
    if |log| > 0 {
      var n := |log| - 1;
      ReplayStep(lib, log);
      CreatedIsFresh(lib, Replay(lib, log[..n]), log[n]);
      ChainsAreUnforked(lib, log[..n], tenant);
    } else {
      NothingReplayed(lib);
    }
  }

  /** `m` holds one entry per element of `log`, under pairwise distinct keys, and nothing else. */
  ghost predicate Indexes<V(!new)>(m: map<Key, V>, log: seq<Signed>, key: Signed -> Key, val: Signed -> V) {
    && (forall i :: 0 <= i < |log| ==> key(log[i]) in m && m[key(log[i])] == val(log[i]))
    && (forall k :: k in m ==> exists i :: 0 <= i < |log| && key(log[i]) == k)
    && (forall i, j :: 0 <= i < j < |log| ==> key(log[i]) != key(log[j]))
  }

  lemma IndexExtends<V(!new)>(m: map<Key, V>, log: seq<Signed>, key: Signed -> Key, val: Signed -> V, r: Signed)
    requires Indexes(m, log, key, val) && key(r) !in m
    ensures Indexes(m[key(r) := val(r)], log + [r], key, val)
  {
    var longer := log + [r];
    var m' := m[key(r) := val(r)];
    forall k | k in m' ensures exists i :: 0 <= i < |longer| && key(longer[i]) == k {
      if k == key(r) {
        assert key(longer[|log|]) == k;
      } else {
        var i :| 0 <= i < |log| && key(log[i]) == k;
        assert key(longer[i]) == k;
      }
    }
  }

  ghost function MarkerKeys(lib: Lib): Signed -> Key {
    r => MarkerKey(lib, r)
  }

  ghost function Markers(lib: Lib): Signed -> Marker {
    r => MarkerOf(lib, r)
  }

  ghost function Itself(r: Signed): Signed {
    r
  }

  lemma CreatedIsFresh(lib: Lib, s: Store, r: Signed)
    requires PutAnswer(lib, s, r).Created?
    ensures SchemaValid(lib, r) && ReceiptKey(r) !in s.receipts && MarkerKey(lib, r) !in s.markers
    ensures r.unsigned.prev == HeadHash(s, Tenant(r))
  {
  }

  lemma ReplayStep(lib: Lib, log: seq<Signed>)
    requires |log| > 0 && Admissible(lib, log)
    ensures var r := log[|log| - 1];
            var before := log[..|log| - 1];
            var s := Replay(lib, before);
            && log == before + [r] && Admissible(lib, before) && PutAnswer(lib, s, r).Created?
            && Replay(lib, log).receipts == s.receipts[ReceiptKey(r) := Itself(r)]
            && Replay(lib, log).markers == s.markers[MarkerKeys(lib)(r) := Markers(lib)(r)]
            && Replay(lib, log).heads == s.heads[Tenant(r) := HeadOf(lib, r)]
  {
    hide PutAnswer, MarkerKey, MarkerOf, ReceiptKey;
  }

  lemma NothingIndexed<V(!new)>(key: Signed -> Key, val: Signed -> V)
    ensures Indexes(map[], [], key, val)
  {
  }

  /** Receipt ids are distinct, and the receipts map holds the log and nothing else. */
  lemma {:induction false} ReceiptsAreIndexed(lib: Lib, log: seq<Signed>)
    requires Admissible(lib, log)
    ensures Indexes(Replay(lib, log).receipts, log, ReceiptKey, Itself)
    ensures forall i :: 0 <= i < |log| ==> SchemaValid(lib, log[i])
  {
    hide Admissible, PutAnswer, SchemaValid, ReceiptKey, Itself, Insert, Replay, Indexes;
    if |log| == 0 {
      NothingReplayed(lib);
      NothingIndexed(ReceiptKey, Itself);
    } else {
      var n := |log| - 1;
      var s := Replay(lib, log[..n]);
      ReplayStep(lib, log);
      ReceiptsAreIndexed(lib, log[..n]);
      CreatedIsFresh(lib, s, log[n]);
      IndexExtends(s.receipts, log[..n], ReceiptKey, Itself, log[n]);
    }
  }

  /** There is exactly one request marker per logged receipt, so one receipt per request id. */
  lemma {:induction false} MarkersAreIndexed(lib: Lib, log: seq<Signed>)
    requires Admissible(lib, log)
    ensures Indexes(Replay(lib, log).markers, log, MarkerKeys(lib), Markers(lib))
  {
    hide Admissible, PutAnswer, SchemaValid, Insert, MarkerKey, MarkerOf, Replay, Indexes;
    if |log| == 0 {
      NothingReplayed(lib);
      NothingIndexed(MarkerKeys(lib), Markers(lib));
    } else {
      var n := |log| - 1;
      var s := Replay(lib, log[..n]);
      ReplayStep(lib, log);
      MarkersAreIndexed(lib, log[..n]);
      CreatedIsFresh(lib, s, log[n]);
      IndexExtends(s.markers, log[..n], MarkerKeys(lib), Markers(lib), log[n]);
    }
  }

  /** Two logged receipts of one tenant and one request id are the same entry. */
  lemma OneReceiptPerRequest(lib: Lib, log: seq<Signed>, i: nat, j: nat)
    requires Admissible(lib, log) && i < |log| && j < |log|
    requires MarkerKey(lib, log[i]) == MarkerKey(lib, log[j])
    ensures i == j
  {
    MarkersAreIndexed(lib, log);
    assert MarkerKeys(lib)(log[i]) == MarkerKeys(lib)(log[j]);
  }

  /** What a put answers when the request id is already stored. */
  lemma PutFindsRequest(lib: Lib, log: seq<Signed>, i: nat, r: Signed)
    requires Admissible(lib, log) && i < |log| && SchemaValid(lib, r)
    requires MarkerKey(lib, r) == MarkerKey(lib, log[i])
    ensures PutAnswer(lib, Replay(lib, log), r) ==
            if RequestDigest(lib, r.unsigned) == RequestDigest(lib, log[i].unsigned)
            then Existing(log[i], log[i].unsigned.body.timestamp) else Refused(RequestReplayMismatch)
  {
    var s := Replay(lib, log);
    MarkersAreIndexed(lib, log);
    ReceiptsAreIndexed(lib, log);
    assert MarkerKeys(lib)(log[i]) == MarkerKey(lib, r);
    assert s.markers[MarkerKey(lib, r)] == Markers(lib)(log[i]) == MarkerOf(lib, log[i]);
    assert s.receipts[ReceiptKey(log[i])] == Itself(log[i]);
  }

  /******** The store against the log ********/

  ghost predicate SameRequest(lib: Lib, a: Signed, b: Signed) {
    && a.unsigned.body.tenantIdHash == b.unsigned.body.tenantIdHash
    && lib.encodeUri(a.unsigned.body.requestId) == lib.encodeUri(b.unsigned.body.requestId)
  }

  ghost predicate SameId(a: Signed, b: Signed) {
    a.unsigned.body.tenantIdHash == b.unsigned.body.tenantIdHash && a.unsigned.receiptId == b.unsigned.receiptId
  }

  ghost predicate HasRequest(lib: Lib, log: seq<Signed>, r: Signed) {
    exists i :: 0 <= i < |log| && SameRequest(lib, log[i], r)
  }

  ghost predicate HasId(log: seq<Signed>, r: Signed) {
    exists i :: 0 <= i < |log| && SameId(log[i], r)
  }

  /** A request stored before is answered with its receipt when the content agrees. */
  ghost predicate AnswersRequest(lib: Lib, log: seq<Signed>, r: Signed, answer: PutOutcome) {
    forall i :: 0 <= i < |log| && SameRequest(lib, log[i], r) ==>
      answer == if lib.digest(RequestPayload(r.unsigned.body)) == lib.digest(RequestPayload(log[i].unsigned.body))
      then Existing(log[i], log[i].unsigned.body.timestamp) else Refused(RequestReplayMismatch)
  }

  /** A receipt stored before is answered with itself; no other is taken under its id. */
  ghost predicate AnswersId(lib: Lib, log: seq<Signed>, r: Signed, answer: PutOutcome) {
    forall i :: 0 <= i < |log| && SameId(log[i], r) ==>
      answer == if lib.digest(UnsignedPayload(r.unsigned)) == lib.digest(UnsignedPayload(log[i].unsigned))
      then Existing(log[i], log[i].unsigned.body.timestamp) else Refused(PrimaryKeyCollision)
  }

  /** A new receipt is taken when it links to the last one of its tenant. */
  ghost predicate AnswersLink(lib: Lib, log: seq<Signed>, r: Signed, answer: PutOutcome) {
    var last := LastHash(lib, TenantChain(log, r.unsigned.body.tenantIdHash));
    answer == if r.unsigned.prev == last then Created(r, r.unsigned.body.timestamp)
    else Refused(ChainHeadConflict(r.unsigned.prev, last))
  }

  /** What any put answers, in terms of the receipts created so far: form, request, id and link, in this order. */
  lemma PutByLog(lib: Lib, log: seq<Signed>, r: Signed)
    requires Admissible(lib, log)
    ensures var answer := PutAnswer(lib, Replay(lib, log), r);
            if !("grct_" <= r.unsigned.receiptId && lib.schemaAccepts(r)) then answer == Refused(SchemaInvalid)
            else if HasRequest(lib, log, r) then AnswersRequest(lib, log, r, answer)
            else if HasId(log, r) then AnswersId(lib, log, r, answer)
            else AnswersLink(lib, log, r, answer)
  {
    hide Admissible, Replay, Indexes, SignedHash, LastHash, TenantChain;
    if SchemaValid(lib, r) {
      ReceiptsHold(lib, log, r);
      MarkersHold(lib, log, r);
      if HasRequest(lib, log, r) {
        forall i | 0 <= i < |log| && SameRequest(lib, log[i], r) { PutFindsRequest(lib, log, i, r); }
      } else {
        ChainsAreUnforked(lib, log, Tenant(r));
      }
    }
  }

  lemma MarkersHold(lib: Lib, log: seq<Signed>, r: Signed)
    requires Admissible(lib, log)
    ensures MarkerKey(lib, r) in Replay(lib, log).markers <==> HasRequest(lib, log, r)
    ensures forall i :: 0 <= i < |log| && SameRequest(lib, log[i], r) ==> MarkerKey(lib, log[i]) == MarkerKey(lib, r)
  {
    hide Admissible, Replay;
    MarkersAreIndexed(lib, log);
    forall i | 0 <= i < |log|
      ensures SameRequest(lib, log[i], r) <==> MarkerKeys(lib)(log[i]) == MarkerKey(lib, r)
    {
      var a, b := lib.encodeUri(log[i].unsigned.body.requestId), lib.encodeUri(r.unsigned.body.requestId);
      var n := |REQUEST_MARKER_PREFIX|;
      assert (REQUEST_MARKER_PREFIX + a)[n..] == a && (REQUEST_MARKER_PREFIX + b)[n..] == b;
    }
  }

  lemma ReceiptsHold(lib: Lib, log: seq<Signed>, r: Signed)
    requires Admissible(lib, log)
    ensures ReceiptKey(r) in Replay(lib, log).receipts <==> HasId(log, r)
    ensures forall i :: 0 <= i < |log| && SameId(log[i], r) ==>
              ReceiptKey(log[i]) == ReceiptKey(r) && ReceiptKey(r) in Replay(lib, log).receipts
              && Replay(lib, log).receipts[ReceiptKey(r)] == log[i]
  {
    hide Admissible, Replay;
    ReceiptsAreIndexed(lib, log);
    forall i | 0 <= i < |log| ensures SameId(log[i], r) <==> ReceiptKey(log[i]) == ReceiptKey(r) { }
    forall i | 0 <= i < |log| ensures Itself(log[i]) == log[i] { }
  }

  /** The last receipt of each tenant is its head, and a marker stands under each encoded request id. */
  lemma HeadsAndMarkersByLog(lib: Lib, log: seq<Signed>)
    requires Admissible(lib, log)
    ensures forall t :: t in Replay(lib, log).heads <==> |TenantChain(log, t)| > 0
    ensures forall t :: |TenantChain(log, t)| > 0 ==>
              var head, last := Replay(lib, log).heads[t], TenantChain(log, t)[|TenantChain(log, t)| - 1];
              head.receiptId == last.unsigned.receiptId && head.updatedAt == last.unsigned.body.timestamp
              && head.headHash == "sha256:" + lib.digest(SignedPayload(last))
    ensures forall i :: 0 <= i < |log| ==>
              var r, key := log[i], (log[i].unsigned.body.tenantIdHash,
                "__request__#" + lib.encodeUri(log[i].unsigned.body.requestId));
              key in Replay(lib, log).markers && var m := Replay(lib, log).markers[key];
              && m.receiptId == r.unsigned.receiptId && m.persistedAt == r.unsigned.body.timestamp
              && m.requestDigest == lib.digest(RequestPayload(r.unsigned.body))
  {
    hide Admissible, Replay, TenantChain;
    forall t { HeadIsLast(lib, log, t); }
    MarkersAreIndexed(lib, log);
    forall i | 0 <= i < |log|
      ensures MarkerKeys(lib)(log[i]) == (log[i].unsigned.body.tenantIdHash,
                "__request__#" + lib.encodeUri(log[i].unsigned.body.requestId))
    {
    }
  }

  lemma {:induction false} HeadIsLast(lib: Lib, log: seq<Signed>, tenant: string)
    requires Admissible(lib, log)
    ensures var heads, c := Replay(lib, log).heads, TenantChain(log, tenant);
            if |c| == 0 then tenant !in heads else tenant in heads && heads[tenant] == HeadOf(lib, c[|c| - 1])
  {
    hide Admissible, Replay, PutAnswer, HeadOf;
    if |log| > 0 {
      var n := |log| - 1;
      ReplayStep(lib, log);
      HeadIsLast(lib, log[..n], tenant);
    } else {
      NothingReplayed(lib);
    }
  }
}
