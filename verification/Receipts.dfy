/** Decision receipt records and the digests taken of them. */
module Receipts {
  import opened Prelude
  import opened Decisions

  /** The request-stable part of a receipt: everything but its id and its link. */
  datatype Body = Body(
    requestId: string,
    tenantIdHash: string,
    userIdHash: string,
    sessionIdHash: string,
    timestamp: string,
    modelId: string,
    policyVersion: string,
    policyHash: string,
    inputDigest: string,
    retrievedContextDigests: seq<string>,
    executionContextHash: string,
    executionNonce: string,
    decisionPre: DecisionKind,
    decisionPost: DecisionKind,
    actionTaken: seq<string>,
    riskScore: real,
    consentState: ConsentState,
    memoryWritten: bool,
    latencyMs: int,
    costEstimateUsd: real,
    signatureAlg: string)

  datatype Unsigned = Unsigned(receiptId: string, prev: Option<string>, body: Body)

  datatype Signed = Signed(unsigned: Unsigned, signature: string)

  /** The four JSON objects whose canonical text is hashed; they carry different key sets. */
  datatype Record =
    | IdentityPayload(prev: Option<string>, body: Body)
    | UnsignedPayload(unsigned: Unsigned)
    | RequestPayload(body: Body)
    | SignedPayload(signed: Signed)

  /**
   * Library functions the runtime calls. `digest` is SHA-256 hex of the canonical text,
   * `millis` is Date.parse, `encodeUri` is encodeURIComponent, `hmac` keys the private digests,
   * and `schemaAccepts` is the part of the receipt schema that this model does not spell out.
   */
  datatype Lib = Lib(
    digest: Record -> string,
    millis: string -> int,
    encodeUri: string -> string,
    hmac: string -> string,
    schemaAccepts: Signed -> bool)

  /** No two distinct records of `s` share a digest. */
  ghost predicate CollisionFree(lib: Lib, s: set<Record>) {
    forall a, b :: a in s && b in s && lib.digest(a) == lib.digest(b) ==> a == b
  }

  const RECEIPT_ID_PREFIX := "grct_"

  function ReceiptId(lib: Lib, prev: Option<string>, body: Body): string {
    RECEIPT_ID_PREFIX + lib.digest(IdentityPayload(prev, body))
  }

  function UnsignedDigest(lib: Lib, u: Unsigned): string {
    lib.digest(UnsignedPayload(u))
  }

  function RequestDigest(lib: Lib, u: Unsigned): string {
    lib.digest(RequestPayload(u.body))
  }

  function SignedHash(lib: Lib, r: Signed): string {
    "sha256:" + lib.digest(SignedPayload(r))
  }

  predicate SchemaValid(lib: Lib, r: Signed) {
    RECEIPT_ID_PREFIX <= r.unsigned.receiptId && lib.schemaAccepts(r)
  }

  /** Every record hashed on behalf of one stored or incoming receipt. */
  ghost function HashedRecords(r: Signed): set<Record> {
    {IdentityPayload(r.unsigned.prev, r.unsigned.body), UnsignedPayload(r.unsigned),
     RequestPayload(r.unsigned.body), SignedPayload(r)}
  }

  ghost function LogRecords(log: seq<Signed>): set<Record> {
    set i, x | 0 <= i < |log| && x in HashedRecords(log[i]) :: x
  }

  lemma SignedHashInjective(lib: Lib, s: set<Record>, a: Signed, b: Signed)
    requires CollisionFree(lib, s) && SignedPayload(a) in s && SignedPayload(b) in s
    requires SignedHash(lib, a) == SignedHash(lib, b)
    ensures a == b
  {
    var p := "sha256:";
    assert lib.digest(SignedPayload(a)) == SignedHash(lib, a)[|p|..];
    assert lib.digest(SignedPayload(b)) == SignedHash(lib, b)[|p|..];
  }

  lemma ReceiptIdInjective(lib: Lib, s: set<Record>, p: Option<string>, a: Body, q: Option<string>, b: Body)
    requires CollisionFree(lib, s) && IdentityPayload(p, a) in s && IdentityPayload(q, b) in s
    requires ReceiptId(lib, p, a) == ReceiptId(lib, q, b)
    ensures p == q && a == b
  {
    var n := |RECEIPT_ID_PREFIX|;
    assert lib.digest(IdentityPayload(p, a)) == ReceiptId(lib, p, a)[n..];
    assert lib.digest(IdentityPayload(q, b)) == ReceiptId(lib, q, b)[n..];
  }
}
