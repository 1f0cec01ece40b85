/** The in-memory execution nonce store. */
module NonceStore {
  import opened Prelude

  datatype Reservation = Reservation(tenantIdHash: string, nonce: string, executionContextHash: string,
      requestId: string)

  datatype ReserveAnswer = Reserved | IdempotentReplay | ReplayError

  type NonceHash = string -> string

  function ReservationKey(h: NonceHash, tenantIdHash: string, nonce: string): string {
    tenantIdHash + "#" + h(nonce)
  }

  function ReserveAnswerFor(h: NonceHash, reservations: map<string, Reservation>, r: Reservation): ReserveAnswer {
    var key := ReservationKey(h, r.tenantIdHash, r.nonce);
    if key !in reservations then Reserved
    else if reservations[key].executionContextHash != r.executionContextHash then ReplayError
    else IdempotentReplay
  }

  function AfterReserve(h: NonceHash, reservations: map<string, Reservation>, r: Reservation)
    : map<string, Reservation>
  {
    if ReserveAnswerFor(h, reservations, r).Reserved? then reservations[ReservationKey(h, r.tenantIdHash, r.nonce) := r]
        else reservations
  }

  /** The reservations kept after a history of attempts, from an empty store. */
  function Reservations(h: NonceHash, rs: seq<Reservation>): map<string, Reservation> {
    if |rs| == 0 then map[] else AfterReserve(h, Reservations(h, rs[..|rs| - 1]), rs[|rs| - 1])
  }

  predicate SameNonce(h: NonceHash, a: Reservation, b: Reservation) {
    a.tenantIdHash == b.tenantIdHash && h(a.nonce) == h(b.nonce)
  }

  /** Attempt `i` was the first on the tenant and nonce of `r`. */
  ghost predicate FirstOf(h: NonceHash, rs: seq<Reservation>, i: nat, r: Reservation) {
    i < |rs| && SameNonce(h, rs[i], r) && forall j :: 0 <= j < i ==> !SameNonce(h, rs[j], r)
  }

  /** Nonce hashes are of one length, so that a key tells where the tenant ends. */
  ghost predicate OneLength(h: NonceHash) {
    forall x, y :: |h(x)| == |h(y)|
  }

  lemma KeysAgreeIff(h: NonceHash, a: Reservation, b: Reservation)
    requires OneLength(h)
    ensures ReservationKey(h, a.tenantIdHash, a.nonce) == ReservationKey(h, b.tenantIdHash, b.nonce) <==>
            SameNonce(h, a, b)
  {
    var s, t := ReservationKey(h, a.tenantIdHash, a.nonce), ReservationKey(h, b.tenantIdHash, b.nonce);
    assert |h(a.nonce)| == |h(b.nonce)|;
    assert s[|s| - |h(a.nonce)|..] == h(a.nonce) && t[|t| - |h(b.nonce)|..] == h(b.nonce);
    assert s[..|s| - |h(a.nonce)| - 1] == a.tenantIdHash && t[..|t| - |h(b.nonce)| - 1] == b.tenantIdHash;
  }

  lemma {:induction false} FirstIsKept(h: NonceHash, rs: seq<Reservation>, r: Reservation)
    requires OneLength(h)
    ensures var kept, key := Reservations(h, rs), ReservationKey(h, r.tenantIdHash, r.nonce);
            if key in kept then exists i: nat :: FirstOf(h, rs, i, r) && kept[key] == rs[i]
            else forall i :: 0 <= i < |rs| ==> !SameNonce(h, rs[i], r)
  {
    hide ReservationKey;
    if |rs| > 0 {
      var n := |rs| - 1;
      var before := rs[..n];
      FirstIsKept(h, before, r);
      KeysAgreeIff(h, rs[n], r);
      assert forall i :: 0 <= i < n ==> before[i] == rs[i];
      assert forall i: nat :: FirstOf(h, before, i, r) ==> FirstOf(h, rs, i, r);
      if ReservationKey(h, r.tenantIdHash, r.nonce) !in Reservations(h, before) && SameNonce(h, rs[n], r) {
        assert FirstOf(h, rs, n, r);
      }
    }
  }

  /**
   * After any history an attempt is fresh exactly when its tenant never used the nonce, and otherwise
   * judged against the first use alone: a replay of the same context, or an error.
   */
  lemma AnswerByHistory(h: NonceHash, rs: seq<Reservation>, r: Reservation)
    requires OneLength(h)
    ensures var answer := ReserveAnswerFor(h, Reservations(h, rs), r);
            && (answer.Reserved? <==> forall i :: 0 <= i < |rs| ==> !SameNonce(h, rs[i], r))
            && (forall i: nat :: FirstOf(h, rs, i, r) ==>
                (answer.IdempotentReplay? <==> rs[i].executionContextHash == r.executionContextHash)
                && (answer.ReplayError? <==> rs[i].executionContextHash != r.executionContextHash))
  {
    hide Reservations, ReservationKey;
    FirstIsKept(h, rs, r);
    forall i: nat, j: nat | FirstOf(h, rs, i, r) && FirstOf(h, rs, j, r) ensures i == j { }
  }

  class InMemoryNonceStore {
    var reservations: map<string, Reservation>

    constructor ()
      ensures reservations == map[]
    {
      reservations := map[];
    }

    /** Check and set happen in one step: there is no await between them. */
    method Reserve(h: NonceHash, r: Reservation) returns (answer: ReserveAnswer)
      modifies this
      ensures answer == ReserveAnswerFor(h, old(reservations), r)
      ensures reservations == AfterReserve(h, old(reservations), r)
    {
      var key := ReservationKey(h, r.tenantIdHash, r.nonce);
      if key !in reservations {
        reservations := reservations[key := r];
        return Reserved;
      }
      if reservations[key].executionContextHash != r.executionContextHash {
        return ReplayError;
      }
      answer := IdempotentReplay;
    }
  }
}
