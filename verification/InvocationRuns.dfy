/** Governed invocations interleaved over one nonce store. */
module InvocationRuns {
  import opened Prelude
  import opened GovernedInvoke
  import Nonces = NonceStore

  /** One effect of one invocation. */
  datatype Event = Event(who: nat, effect: Effect)

  /**
   * Who is running: the reservation an invocation makes, what else its dependencies answer, and how
   * it ends if it is left to finish.
   */
  datatype Party = Party(reservation: Nonces.Reservation, answers: Answers, outcome: Outcome, trace: seq<Effect>)

  /** The effects of one invocation, in order. */
  ghost function Project(history: seq<Event>, who: nat): seq<Effect> {
    if |history| == 0 then []
    else
      var last := history[|history| - 1];
      Project(history[..|history| - 1], who) + if last.who == who then [last.effect] else []
  }

  /** The store after the reservations made so far. */
  ghost function StoreAfter(h: Nonces.NonceHash, parties: map<nat, Party>, history: seq<Event>)
    : map<string, Nonces.Reservation>
  {
    if |history| == 0 then map[]
    else
      var last := history[|history| - 1];
      var before := StoreAfter(h, parties, history[..|history| - 1]);
      if last.who in parties && last.effect.Reserve? then Nonces.AfterReserve(h, before, parties[last.who].reservation)
          else before
  }

  /** Each reservation was answered by the shared store as it stood. */
  ghost predicate AnsweredByStore(h: Nonces.NonceHash, parties: map<nat, Party>, history: seq<Event>) {
    forall k :: 0 <= k < |history| && history[k].effect == Reserve(Reserved) ==>
      history[k].who in parties &&
      Nonces.ReserveAnswerFor(h, StoreAfter(h, parties, history[..k]),
          parties[history[k].who].reservation) == Nonces.Reserved
  }

  /** Any interleaving of (possibly unfinished) governed invocations that share one nonce store. */
  ghost predicate Interleaving(h: Nonces.NonceHash, parties: map<nat, Party>, history: seq<Event>) {
    && (forall k :: 0 <= k < |history| ==> history[k].who in parties)
    && (forall who :: who in parties ==>
          && parties[who].answers.nonceStore.Some? && RunContract(parties[who].answers, parties[who].outcome,
              parties[who].trace)
          && Project(history, who) <= parties[who].trace)
    && AnsweredByStore(h, parties, history)
  }

  /** A run cut short keeps the discipline that the whole run was proved to have. */
  lemma UnfinishedRunKeepsDiscipline(a: Answers, trace: seq<Effect>, n: nat)
    requires InvokeDiscipline(a, trace) && n <= |trace|
    ensures InvokeDiscipline(a, trace[..n])
  {
    hide GatesOpen;
    var cut := trace[..n];
    forall k | 0 <= k < |cut| && cut[k].Invoke?
      ensures GatesOpen(a) && (a.nonceStore.Some? ==> exists j :: 0 <= j < k && cut[j] == Reserve(Reserved))
    {
      assert trace[k].Invoke?;
      if a.nonceStore.Some? {
        var j :| 0 <= j < k && trace[j] == Reserve(Reserved);
        assert cut[j] == Reserve(Reserved);
      }
    }
  }

  /** Projected positions: where an event of `who` lands, and that the order is kept. */
  lemma {:induction false} ProjectPosition(history: seq<Event>, who: nat, k: nat)
    requires k < |history| && history[k].who == who
    ensures |Project(history[..k], who)| < |Project(history, who)|
    ensures Project(history, who)[|Project(history[..k], who)|] == history[k].effect
    decreases |history|
  {
    var n := |history| - 1;
    if k < n {
      ProjectPosition(history[..n], who, k);
      assert history[..n][..k] == history[..k];
    }
  }

  lemma {:induction false} ProjectGrows(history: seq<Event>, who: nat, i: nat, k: nat)
    requires i < k <= |history| && history[i].who == who
    ensures |Project(history[..i], who)| < |Project(history[..k], who)|
    decreases k
  {
    var n := k - 1;
    assert history[..k][..n] == history[..n] && history[..k][n] == history[n];
    if i < n {
      ProjectGrows(history, who, i, n);
    }
  }

  lemma {:induction false} ProjectSource(history: seq<Event>, who: nat, p: nat) returns (k: nat)
    requires p < |Project(history, who)|
    ensures k < |history| && history[k].who == who && |Project(history[..k], who)| == p
            && history[k].effect == Project(history, who)[p]
    decreases |history|
  {
    var n := |history| - 1;
    if p < |Project(history[..n], who)| {
      k := ProjectSource(history[..n], who, p);
      assert history[..n][..k] == history[..k];
    } else {
      k := n;
    }
  }

  /** What an invocation has done so far obeys the discipline of its whole run. */
  lemma PartyKeepsDiscipline(h: Nonces.NonceHash, parties: map<nat, Party>, history: seq<Event>, who: nat)
    requires Interleaving(h, parties, history) && who in parties
    ensures InvokeDiscipline(parties[who].answers, Project(history, who))
  {
    hide AnsweredByStore, StoreAfter, InvokeDiscipline, VaultDiscipline, EmissionDiscipline,
      ResultMatchesTrace, Project;
    var trace, done := parties[who].trace, Project(history, who);
    UnfinishedRunKeepsDiscipline(parties[who].answers, trace, |done|);
    assert trace[..|done|] == done;
  }

  /** An invocation that called the model made a fresh reservation earlier in the shared history. */
  lemma CalledBehindReservation(h: Nonces.NonceHash, parties: map<nat, Party>, history: seq<Event>, k: nat)
      returns (j: nat)
    requires Interleaving(h, parties, history) && k < |history| && history[k].effect.Invoke?
    ensures j < k && history[j] == Event(history[k].who, Reserve(Reserved))
  {
    hide AnsweredByStore, StoreAfter, RunContract;
    var who := history[k].who;
    PartyKeepsDiscipline(h, parties, history, who);
    var trace := Project(history, who);
    ProjectPosition(history, who, k);
    var p := |Project(history[..k], who)|;
    var q :| 0 <= q < p && trace[q] == Reserve(Reserved);
    j := ProjectSource(history, who, q);
    if k <= j {
      if k < j { ProjectGrows(history, who, k, j); }
      assert false;
    }
  }

  /** A reserved key stays in the store. */
  lemma {:induction false} KeyStays(h: Nonces.NonceHash, parties: map<nat, Party>, history: seq<Event>,
      key: string, i: nat)
    requires i <= |history| && key in StoreAfter(h, parties, history[..i])
    ensures key in StoreAfter(h, parties, history)
    decreases |history|
  {
    if i == |history| {
      assert history[..i] == history;
    } else {
      var n := |history| - 1;
      assert history[..n][..i] == history[..i];
      KeyStays(h, parties, history[..n], key, i);
    }
  }

  /** A nonce key is freshly reserved at most once in a history. */
  lemma ReservedOnce(h: Nonces.NonceHash, parties: map<nat, Party>, history: seq<Event>, i: nat, j: nat)
    requires AnsweredByStore(h, parties, history) && i < j < |history|
    requires history[i].effect == Reserve(Reserved) && history[j].effect == Reserve(Reserved)
    requires history[i].who in parties && history[j].who in parties
    ensures var r, q := parties[history[i].who].reservation, parties[history[j].who].reservation;
            Nonces.ReservationKey(h, r.tenantIdHash, r.nonce) != Nonces.ReservationKey(h, q.tenantIdHash, q.nonce)
  {
    var r, q := parties[history[i].who].reservation, parties[history[j].who].reservation;
    var key := Nonces.ReservationKey(h, r.tenantIdHash, r.nonce);
    assert history[..i + 1][..i] == history[..i] && history[..i + 1][i] == history[i];
    assert key in StoreAfter(h, parties, history[..i + 1]);
    assert history[..j][..i + 1] == history[..i + 1];
    KeyStays(h, parties, history[..j], key, i + 1);
  }

  lemma InterleavingFacts(h: Nonces.NonceHash, parties: map<nat, Party>, history: seq<Event>)
    requires Interleaving(h, parties, history)
    ensures AnsweredByStore(h, parties, history) && forall k :: 0 <= k < |history| ==> history[k].who in parties
  {
    hide AnsweredByStore, StoreAfter, RunContract, Project;
  }

  lemma OneInvoke(a: Answers, trace: seq<Effect>, p: nat, q: nat)
    requires InvokeDiscipline(a, trace) && p < |trace| && q < |trace| && trace[p].Invoke? && trace[q].Invoke?
    ensures p == q
  {
    hide GatesOpen;
  }

  /**
   * Over every interleaving, each (tenant hash, normalised nonce) pair leads to at most one model
   * call in all, whatever the nonce hash is.
   */
  lemma OneModelCallPerNonce(h: Nonces.NonceHash, parties: map<nat, Party>, history: seq<Event>, i: nat, j: nat)
    requires Interleaving(h, parties, history) && i < |history| && j < |history|
    requires history[i].effect.Invoke? && history[j].effect.Invoke?
    requires var r, q := parties[history[i].who].reservation, parties[history[j].who].reservation;
             r.tenantIdHash == q.tenantIdHash && r.nonce == q.nonce
    ensures i == j
  {
    hide *;
    InterleavingFacts(h, parties, history);
    var a := CalledBehindReservation(h, parties, history, i);
    var b := CalledBehindReservation(h, parties, history, j);
    if a < b { ReservedOnce(h, parties, history, a, b); }
    if b < a { ReservedOnce(h, parties, history, b, a); }
    var who := history[i].who;
    assert who == history[j].who;
    PartyKeepsDiscipline(h, parties, history, who);
    ProjectPosition(history, who, i);
    ProjectPosition(history, who, j);
    OneInvoke(parties[who].answers, Project(history, who), |Project(history[..i], who)|, |Project(history[..j], who)|);
    if i < j { ProjectGrows(history, who, i, j); }
    if j < i { ProjectGrows(history, who, j, i); }
  }
}
