/** Checkpoint roots composed with receipt chains: one root fixes every tenant's whole history. */
module History {
  import opened Prelude
  import opened Decisions
  import opened Receipts
  import opened ReceiptStore
  import opened Emission
  import opened EmissionRuns
  import opened ReceiptChain
  import Text = MerkleText
  import Tree = Checkpoint
  import Binding = CheckpointBinding

  /** Per tenant, a non-empty receipt chain. */
  type Histories = map<string, seq<Signed>>

  ghost predicate ChainsFromNull(lib: Lib, h: Histories) {
    forall t :: t in h ==> |h[t]| > 0 && Linked(lib, t, h[t])
  }

  /** The heads list, for each tenant and no other, the hash of the last receipt of its history. */
  ghost predicate Commits(lib: Lib, heads: seq<Text.Leaf>, h: Histories) {
    && Tree.LastWins(heads).Keys == h.Keys
    && forall t :: t in h ==> |h[t]| > 0 && Tree.LastWins(heads)[t] == SignedHash(lib, h[t][|h[t]| - 1])
  }

  ghost predicate Payloads(h: Histories, s: set<Record>) {
    forall t, i :: t in h && 0 <= i < |h[t]| ==> SignedPayload(h[t][i]) in s
  }

  /** Two chains from null with the same last hash are the same chain. */
  lemma {:induction false} SameHeadSameChain(lib: Lib, s: set<Record>, tenant: string, c: seq<Signed>, d: seq<Signed>)
    requires CollisionFree(lib, s) && |c| > 0 && |d| > 0 && Linked(lib, tenant, c) && Linked(lib, tenant, d)
    requires forall i :: 0 <= i < |c| ==> SignedPayload(c[i]) in s
    requires forall i :: 0 <= i < |d| ==> SignedPayload(d[i]) in s
    requires SignedHash(lib, c[|c| - 1]) == SignedHash(lib, d[|d| - 1])
    ensures c == d
  {
    hide CollisionFree, SignedHash;
    var m, n := |c| - 1, |d| - 1;
    SignedHashInjective(lib, s, c[m], d[n]);
    assert c[m].unsigned.prev == d[n].unsigned.prev;
    assert m > 0 ==> c[m].unsigned.prev == Some(SignedHash(lib, c[m - 1]));
    assert n > 0 ==> d[n].unsigned.prev == Some(SignedHash(lib, d[n - 1]));
    if m > 0 {
      assert n > 0;
      SameHeadSameChain(lib, s, tenant, c[..m], d[..n]);
    } else {
      assert n == 0;
    }
    assert c[..m] == d[..n];
    assert c == c[..m] + [c[m]] && d == d[..n] + [d[n]];
  }

  /**
   * Two checkpoints over hash chains have equal roots exactly when the complete histories of all
   * tenants are equal.
   */
  lemma EqualRootsIffEqualHistories(sha: Text.Sha, locale: Tree.Locale, lib: Lib, s: set<Record>,
                                    a: seq<Text.Leaf>, ha: Histories, b: seq<Text.Leaf>, hb: Histories)
    requires ChainsFromNull(lib, ha) && ChainsFromNull(lib, hb) && Commits(lib, a, ha) && Commits(lib, b, hb)
    requires CollisionFree(lib, s) && Payloads(ha, s) && Payloads(hb, s)
    requires Text.FixedWidth(sha) && Tree.LocaleSeparates(locale, ha.Keys)
    requires Text.CollisionFree(sha, Binding.TreeTexts(sha, Tree.Normalize(locale, a)) +
             Binding.TreeTexts(sha, Tree.Normalize(locale, b)))
    ensures Tree.MerkleRoot(sha, locale, a) == Tree.MerkleRoot(sha, locale, b) <==> ha == hb
  {
    hide CollisionFree, SignedHash, Linked, Text.CollisionFree, Text.FixedWidth, Tree.LocaleSeparates, Tree.MerkleRoot,
      Tree.LastWins, Binding.TreeTexts, Tree.Normalize;
    Binding.RootsAgreeIff(sha, locale, a, b);
    if Tree.LastWins(a) == Tree.LastWins(b) {
      forall t | t in ha ensures ha[t] == hb[t] {
        SameHeadSameChain(lib, s, t, ha[t], hb[t]);
      }
      assert ha == hb;
    }
    if ha == hb {
      assert Tree.LastWins(a) == Tree.LastWins(b);
    }
  }

  /** A history accepted entry by entry by the chain verifier is a chain from null. */
  lemma AcceptedIsLinked(lib: Lib, c: seq<Signed>)
    requires Accepted(lib, Submitted(c))
    ensures |c| > 0 && Linked(lib, Tenant(c[0]), c)
  {
    AcceptedIffOrderedChain(lib, Submitted(c));
    hide Accepted, Linked, TimesNonDecreasing, DistinctHashes;
    var d :| Submitted(c) == Submitted(d) && |d| == |Submitted(c)| && Linked(lib, Tenant(d[0]), d);
    forall i | 0 <= i < |c| ensures c[i] == d[i] { assert Submitted(c)[i] == Submitted(d)[i]; }
    assert c == d;
  }

  /******** The ledger's own checkpoints ********/

  /** The histories recorded in a log of created receipts. */
  ghost function LogHistories(log: seq<Signed>): Histories {
    map t | t in (set i | 0 <= i < |log| :: Tenant(log[i])) :: TenantChain(log, t)
  }

  /** The heads were listed from this store. */
  ghost predicate ListsHeads(s: Store, heads: seq<Text.Leaf>) {
    Tree.LastWins(heads) == map t | t in s.heads :: s.heads[t].headHash
  }

  /** The checkpoint's view of a listing of chain heads. */
  function Leaves(heads: seq<ChainHead>): seq<Text.Leaf> {
    seq(|heads|, i requires 0 <= i < |heads| => Text.Leaf(heads[i].tenantId, heads[i].head.headHash))
  }

  lemma {:induction false} LastWinsOfDistinct(leaves: seq<Text.Leaf>)
    requires Tree.DistinctTenants(leaves)
    ensures forall leaf: Text.Leaf :: leaf in leaves <==>
              leaf.tenantId in Tree.LastWins(leaves) && Tree.LastWins(leaves)[leaf.tenantId] == leaf.headHash
  {
    if |leaves| > 0 {
      var n := |leaves| - 1;
      LastWinsOfDistinct(leaves[..n]);
      assert leaves == leaves[..n] + [leaves[n]];
      forall leaf: Text.Leaf | leaf in leaves[..n] ensures leaf.tenantId != leaves[n].tenantId {
        var i :| 0 <= i < n && leaves[i] == leaf;
      }
    }
  }

  lemma LeavesOfListing(s: Store, heads: seq<ChainHead>)
    requires Lists(s, heads)
    ensures Tree.DistinctTenants(Leaves(heads))
    ensures forall leaf: Text.Leaf :: leaf in Leaves(heads) <==>
              leaf.tenantId in s.heads && s.heads[leaf.tenantId].headHash == leaf.headHash
  {
    var leaves := Leaves(heads);
    forall leaf: Text.Leaf | leaf.tenantId in s.heads && s.heads[leaf.tenantId].headHash == leaf.headHash
        ensures leaf in leaves {
      var i :| 0 <= i < |heads| && heads[i] == ChainHead(leaf.tenantId, s.heads[leaf.tenantId]);
      assert leaves[i] == leaf;
    }
    forall leaf: Text.Leaf | leaf in leaves
      ensures leaf.tenantId in s.heads && s.heads[leaf.tenantId].headHash == leaf.headHash
    {
      var i :| 0 <= i < |leaves| && leaves[i] == leaf;
      assert heads[i] in heads;
    }
  }

  lemma SameEntries(a: map<string, string>, b: map<string, string>)
    requires forall leaf: Text.Leaf ::
               (leaf.tenantId in a && a[leaf.tenantId] == leaf.headHash) <==>
                   (leaf.tenantId in b && b[leaf.tenantId] == leaf.headHash)
    ensures a == b
  {
    forall t | t in a ensures t in b && a[t] == b[t] { var leaf := Text.Leaf(t, a[t]); assert leaf.tenantId in a; }
    forall t | t in b ensures t in a { var leaf := Text.Leaf(t, b[t]); assert leaf.tenantId in b; }
  }

  /** What `listChainHeads` lists is what a checkpoint of the store is built from. */
  lemma ListingListsHeads(s: Store, heads: seq<ChainHead>)
    requires Lists(s, heads)
    ensures ListsHeads(s, Leaves(heads))
  {
    hide Tree.LastWins, Leaves, Lists, Tree.DistinctTenants;
    LeavesOfListing(s, heads);
    LastWinsOfDistinct(Leaves(heads));
    SameEntries(Tree.LastWins(Leaves(heads)), map t | t in s.heads :: s.heads[t].headHash);
  }

  lemma {:induction false} HeadsHaveChains(lib: Lib, log: seq<Signed>, tenant: string)
    ensures tenant in Replay(lib, log).heads <==> exists i :: 0 <= i < |log| && Tenant(log[i]) == tenant
    ensures tenant in Replay(lib, log).heads <==> |TenantChain(log, tenant)| > 0
  {
    if |log| > 0 {
      var n := |log| - 1;
      HeadsHaveChains(lib, log[..n], tenant);
      if Tenant(log[n]) == tenant {
      } else if tenant in Replay(lib, log[..n]).heads {
        var i :| 0 <= i < n && Tenant(log[..n][i]) == tenant;
        assert Tenant(log[i]) == tenant;
      } else {
        forall i | 0 <= i < |log| ensures Tenant(log[i]) != tenant { if i < n { assert log[..n][i] == log[i]; } }
      }
    }
  }

  lemma LogCommits(lib: Lib, log: seq<Signed>, heads: seq<Text.Leaf>)
    requires Admissible(lib, log) && ListsHeads(Replay(lib, log), heads)
    ensures ChainsFromNull(lib, LogHistories(log)) && Commits(lib, heads, LogHistories(log))
    ensures Payloads(LogHistories(log), LogRecords(log))
  {
    hide Admissible, Replay, Linked, SignedHash, Tree.LastWins, LogRecords;
    var h := LogHistories(log);
    forall t ensures t in h <==> t in Replay(lib, log).heads { HeadsHaveChains(lib, log, t); }
    forall t | t in h
      ensures |h[t]| > 0 && Linked(lib, t, h[t]) && Tree.LastWins(heads)[t] == SignedHash(lib, h[t][|h[t]| - 1])
    {
      HeadsHaveChains(lib, log, t);
      ChainsAreUnforked(lib, log, t);
    }
    forall t, i | t in h && 0 <= i < |h[t]| ensures SignedPayload(h[t][i]) in LogRecords(log) {
      ChainComesFromLog(log, t);
      LoggedPayload(log, h[t][i]);
    }
  }

  /**
   * Two ledgers, each filled by any interleaving of emitters: their checkpoints have the same root
   * exactly when every tenant's complete receipt history is the same in both.
   */
  lemma LedgerRootsAgreeIff(sha: Text.Sha, locale: Tree.Locale, lib: Lib, cfg: Config,
                            start1: System, schedule1: seq<(nat, Event)>, a: seq<Text.Leaf>,
                            start2: System, schedule2: seq<(nat, Event)>, b: seq<Text.Leaf>)
    requires Initial(cfg, start1) && Initial(cfg, start2)
    requires ListsHeads(Run(lib, cfg, start1, schedule1).store, a)
             && ListsHeads(Run(lib, cfg, start2, schedule2).store, b)
    requires var x, y := ReceiptsOf(Run(lib, cfg, start1, schedule1).log),
             ReceiptsOf(Run(lib, cfg, start2, schedule2).log);
             CollisionFree(lib, LogRecords(x) + LogRecords(y)) && Tree.LocaleSeparates(locale, LogHistories(x).Keys)
    requires Text.FixedWidth(sha)
    requires Text.CollisionFree(sha, Binding.TreeTexts(sha, Tree.Normalize(locale, a)) +
             Binding.TreeTexts(sha, Tree.Normalize(locale, b)))
    ensures Tree.MerkleRoot(sha, locale, a) == Tree.MerkleRoot(sha, locale, b) <==>
            LogHistories(ReceiptsOf(Run(lib, cfg, start1, schedule1).log)) ==
                LogHistories(ReceiptsOf(Run(lib, cfg, start2, schedule2).log))
  {
    hide *;
    var sys1, sys2 := Run(lib, cfg, start1, schedule1), Run(lib, cfg, start2, schedule2);
    var x, y := ReceiptsOf(sys1.log), ReceiptsOf(sys2.log);
    RunIsReplay(lib, cfg, start1, schedule1);
    RunIsReplay(lib, cfg, start2, schedule2);
    LogCommits(lib, x, a);
    LogCommits(lib, y, b);
    MorePayloads(LogHistories(x), LogRecords(x), LogRecords(y));
    MorePayloads(LogHistories(y), LogRecords(y), LogRecords(x));
    assert LogRecords(x) + LogRecords(y) == LogRecords(y) + LogRecords(x);
    EqualRootsIffEqualHistories(sha, locale, lib, LogRecords(x) + LogRecords(y), a, LogHistories(x),
        b, LogHistories(y));
  }

  lemma RunIsReplay(lib: Lib, cfg: Config, start: System, schedule: seq<(nat, Event)>)
    requires Initial(cfg, start)
    ensures var sys := Run(lib, cfg, start, schedule);
            Admissible(lib, ReceiptsOf(sys.log)) && sys.store == Replay(lib, ReceiptsOf(sys.log))
  {
    InitialInv(lib, cfg, start);
    hide Run, Initial, Admissible, Replay, Honest, EmitterOk;
    RunKeepsInv(lib, cfg, start, schedule);
  }

  lemma MorePayloads(h: Histories, s: set<Record>, more: set<Record>)
    requires Payloads(h, s)
    ensures Payloads(h, s + more)
  {
  }

  /**
   * In every interleaving, the chain verifier passes every entry of a tenant's history exactly when
   * the tenant's timestamps do not decrease.
   */
  lemma EveryRunVerifiesIff(lib: Lib, cfg: Config, start: System, schedule: seq<(nat, Event)>, tenant: string)
    requires Initial(cfg, start)
    requires var log := ReceiptsOf(Run(lib, cfg, start, schedule).log);
             CollisionFree(lib, LogRecords(log)) && TenantChain(log, tenant) != []
    ensures var c := TenantChain(ReceiptsOf(Run(lib, cfg, start, schedule).log), tenant);
            Accepted(lib, Submitted(c)) <==> TimesNonDecreasing(lib, c)
  {
    hide *;
    RunIsReplay(lib, cfg, start, schedule);
    LedgerChainAcceptedIff(lib, ReceiptsOf(Run(lib, cfg, start, schedule).log), tenant);
  }

  /******** A stored chain that the verifier rejects ********/

  /** What the n-th of two emissions of one tenant signs: the first links to null, the second to the first. */
  function FirstSigned(lib: Lib, cfg: Config, input: EmissionInput, signature: string): Signed {
    Signed(BuildUnsigned(lib, cfg, input, None), signature)
  }

  function NextSigned(lib: Lib, cfg: Config, before: Signed, input: EmissionInput, signature: string): Signed {
    Signed(BuildUnsigned(lib, cfg, input, Some(SignedHash(lib, before))), signature)
  }

  /** Two well-formed receipts of one tenant for different requests, the second of an earlier time. */
  ghost predicate OutOfTime(lib: Lib, a: Signed, b: Signed) {
    && lib.schemaAccepts(a) && lib.schemaAccepts(b) && Tenant(a) == Tenant(b)
    && MarkerKey(lib, a) != MarkerKey(lib, b) && ReceiptKey(a) != ReceiptKey(b)
    && lib.millis(b.unsigned.body.timestamp) < lib.millis(a.unsigned.body.timestamp)
  }

  lemma LaterIsRejected(lib: Lib, a: Signed, b: Signed)
    requires OutOfTime(lib, a, b) && a.unsigned.prev.None? && b.unsigned.prev == Some(SignedHash(lib, a))
    ensures EntryPasses(lib, [Valid(a), Valid(b)], 0) && !EntryPasses(lib, [Valid(a), Valid(b)], 1)
  {
    hide SignedHash, MarkerKey, ReceiptKey;
  }

  /**
   * Whatever two emissions of one tenant are accepted and signed, if the second carries an earlier time then both are
   * stored and the chain verifier rejects the second.
   */
  method EarlierTimeIsStoredAndRejected(lib: Lib, cfg: Config, one: EmissionInput, x: string,
      two: EmissionInput, y: string)
    returns (first: EmitResult, second: EmitResult, checks: seq<Check>)
    requires cfg.accepts(one) && cfg.accepts(two) && one.previousReceiptHash.None? && two.previousReceiptHash.None?
    requires var a := FirstSigned(lib, cfg, one, x); OutOfTime(lib, a, NextSigned(lib, cfg, a, two, y))
    ensures first == Emitted(FirstSigned(lib, cfg, one, x))
    ensures second == Emitted(NextSigned(lib, cfg, FirstSigned(lib, cfg, one, x), two, y))
    ensures |checks| == 2 && checks[0].passed && !checks[1].passed
  {
    hide BuildBody, EmitAlone, SignedHash, EntryPasses;
    BodyFields(lib, cfg, one);
    BodyFields(lib, cfg, two);
    ghost var a := FirstSigned(lib, cfg, one, x);
    var repository := new InMemoryRepository();
    NewRequestIsCreated(lib, cfg, EMPTY, one, x);
    first := Emit(lib, cfg, repository, one, [Some(x), None, None]);
    NewRequestIsCreated(lib, cfg, repository.Contents(), two, y);
    second := Emit(lib, cfg, repository, two, [Some(y), None, None]);
    LaterIsRejected(lib, a, NextSigned(lib, cfg, a, two, y));
    checks := VerifyChain(lib, [Valid(first.receipt), Valid(second.receipt)]);
  }
}
