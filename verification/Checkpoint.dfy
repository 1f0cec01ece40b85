/** Checkpoint trees over chain heads: normalisation, roots, inclusion proofs. */
module Checkpoint {
  import opened Prelude
  import opened MerkleText

  /** `Before(a, b)` iff `a.localeCompare(b) < 0`. */
  type Locale = (string, string) -> bool

  /******** Normalisation ********/

  /** Each tenant's head; later entries win. */
  function LastWins(heads: seq<Leaf>): map<string, string> {
    if |heads| == 0 then map[]
    else LastWins(heads[..|heads| - 1])[heads[|heads| - 1].tenantId := heads[|heads| - 1].headHash]
  }

  /** The tenants in the order of their first entry, which is the iteration order of the Map. */
  function FirstSeen(heads: seq<Leaf>): seq<string> {
    if |heads| == 0 then []
    else
      var before := FirstSeen(heads[..|heads| - 1]);
      var tenant := heads[|heads| - 1].tenantId;
      if tenant in LastWins(heads[..|heads| - 1]) then before else before + [tenant]
  }

  lemma {:induction false} FirstSeenIsKeys(heads: seq<Leaf>)
    ensures forall t :: t in FirstSeen(heads) <==> t in LastWins(heads)
    ensures forall i, j :: 0 <= i < j < |FirstSeen(heads)| ==> FirstSeen(heads)[i] != FirstSeen(heads)[j]
  {
    if |heads| > 0 {
      FirstSeenIsKeys(heads[..|heads| - 1]);
    }
  }

  function MapValues(heads: seq<Leaf>): (leaves: seq<Leaf>)
    ensures |leaves| == |FirstSeen(heads)|
    ensures forall i :: 0 <= i < |leaves| ==>
              leaves[i].tenantId == FirstSeen(heads)[i] && leaves[i].tenantId in LastWins(heads)
              && leaves[i].headHash == LastWins(heads)[leaves[i].tenantId]
  {
    FirstSeenIsKeys(heads);
    seq(|FirstSeen(heads)|, i requires 0 <= i < |FirstSeen(heads)| =>
      assert FirstSeen(heads)[i] in FirstSeen(heads);
      Leaf(FirstSeen(heads)[i], LastWins(heads)[FirstSeen(heads)[i]]))
  }

  function ByTenant(locale: Locale): (Leaf, Leaf) -> bool {
    (a: Leaf, b: Leaf) => locale(a.tenantId, b.tenantId)
  }

  function Normalize(locale: Locale, heads: seq<Leaf>): seq<Leaf> {
    SortBy(ByTenant(locale), MapValues(heads))
  }

  ghost predicate DistinctTenants(leaves: seq<Leaf>) {
    forall i, j :: 0 <= i < j < |leaves| ==> leaves[i].tenantId != leaves[j].tenantId
  }

  /** The map's values: one per tenant, the last one given. */
  lemma MapValuesMembers(heads: seq<Leaf>)
    ensures forall leaf: Leaf :: leaf in MapValues(heads) <==>
            leaf.tenantId in LastWins(heads) && LastWins(heads)[leaf.tenantId] == leaf.headHash
    ensures DistinctTenants(MapValues(heads))
  {
    hide LastWins, FirstSeen;
    var m := MapValues(heads);
    FirstSeenIsKeys(heads);
    forall leaf: Leaf | leaf.tenantId in LastWins(heads) && LastWins(heads)[leaf.tenantId] == leaf.headHash
        ensures leaf in m {
      var i :| 0 <= i < |FirstSeen(heads)| && FirstSeen(heads)[i] == leaf.tenantId;
      assert m[i] == leaf;
    }
  }

  /** Rearranging leaves of distinct tenants keeps their tenants distinct. */
  lemma DistinctStays(leaves: seq<Leaf>, rearranged: seq<Leaf>)
    requires DistinctTenants(leaves) && multiset(rearranged) == multiset(leaves)
    ensures DistinctTenants(rearranged)
  {
    DistinctKeysStay((leaf: Leaf) => leaf.tenantId, leaves, rearranged);
  }

  /** Normalisation keeps one leaf per tenant, the last one given. */
  lemma NormalizedLeaves(locale: Locale, heads: seq<Leaf>)
    ensures DistinctTenants(Normalize(locale, heads))
    ensures forall leaf: Leaf :: leaf in Normalize(locale, heads) <==>
              leaf.tenantId in LastWins(heads) && LastWins(heads)[leaf.tenantId] == leaf.headHash
  {
    hide LastWins, FirstSeen, MapValues, SortBy, DistinctTenants;
    MapValuesMembers(heads);
    DistinctStays(MapValues(heads), Normalize(locale, heads));
    SameMembers(Normalize(locale, heads), MapValues(heads));
  }

  /** The locale orders these tenant ids totally and tells them apart. */
  ghost predicate LocaleSeparates(locale: Locale, tenants: set<string>) {
    StrictTotalOn(locale, tenants)
  }

  /** The normalised list depends only on each tenant's last head, not on the order of the heads. */
  lemma NormalizeForgetsOrder(locale: Locale, a: seq<Leaf>, b: seq<Leaf>)
    requires LastWins(a) == LastWins(b) && LocaleSeparates(locale, LastWins(a).Keys)
    ensures Normalize(locale, a) == Normalize(locale, b)
  {
    hide LastWins, FirstSeen, MapValues, SortBy, DistinctTenants, StrictTotalOn, Elements;
    var m, n := MapValues(a), MapValues(b);
    MapValuesMembers(a);
    MapValuesMembers(b);
    SameLeaves(m, n);
    TenantsOrderLeaves(locale, a);
    SortByPermutation(ByTenant(locale), m, n);
  }

  /** Two lists of distinct tenants with the same members are rearrangements of each other. */
  lemma SameLeaves(m: seq<Leaf>, n: seq<Leaf>)
    requires DistinctTenants(m) && DistinctTenants(n) && forall leaf: Leaf :: leaf in m <==> leaf in n
    ensures multiset(m) == multiset(n)
  {
    DistinctMultiplicity(m);
    DistinctMultiplicity(n);
    forall x ensures multiset(m)[x] == multiset(n)[x] {
      assert x in multiset(m) <==> x in m;
      assert x in multiset(n) <==> x in n;
    }
  }

  /** An order of the tenants orders the map's values. */
  lemma TenantsOrderLeaves(locale: Locale, heads: seq<Leaf>)
    requires LocaleSeparates(locale, LastWins(heads).Keys)
    ensures StrictTotalOn(ByTenant(locale), Elements(MapValues(heads)))
  {
    hide LastWins, FirstSeen, MapValues;
    MapValuesMembers(heads);
  }

  method NormalizeChainHeadLeaves(locale: Locale, heads: seq<Leaf>) returns (leaves: seq<Leaf>)
    ensures leaves == Normalize(locale, heads)
  {
    var seen: map<string, string>, order: seq<string> := map[], [];
    for i := 0 to |heads|
      invariant seen == LastWins(heads[..i]) && order == FirstSeen(heads[..i])
    {
      assert heads[..i + 1][..i] == heads[..i];
      if heads[i].tenantId !in seen {
        order := order + [heads[i].tenantId];
      }
      seen := seen[heads[i].tenantId := heads[i].headHash];
    }
    assert heads[..|heads|] == heads;
    FirstSeenIsKeys(heads);
    var values := seq(|order|, i requires 0 <= i < |order| => assert order[i] in order; Leaf(order[i], seen[order[i]]));
    assert values == MapValues(heads);
    leaves := SortBy(ByTenant(locale), values);
  }

  /******** Layers and roots ********/

  function LeafHash(sha: Sha, leaf: Leaf): string {
    Hash(sha, LeafText(leaf))
  }

  function Parent(sha: Sha, left: string, right: string): string {
    Hash(sha, NodeText(left, right))
  }

  function LeafLayer(sha: Sha, leaves: seq<Leaf>): seq<string> {
    seq(|leaves|, i requires 0 <= i < |leaves| => LeafHash(sha, leaves[i]))
  }

  /** The right partner of an even position; the last node of an odd layer is paired with itself. */
  function RightOf(layer: seq<string>, i: nat): string
    requires 2 * i < |layer|
  {
    if 2 * i + 1 < |layer| then layer[2 * i + 1] else layer[2 * i]
  }

  function NextLayer(sha: Sha, layer: seq<string>): (next: seq<string>)
    ensures |next| == (|layer| + 1) / 2
  {
    seq((|layer| + 1) / 2, i requires 0 <= i < (|layer| + 1) / 2 => Parent(sha, layer[2 * i], RightOf(layer, i)))
  }

  function RootOf(sha: Sha, layer: seq<string>): string
    requires |layer| > 0
    decreases |layer|
  {
    if |layer| == 1 then layer[0] else RootOf(sha, NextLayer(sha, layer))
  }

  /** The number of layers above a layer of `n` nodes. */
  function Depth(n: nat): nat {
    if n <= 1 then 0 else 1 + Depth((n + 1) / 2)
  }

  function Pow2(d: nat): nat {
    if d == 0 then 1 else 2 * Pow2(d - 1)
  }

  /** Depth is the ceiling of the binary logarithm. */
  lemma {:induction false} DepthIsCeilLog2(n: nat)
    requires n > 0
    ensures n <= Pow2(Depth(n)) && (n > 1 ==> Pow2(Depth(n) - 1) < n)
  {
    if n > 1 {
      DepthIsCeilLog2((n + 1) / 2);
    }
  }

  function TreeRoot(sha: Sha, leaves: seq<Leaf>): string {
    if |leaves| == 0 then Hash(sha, EMPTY_TEXT) else RootOf(sha, LeafLayer(sha, leaves))
  }

  function MerkleRoot(sha: Sha, locale: Locale, heads: seq<Leaf>): string {
    TreeRoot(sha, Normalize(locale, heads))
  }

  method PairUp(sha: Sha, layer: seq<string>) returns (next: seq<string>)
    ensures next == NextLayer(sha, layer)
  {
    next := [];
    var index := 0;
    while index < |layer|
      invariant index == 2 * |next| && |next| <= (|layer| + 1) / 2
      invariant forall i :: 0 <= i < |next| ==> next[i] == NextLayer(sha, layer)[i]
    {
      var left := layer[index];
      var right := if index + 1 < |layer| then layer[index + 1] else left;
      next := next + [Parent(sha, left, right)];
      index := index + 2;
    }
  }

  method MerkleRootForLeaves(sha: Sha, locale: Locale, heads: seq<Leaf>) returns (root: string)
    ensures root == MerkleRoot(sha, locale, heads)
    ensures heads == [] ==> root == "sha256:" + sha("ghost-ark.receipt-checkpoint.empty.v1")
  {
    if heads == [] { assert Normalize(locale, heads) == []; }
    var leaves := NormalizeChainHeadLeaves(locale, heads);
    var layer := LeafLayer(sha, leaves);
    if |layer| == 0 {
      return Hash(sha, EMPTY_TEXT);
    }
    while |layer| > 1
      invariant |layer| > 0 && RootOf(sha, layer) == MerkleRoot(sha, locale, heads)
    {
      layer := PairUp(sha, layer);
    }
    root := layer[0];
  }

  /******** The tree by position ********/

  /** The number of nodes `height` layers above `n` leaves. */
  function Width(n: nat, height: nat): nat {
    if height == 0 then n else (Width(n, height - 1) + 1) / 2
  }

  /**
   * The node at a height and a position: the digest of its two children, left first, and of a missing right child's
   * twin.
   */
  ghost function Node(sha: Sha, base: seq<string>, height: nat, i: nat): string
    requires i < Width(|base|, height)
  {
    if height == 0 then base[i]
    else
      var left := Node(sha, base, height - 1, 2 * i);
      var right := if 2 * i + 1 < Width(|base|, height - 1) then Node(sha, base, height - 1, 2 * i + 1) else left;
      "sha256:" + sha("ghost-ark.receipt-checkpoint.node.v1:" + left + ":" + right)
  }

  /** This layer stands `height` layers above the base. */
  ghost predicate IsLayer(sha: Sha, base: seq<string>, height: nat, layer: seq<string>) {
    |layer| == Width(|base|, height) && forall i :: 0 <= i < |layer| ==> layer[i] == Node(sha, base, height, i)
  }

  lemma NextIsLayer(sha: Sha, base: seq<string>, height: nat, layer: seq<string>)
    requires IsLayer(sha, base, height, layer)
    ensures IsLayer(sha, base, height + 1, NextLayer(sha, layer))
  {
    var next := NextLayer(sha, layer);
    forall i | 0 <= i < |next| ensures next[i] == Node(sha, base, height + 1, i) {
      assert next[i] == Parent(sha, layer[2 * i], RightOf(layer, i));
    }
  }

  /** Layer by layer upwards or node by node downwards, the root is the same. */
  lemma {:induction false} RootIsTopNode(sha: Sha, base: seq<string>, height: nat, layer: seq<string>)
    requires IsLayer(sha, base, height, layer) && |layer| > 0
    ensures Width(|base|, height + Depth(|layer|)) == 1
    ensures RootOf(sha, layer) == Node(sha, base, height + Depth(|layer|), 0)
    decreases |layer|
  {
    hide NextLayer, Node;
    if |layer| > 1 {
      NextIsLayer(sha, base, height, layer);
      RootIsTopNode(sha, base, height + 1, NextLayer(sha, layer));
    }
  }

  lemma LeafLayerIs(sha: Sha, leaves: seq<Leaf>)
    ensures |LeafLayer(sha, leaves)| == |leaves|
    ensures forall i :: 0 <= i < |leaves| ==> LeafLayer(sha, leaves)[i] == "sha256:" + sha(LeafText(leaves[i]))
  {
    hide LeafText;
  }

  lemma LeavesAreHashed(sha: Sha, leaves: seq<Leaf>)
    ensures |LeafLayer(sha, leaves)| == |leaves|
    ensures forall i :: 0 <= i < |leaves| ==> LeafLayer(sha, leaves)[i] == LeafHash(sha, leaves[i])
  {
    hide LeafHash;
  }

  lemma RootOfPair(sha: Sha, layer: seq<string>)
    requires |layer| == 2
    ensures RootOf(sha, layer) == Parent(sha, layer[0], layer[1])
  {
    hide Parent;
    assert NextLayer(sha, layer) == [Parent(sha, layer[0], layer[1])];
  }

  lemma RootStep(sha: Sha, layer: seq<string>)
    requires |layer| > 1
    ensures RootOf(sha, layer) == RootOf(sha, NextLayer(sha, layer))
    ensures Depth(|layer|) == 1 + Depth(|NextLayer(sha, layer)|)
  {
    hide NextLayer;
  }

  lemma TreeRootIs(sha: Sha, leaves: seq<Leaf>)
    requires |leaves| > 0
    ensures TreeRoot(sha, leaves) == RootOf(sha, LeafLayer(sha, leaves))
  {
    hide RootOf, LeafLayer, Hash;
  }

  lemma RootOfOne(sha: Sha, layer: seq<string>)
    requires |layer| == 1
    ensures RootOf(sha, layer) == layer[0] && Depth(|layer|) == 0
  {
  }

  /** The root of leaves by position, down to the hashed texts. */
  lemma RootByPosition(sha: Sha, leaves: seq<Leaf>)
    requires |leaves| > 0
    ensures Width(|leaves|, Depth(|leaves|)) == 1
    ensures TreeRoot(sha, leaves) == Node(sha, LeafLayer(sha, leaves), Depth(|leaves|), 0)
    ensures forall i :: 0 <= i < |leaves| ==> LeafLayer(sha, leaves)[i] == "sha256:" + sha(LeafText(leaves[i]))
  {
    hide *;
    LeafLayerIs(sha, leaves);
    TreeRootIs(sha, leaves);
    BaseIsLayer(sha, LeafLayer(sha, leaves));
    RootIsTopNode(sha, LeafLayer(sha, leaves), 0, LeafLayer(sha, leaves));
  }

  lemma BaseIsLayer(sha: Sha, base: seq<string>)
    ensures IsLayer(sha, base, 0, base)
  {
  }

  /**
   * Two tenants' heads: the root is the digest of a text with the leaf hash of the first tenant in locale order first.
   */
  lemma RootOfTwoHeads(sha: Sha, locale: Locale, heads: seq<Leaf>, s: string, x: string, t: string, y: string)
    requires s != t && LastWins(heads) == map[s := x, t := y] && LocaleSeparates(locale, {s, t}) && locale(s, t)
    ensures MerkleRoot(sha, locale, heads) ==
            "sha256:" + sha("ghost-ark.receipt-checkpoint.node.v1:" + ("sha256:" + sha(LeafText(Leaf(s, x)))) +
                            ":" + ("sha256:" + sha(LeafText(Leaf(t, y)))))
  {
    hide LeafText, NodeText, LastWins, Normalize, LeafLayer, RootOf;
    var leaves := Normalize(locale, heads);
    TwoLeaves(locale, heads, s, x, t, y);
    LeafLayerIs(sha, leaves);
    var layer := LeafLayer(sha, leaves);
    RootOfPair(sha, layer);
    NodeTextIs(layer[0], layer[1]);
  }

  lemma NodeTextIs(l: string, r: string)
    ensures NodeText(l, r) == "ghost-ark.receipt-checkpoint.node.v1:" + l + ":" + r
  {
  }

  lemma TwoLeaves(locale: Locale, heads: seq<Leaf>, s: string, x: string, t: string, y: string)
    requires s != t && LastWins(heads) == map[s := x, t := y] && LocaleSeparates(locale, {s, t}) && locale(s, t)
    ensures Normalize(locale, heads) == [Leaf(s, x), Leaf(t, y)]
  {
    hide LastWins, Normalize, SortBy, SortedBy, StrictTotalOn;
    var leaves, two := Normalize(locale, heads), [Leaf(s, x), Leaf(t, y)];
    NormalizedLeaves(locale, heads);
    assert forall leaf: Leaf :: leaf in leaves <==> leaf in two;
    assert LastWins(heads).Keys == {s, t};
    SameLeaves(leaves, two);
    NormalizedInOrder(locale, heads);
    assert |leaves| == |multiset(leaves)| == |multiset(two)| == 2;
    assert leaves[0] in leaves && leaves[1] in leaves;
    OrderedPair(locale, leaves[0].tenantId, leaves[1].tenantId, s, t);
  }

  lemma OrderedPair(locale: Locale, a: string, b: string, s: string, t: string)
    requires LocaleSeparates(locale, {s, t}) && locale(s, t) && a in {s, t} && b in {s, t} && locale(a, b)
    ensures a == s && b == t
  {
    assert s in {s, t} && t in {s, t};
  }

  /** The normal form stands in the locale's order of its tenants. */
  lemma NormalizedInOrder(locale: Locale, heads: seq<Leaf>)
    requires LocaleSeparates(locale, LastWins(heads).Keys)
    ensures var leaves := Normalize(locale, heads);
            forall i, j :: 0 <= i < j < |leaves| ==> locale(leaves[i].tenantId, leaves[j].tenantId)
  {
    hide LastWins, FirstSeen, SortBy, SortedBy, DistinctTenants, MapValues, Elements;
    var leaves := Normalize(locale, heads);
    TenantsOrderLeaves(locale, heads);
    SortBySorted(ByTenant(locale), MapValues(heads));
    SortedPairs(ByTenant(locale), leaves);
    NormalizedLeaves(locale, heads);
    TenantsDiffer(leaves);
    forall i, j | 0 <= i < j < |leaves| ensures locale(leaves[i].tenantId, leaves[j].tenantId) {
      assert leaves[i] in leaves && leaves[j] in leaves && !ByTenant(locale)(leaves[j], leaves[i]);
    }
  }

  lemma TenantsDiffer(leaves: seq<Leaf>)
    requires DistinctTenants(leaves)
    ensures forall i, j :: 0 <= i < j < |leaves| ==> leaves[i].tenantId != leaves[j].tenantId
  {
  }

  /** This head is in the list, and no later entry is of its tenant. */
  ghost predicate LatestOf(heads: seq<Leaf>, leaf: Leaf) {
    exists i :: 0 <= i < |heads| && heads[i] == leaf && NoneBehind(heads, i, leaf.tenantId)
  }

  ghost predicate NoneBehind(heads: seq<Leaf>, i: int, tenant: string) {
    forall j :: i < j < |heads| && 0 <= j ==> heads[j].tenantId != tenant
  }

  lemma LatestStep(heads: seq<Leaf>, leaf: Leaf)
    requires |heads| > 0
    ensures var n := |heads| - 1;
            LatestOf(heads, leaf) <==>
            if heads[n].tenantId == leaf.tenantId then heads[n] == leaf else LatestOf(heads[..n], leaf)
  {
    var n := |heads| - 1;
    if heads[n].tenantId == leaf.tenantId {
      if heads[n] == leaf { assert NoneBehind(heads, n, leaf.tenantId); }
    } else {
      forall i | 0 <= i < n ensures NoneBehind(heads, i, leaf.tenantId) <==> NoneBehind(heads[..n], i, leaf.tenantId) {
        assert forall j :: 0 <= j < n ==> heads[..n][j] == heads[j];
      }
      if i :| 0 <= i < |heads| && heads[i] == leaf && NoneBehind(heads, i, leaf.tenantId) {
        assert heads[..n][i] == leaf && NoneBehind(heads[..n], i, leaf.tenantId);
      }
      if i :| 0 <= i < n && heads[..n][i] == leaf && NoneBehind(heads[..n], i, leaf.tenantId) {
        assert heads[i] == leaf && NoneBehind(heads, i, leaf.tenantId);
      }
    }
  }

  /** A head with no later entry of its tenant is in the normal form, and nothing else is. */
  lemma LatestHeadIsListed(locale: Locale, heads: seq<Leaf>, leaf: Leaf)
    ensures leaf in Normalize(locale, heads) <==> LatestOf(heads, leaf)
  {
    hide Normalize, LastWins, LatestOf;
    NormalizedLeaves(locale, heads);
    LastWinsIff(heads, leaf);
  }

  lemma {:induction false} LastWinsIff(heads: seq<Leaf>, leaf: Leaf)
    ensures leaf.tenantId in LastWins(heads) && LastWins(heads)[leaf.tenantId] == leaf.headHash <==>
            LatestOf(heads, leaf)
  {
    if |heads| > 0 {
      hide LatestOf;
      LatestStep(heads, leaf);
      LastWinsIff(heads[..|heads| - 1], leaf);
    }
  }

  /******** Inclusion proofs ********/

  datatype Step = Left(hash: string) | Right(hash: string)

  datatype Proof = Proof(leaf: Leaf, leafHash: string, steps: seq<Step>, root: string)

  /** Climbing from a hash along sibling steps. */
  function Climb(sha: Sha, from: string, steps: seq<Step>): string {
    if |steps| == 0 then from
    else
      var below := Climb(sha, from, steps[..|steps| - 1]);
      var step := steps[|steps| - 1];
      if step.Left? then Parent(sha, step.hash, below) else Parent(sha, below, step.hash)
  }

  predicate Verifies(sha: Sha, proof: Proof, expectedRoot: string) {
    LeafHash(sha, proof.leaf) == proof.leafHash && Climb(sha, LeafHash(sha, proof.leaf), proof.steps) == expectedRoot
  }

  /** A left sibling is hashed in front, a right sibling behind. */
  ghost predicate Joins(sha: Sha, below: string, step: Step, above: string) {
    match step
    case Left(sibling) => above == "sha256:" + sha(NodeText(sibling, below))
    case Right(sibling) => above == "sha256:" + sha(NodeText(below, sibling))
  }

  /** The hashes on the way up: the leaf's, each hashed with the sibling on its side, and the root at the end. */
  ghost predicate Trail(sha: Sha, proof: Proof, expectedRoot: string, hashes: seq<string>) {
    && |hashes| == |proof.steps| + 1 && hashes[0] == proof.leafHash == "sha256:" + sha(LeafText(proof.leaf))
    && hashes[|proof.steps|] == expectedRoot
    && forall k :: 0 <= k < |proof.steps| ==> Joins(sha, hashes[k], proof.steps[k], hashes[k + 1])
  }

  lemma {:induction false} TrailClimbs(sha: Sha, proof: Proof, expectedRoot: string, hashes: seq<string>, k: nat)
    requires Trail(sha, proof, expectedRoot, hashes) && k <= |proof.steps|
    ensures hashes[k] == Climb(sha, proof.leafHash, proof.steps[..k])
  {
    hide LeafText, NodeText;
    if k > 0 {
      TrailClimbs(sha, proof, expectedRoot, hashes, k - 1);
      assert proof.steps[..k][..k - 1] == proof.steps[..k - 1];
      assert Joins(sha, hashes[k - 1], proof.steps[k - 1], hashes[k - 1 + 1]);
    }
  }

  lemma VerifiesIffTrail(sha: Sha, proof: Proof, expectedRoot: string)
    ensures Verifies(sha, proof, expectedRoot) <==> exists hashes :: Trail(sha, proof, expectedRoot, hashes)
  {
    hide LeafText, NodeText;
    assert proof.steps[..|proof.steps|] == proof.steps;
    if Verifies(sha, proof, expectedRoot) {
      var hashes := seq(|proof.steps| + 1, k requires 0 <= k <= |proof.steps| =>
        Climb(sha, proof.leafHash, proof.steps[..k]));
      forall k | 0 <= k < |proof.steps| ensures Joins(sha, hashes[k], proof.steps[k], hashes[k + 1]) {
        assert proof.steps[..k + 1][..k] == proof.steps[..k];
      }
      assert Trail(sha, proof, expectedRoot, hashes);
    }
    if hashes :| Trail(sha, proof, expectedRoot, hashes) {
      TrailClimbs(sha, proof, expectedRoot, hashes, |proof.steps|);
    }
  }

  method VerifyMerkleInclusionProof(sha: Sha, proof: Proof, expectedRoot: string) returns (ok: bool)
    ensures ok <==> Verifies(sha, proof, expectedRoot)
    ensures ok <==> exists hashes :: Trail(sha, proof, expectedRoot, hashes)
  {
    VerifiesIffTrail(sha, proof, expectedRoot);
    var computed := LeafHash(sha, proof.leaf);
    if computed != proof.leafHash {
      return false;
    }
    for i := 0 to |proof.steps|
      invariant computed == Climb(sha, LeafHash(sha, proof.leaf), proof.steps[..i])
    {
      var step := proof.steps[i];
      assert proof.steps[..i + 1][..i] == proof.steps[..i];
      computed := if step.Left? then Parent(sha, step.hash, computed) else Parent(sha, computed, step.hash);
    }
    assert proof.steps[..|proof.steps|] == proof.steps;
    ok := computed == expectedRoot;
  }

  /** The step that joins position `index` of a layer with its sibling. */
  function SiblingStep(layer: seq<string>, index: nat): Step
    requires index < |layer|
  {
    if index % 2 == 1 then Left(layer[index - 1])
    else Right(if index + 1 < |layer| then layer[index + 1] else layer[index])
  }

  lemma ClimbNothing(sha: Sha, from: string)
    ensures Climb(sha, from, []) == from
  {
  }

  lemma ClimbOneLayer(sha: Sha, layer: seq<string>, index: nat, from: string, steps: seq<Step>)
    requires index < |layer| && Climb(sha, from, steps) == layer[index]
    ensures Climb(sha, from, steps + [SiblingStep(layer, index)]) == NextLayer(sha, layer)[index / 2]
  {
    hide Parent;
    var longer := steps + [SiblingStep(layer, index)];
    assert longer[..|longer| - 1] == steps;
    assert index == 2 * (index / 2) + index % 2;
  }

  /**
   * The sibling of a node: to the left of an odd position, to the right of an even one, or the node itself if it is
   * last.
   */
  ghost function SiblingOf(sha: Sha, base: seq<string>, height: nat, i: nat): Step
    requires i < Width(|base|, height)
  {
    if i % 2 == 1 then Left(Node(sha, base, height, i - 1))
    else if i + 1 < Width(|base|, height) then Right(Node(sha, base, height, i + 1))
    else Right(Node(sha, base, height, i))
  }

  /** Halving a position, height by height, from the leaf upwards. */
  function Above(index: nat, height: nat): nat {
    if height == 0 then index else Above(index, height - 1) / 2
  }

  lemma {:induction false} AboveIsThere(n: nat, index: nat, height: nat)
    requires index < n
    ensures Above(index, height) < Width(n, height)
  {
    if height > 0 { AboveIsThere(n, index, height - 1); }
  }

  /** Step by step, the proof gives the sibling of the node above the target. */
  ghost predicate StepsFrom(sha: Sha, base: seq<string>, index: nat, steps: seq<Step>)
    requires index < |base|
  {
    forall k: nat :: k < |steps| ==>
      Above(index, k) < Width(|base|, k) && steps[k] == SiblingOf(sha, base, k, Above(index, k))
  }

  ghost predicate StepsByPosition(sha: Sha, leaves: seq<Leaf>, target: Leaf, steps: seq<Step>) {
    exists index: nat :: index < |leaves| && leaves[index] == target
        && StepsFrom(sha, LeafLayer(sha, leaves), index, steps)
  }

  lemma SiblingInLayer(sha: Sha, base: seq<string>, height: nat, layer: seq<string>, i: nat)
    requires IsLayer(sha, base, height, layer) && i < |layer|
    ensures SiblingStep(layer, i) == SiblingOf(sha, base, height, i)
  {
    hide Node, Width;
  }

  lemma OneMoreStep(sha: Sha, base: seq<string>, index: nat, steps: seq<Step>, layer: seq<string>)
    requires index < |base| && StepsFrom(sha, base, index, steps) && IsLayer(sha, base, |steps|, layer)
    requires Above(index, |steps|) < |layer|
    ensures StepsFrom(sha, base, index, steps + [SiblingStep(layer, Above(index, |steps|))])
    ensures Above(index, |steps| + 1) == Above(index, |steps|) / 2
  {
    hide Node, SiblingStep, SiblingOf;
    AboveIsThere(|base|, index, |steps|);
    SiblingInLayer(sha, base, |steps|, layer, Above(index, |steps|));
  }

  lemma NoStepsYet(sha: Sha, base: seq<string>, index: nat)
    requires index < |base|
    ensures StepsFrom(sha, base, index, []) && Above(index, 0) == index
  {
  }

  /** A proof built for a present leaf verifies against the root and has ceil(log2 n) steps. */
  method BuildMerkleInclusionProof(sha: Sha, locale: Locale, heads: seq<Leaf>, target: Leaf)
      returns (proof: Option<Proof>)
    ensures proof.Some? <==> target in Normalize(locale, heads)
    ensures proof.Some? ==> proof.value.leaf == target && proof.value.root == MerkleRoot(sha, locale, heads)
    ensures proof.Some? ==> Verifies(sha, proof.value, MerkleRoot(sha, locale, heads))
    ensures proof.Some? ==> |proof.value.steps| == Depth(|Normalize(locale, heads)|)
    ensures proof.Some? ==> StepsByPosition(sha, Normalize(locale, heads), target, proof.value.steps)
  {
    hide Climb, Parent, Normalize, NextLayer, Node, Width, IsLayer, LeafText, LeafLayer, LeafHash, RootOf,
      Depth, Above, StepsFrom;
    var leaves := NormalizeChainHeadLeaves(locale, heads);
    var index := 0;
    while index < |leaves| && leaves[index] != target
      invariant index <= |leaves| && target !in leaves[..index]
    {
      index := index + 1;
    }
    if index == |leaves| {
      return None;
    }
    var layer := LeafLayer(sha, leaves);
    var steps: seq<Step> := [];
    ghost var base, start := layer, index;
    LeavesAreHashed(sha, leaves);
    TreeRootIs(sha, leaves);
    ClimbNothing(sha, LeafHash(sha, target));
    BaseIsLayer(sha, base);
    NoStepsYet(sha, base, start);
    while |layer| > 1
      invariant IsLayer(sha, base, |steps|, layer) && index == Above(start, |steps|)
                && StepsFrom(sha, base, start, steps)
      invariant 0 <= index < |layer| && RootOf(sha, layer) == MerkleRoot(sha, locale, heads)
      invariant Climb(sha, LeafHash(sha, target), steps) == layer[index]
      invariant |steps| + Depth(|layer|) == Depth(|leaves|)
    {
      RootStep(sha, layer);
      ClimbOneLayer(sha, layer, index, LeafHash(sha, target), steps);
      OneMoreStep(sha, base, start, steps, layer);
      NextIsLayer(sha, base, |steps|, layer);
      var siblingIndex := if index % 2 == 0 then index + 1 else index - 1;
      var sibling := if siblingIndex < |layer| then layer[siblingIndex] else layer[index];
      steps := steps + [if index % 2 == 0 then Right(sibling) else Left(sibling)];
      layer := PairUp(sha, layer);
      index := index / 2;
    }
    RootOfOne(sha, layer);
    proof := Some(Proof(target, LeafHash(sha, target), steps, layer[0]));
  }
}
