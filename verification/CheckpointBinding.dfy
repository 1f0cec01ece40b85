/** What a checkpoint root and an accepted inclusion proof commit to. */
module CheckpointBinding {
  import opened Prelude
  import opened MerkleText
  import opened Checkpoint

  /** The node texts hashed above a layer. */
  ghost function NodeTexts(sha: Sha, layer: seq<string>): set<string>
    decreases |layer|
  {
    if |layer| <= 1 then {}
    else
      (set i | 0 <= i < (|layer| + 1) / 2 :: NodeText(layer[2 * i], RightOf(layer, i))) +
      NodeTexts(sha, NextLayer(sha, layer))
  }

  /** Every text hashed while computing the root of these leaves. */
  ghost function TreeTexts(sha: Sha, leaves: seq<Leaf>): set<string> {
    (set i | 0 <= i < |leaves| :: LeafText(leaves[i])) + NodeTexts(sha, LeafLayer(sha, leaves)) + {EMPTY_TEXT}
  }

  /** Every text hashed while climbing a proof from `from`. */
  ghost function ClimbTexts(sha: Sha, from: string, steps: seq<Step>): set<string> {
    if |steps| == 0 then {}
    else
      var below := Climb(sha, from, steps[..|steps| - 1]);
      var step := steps[|steps| - 1];
      {if step.Left? then NodeText(step.hash, below) else NodeText(below, step.hash)} +
          ClimbTexts(sha, from, steps[..|steps| - 1])
  }

  ghost predicate NoDuplicates(layer: seq<string>) {
    forall i, j :: 0 <= i < j < |layer| ==> layer[i] != layer[j]
  }

  const DIGEST_WIDTH := 71

  ghost predicate Wide(layer: seq<string>) {
    forall i :: 0 <= i < |layer| ==> |layer[i]| == DIGEST_WIDTH
  }

  /** A hashable layer: well-shaped, without repeats, and with all texts above it known. */
  ghost predicate Sound(sha: Sha, texts: set<string>, layer: seq<string>) {
    |layer| > 0 && NoDuplicates(layer) && Wide(layer) && NodeTexts(sha, layer) <= texts
  }

  lemma HashWidth(sha: Sha, t: string)
    requires FixedWidth(sha)
    ensures |Hash(sha, t)| == DIGEST_WIDTH
  {
    assert |sha(t)| == 64;
  }

  lemma ParentInjective(sha: Sha, texts: set<string>, l: string, r: string, m: string, q: string)
    requires CollisionFree(sha, texts) && NodeText(l, r) in texts && NodeText(m, q) in texts
    requires Parent(sha, l, r) == Parent(sha, m, q) && (|r| == |q| || |l| == |m|)
    ensures l == m && r == q
  {
    hide NodeText, CollisionFree, Hash;
    HashInjective(sha, texts, NodeText(l, r), NodeText(m, q));
    NodeTextSplits(l, r, m, q);
  }

  lemma PairTextKnown(sha: Sha, layer: seq<string>, i: nat)
    requires |layer| > 1 && i < (|layer| + 1) / 2
    ensures NodeText(layer[2 * i], RightOf(layer, i)) in NodeTexts(sha, layer)
  {
  }

  /** Equal positions of two next layers come from equal pairs below. */
  lemma PairsBelow(sha: Sha, texts: set<string>, x: seq<string>, y: seq<string>, i: nat, j: nat)
    requires CollisionFree(sha, texts) && NodeTexts(sha, x) <= texts && NodeTexts(sha, y) <= texts
    requires |x| > 1 && |y| > 1 && Wide(x) && Wide(y) && i < (|x| + 1) / 2 && j < (|y| + 1) / 2
    requires NextLayer(sha, x)[i] == NextLayer(sha, y)[j]
    ensures x[2 * i] == y[2 * j] && RightOf(x, i) == RightOf(y, j)
  {
    PairTextKnown(sha, x, i);
    PairTextKnown(sha, y, j);
    hide NodeTexts, CollisionFree, Hash, NodeText;
    ParentInjective(sha, texts, x[2 * i], RightOf(x, i), y[2 * j], RightOf(y, j));
  }

  /** Pairing up a duplicate-free layer gives a duplicate-free layer. */
  lemma NextLayerSound(sha: Sha, texts: set<string>, layer: seq<string>)
    requires FixedWidth(sha) && CollisionFree(sha, texts) && Sound(sha, texts, layer) && |layer| > 1
    ensures Sound(sha, texts, NextLayer(sha, layer))
  {
    var next := NextLayer(sha, layer);
    assert NodeTexts(sha, next) <= texts;
    hide NodeTexts, CollisionFree, FixedWidth, Hash, NodeText;
    forall i | 0 <= i < |next| ensures |next[i]| == DIGEST_WIDTH {
      HashWidth(sha, NodeText(layer[2 * i], RightOf(layer, i)));
    }
    forall i, j | 0 <= i < j < |next| ensures next[i] != next[j] {
      if next[i] == next[j] {
        PairsBelow(sha, texts, layer, layer, i, j);
      }
    }
  }

  /** From equal next layers to equal layers: no repeats, so no confusion of odd with even sizes. */
  lemma LayersBelow(sha: Sha, texts: set<string>, x: seq<string>, y: seq<string>)
    requires CollisionFree(sha, texts) && Sound(sha, texts, x) && Sound(sha, texts, y) && |x| > 1 && |y| > 1
    requires NextLayer(sha, x) == NextLayer(sha, y)
    ensures x == y
  {
    hide CollisionFree, NodeTexts;
    var n := |NextLayer(sha, x)|;
    forall i | 0 <= i < n ensures x[2 * i] == y[2 * i] && RightOf(x, i) == RightOf(y, i) {
      PairsBelow(sha, texts, x, y, i, i);
    }
    hide NextLayer;
    assert x[2 * (n - 1)] == y[2 * (n - 1)] && RightOf(x, n - 1) == RightOf(y, n - 1);
    assert |x| == |y|;
    forall k | 0 <= k < |x| ensures x[k] == y[k] {
      assert x[2 * (k / 2)] == y[2 * (k / 2)] && RightOf(x, k / 2) == RightOf(y, k / 2);
      assert k == 2 * (k / 2) || k == 2 * (k / 2) + 1;
    }
  }

  lemma {:induction false} SameDepthSameLayer(sha: Sha, texts: set<string>, x: seq<string>, y: seq<string>)
    requires FixedWidth(sha) && CollisionFree(sha, texts) && Sound(sha, texts, x) && Sound(sha, texts, y)
    requires Depth(|x|) == Depth(|y|) && RootOf(sha, x) == RootOf(sha, y)
    ensures x == y
    decreases |x|
  {
    hide CollisionFree, FixedWidth, NodeTexts, NextLayer, NoDuplicates, Wide;
    if |x| > 1 {
      NextLayerSound(sha, texts, x);
      NextLayerSound(sha, texts, y);
      SameDepthSameLayer(sha, texts, NextLayer(sha, x), NextLayer(sha, y));
      LayersBelow(sha, texts, x, y);
    }
  }

  lemma LeafLayerSound(sha: Sha, texts: set<string>, leaves: seq<Leaf>)
    requires FixedWidth(sha) && CollisionFree(sha, texts) && TreeTexts(sha, leaves) <= texts
    requires DistinctTenants(leaves) && |leaves| > 0
    ensures Sound(sha, texts, LeafLayer(sha, leaves))
  {
    hide CollisionFree, FixedWidth, NodeTexts, Hash, LeafText;
    var layer := LeafLayer(sha, leaves);
    forall i | 0 <= i < |layer| ensures |layer[i]| == DIGEST_WIDTH { HashWidth(sha, LeafText(leaves[i])); }
    forall i, j | 0 <= i < j < |layer| ensures layer[i] != layer[j] {
      if layer[i] == layer[j] {
        HashInjective(sha, texts, LeafText(leaves[i]), LeafText(leaves[j]));
        LeafTextInjective(leaves[i], leaves[j]);
      }
    }
  }

  /** A leaf hash is never a node hash. */
  lemma LeafIsNoNode(sha: Sha, texts: set<string>, leaf: Leaf, l: string, r: string)
    requires CollisionFree(sha, texts) && LeafText(leaf) in texts && NodeText(l, r) in texts
    ensures LeafHash(sha, leaf) != Parent(sha, l, r)
  {
    if LeafHash(sha, leaf) == Parent(sha, l, r) {
      HashInjective(sha, texts, LeafText(leaf), NodeText(l, r));
      DomainsSeparate(leaf, l, r);
      assert false;
    }
  }

  /** A deeper layer never shares its root with a leaf layer. */
  lemma {:induction false} DeeperTreeDiffers(sha: Sha, texts: set<string>, leaves: seq<Leaf>, y: seq<string>)
    requires FixedWidth(sha) && CollisionFree(sha, texts) && TreeTexts(sha, leaves) <= texts
    requires DistinctTenants(leaves) && |leaves| > 0 && Sound(sha, texts, y) && Depth(|leaves|) < Depth(|y|)
    ensures RootOf(sha, LeafLayer(sha, leaves)) != RootOf(sha, y)
    decreases |y|
  {
    var x, next := LeafLayer(sha, leaves), NextLayer(sha, y);
    assert LeafText(leaves[0]) in texts;
    PairTextKnown(sha, y, 0);
    LeafIsNoNode(sha, texts, leaves[0], y[0], RightOf(y, 0));
    assert x[0] != next[0];
    hide CollisionFree, FixedWidth, NodeTexts, TreeTexts, LeafLayer, NextLayer, DistinctTenants, NoDuplicates, Wide,
      LeafText, NodeText;
    LeafLayerSound(sha, texts, leaves);
    NextLayerSound(sha, texts, y);
    if Depth(|leaves|) < Depth(|next|) {
      DeeperTreeDiffers(sha, texts, leaves, next);
    } else if RootOf(sha, x) == RootOf(sha, next) {
      SameDepthSameLayer(sha, texts, x, next);
    }
  }

  /** The root of a non-empty layer above the leaves is a node hash with a known text. */
  lemma {:induction false} RootIsNode(sha: Sha, layer: seq<string>) returns (l: string, r: string)
    requires |layer| > 1
    ensures RootOf(sha, layer) == Parent(sha, l, r) && NodeText(l, r) in NodeTexts(sha, layer)
    decreases |layer|
  {
    if |layer| == 2 {
      l, r := layer[0], layer[1];
      PairTextKnown(sha, layer, 0);
    } else {
      l, r := RootIsNode(sha, NextLayer(sha, layer));
    }
  }

  lemma EmptyTreeDiffers(sha: Sha, texts: set<string>, leaves: seq<Leaf>)
    requires CollisionFree(sha, texts) && TreeTexts(sha, leaves) <= texts && |leaves| > 0
    ensures TreeRoot(sha, leaves) != Hash(sha, EMPTY_TEXT)
  {
    assert EMPTY_TEXT in texts && LeafText(leaves[0]) in texts;
    if |leaves| == 1 {
      DomainsSeparate(leaves[0], "", "");
      if LeafHash(sha, leaves[0]) == Hash(sha, EMPTY_TEXT) {
        HashInjective(sha, texts, LeafText(leaves[0]), EMPTY_TEXT);
      }
    } else {
      var l, r := RootIsNode(sha, LeafLayer(sha, leaves));
      DomainsSeparate(leaves[0], l, r);
      if Parent(sha, l, r) == Hash(sha, EMPTY_TEXT) { HashInjective(sha, texts, NodeText(l, r), EMPTY_TEXT); }
    }
  }

  lemma LeafLayerInjective(sha: Sha, texts: set<string>, a: seq<Leaf>, b: seq<Leaf>)
    requires CollisionFree(sha, texts) && TreeTexts(sha, a) <= texts && TreeTexts(sha, b) <= texts
    requires LeafLayer(sha, a) == LeafLayer(sha, b)
    ensures a == b
  {
    hide CollisionFree, NodeTexts, LeafText, Hash;
    assert |a| == |LeafLayer(sha, a)| == |b|;
    forall i | 0 <= i < |a| ensures a[i] == b[i] {
      assert LeafLayer(sha, a)[i] == LeafLayer(sha, b)[i];
      HashInjective(sha, texts, LeafText(a[i]), LeafText(b[i]));
      LeafTextInjective(a[i], b[i]);
    }
  }

  /**
   * A root determines the leaf list, whatever the sizes and depths of the two trees, although the
   * last node of an odd layer is paired with itself.
   */
  lemma RootDeterminesLeaves(sha: Sha, a: seq<Leaf>, b: seq<Leaf>)
    requires FixedWidth(sha) && CollisionFree(sha, TreeTexts(sha, a) + TreeTexts(sha, b))
    requires DistinctTenants(a) && DistinctTenants(b) && TreeRoot(sha, a) == TreeRoot(sha, b)
    ensures a == b
  {
    hide CollisionFree, FixedWidth, TreeTexts, DistinctTenants, LeafLayer, RootOf, Hash;
    var texts := TreeTexts(sha, a) + TreeTexts(sha, b);
    if |a| == 0 || |b| == 0 {
      if |a| > 0 { EmptyTreeDiffers(sha, texts, a); }
      if |b| > 0 { EmptyTreeDiffers(sha, texts, b); }
    } else {
      LeafLayerSound(sha, texts, a);
      LeafLayerSound(sha, texts, b);
      LeafLayerSize(sha, a);
      LeafLayerSize(sha, b);
      if Depth(|a|) < Depth(|b|) {
        DeeperTreeDiffers(sha, texts, a, LeafLayer(sha, b));
      } else if Depth(|b|) < Depth(|a|) {
        DeeperTreeDiffers(sha, texts, b, LeafLayer(sha, a));
      }
      SameDepthSameLayer(sha, texts, LeafLayer(sha, a), LeafLayer(sha, b));
      LeafLayerInjective(sha, texts, a, b);
    }
  }

  lemma LeafLayerSize(sha: Sha, leaves: seq<Leaf>)
    ensures |LeafLayer(sha, leaves)| == |leaves|
  {
  }

  /** Two head sets have the same checkpoint root exactly when they hold the same last head for every tenant. */
  lemma RootsAgreeIff(sha: Sha, locale: Locale, a: seq<Leaf>, b: seq<Leaf>)
    requires FixedWidth(sha) && LocaleSeparates(locale, LastWins(a).Keys)
    requires CollisionFree(sha, TreeTexts(sha, Normalize(locale, a)) + TreeTexts(sha, Normalize(locale, b)))
    ensures MerkleRoot(sha, locale, a) == MerkleRoot(sha, locale, b) <==> LastWins(a) == LastWins(b)
  {
    hide CollisionFree, FixedWidth, TreeTexts, TreeRoot, Normalize, LastWins, LocaleSeparates;
    if LastWins(a) == LastWins(b) {
      NormalizeForgetsOrder(locale, a, b);
    }
    if MerkleRoot(sha, locale, a) == MerkleRoot(sha, locale, b) {
      NormalizedLeaves(locale, a);
      NormalizedLeaves(locale, b);
      RootDeterminesLeaves(sha, Normalize(locale, a), Normalize(locale, b));
      SameLeavesSameHeads(locale, a, b);
    }
  }

  lemma SameLeavesSameHeads(locale: Locale, a: seq<Leaf>, b: seq<Leaf>)
    requires Normalize(locale, a) == Normalize(locale, b)
    ensures LastWins(a) == LastWins(b)
  {
    NormalizedLeaves(locale, a);
    NormalizedLeaves(locale, b);
    hide Normalize, LastWins;
    forall t | t in LastWins(a) ensures t in LastWins(b) && LastWins(b)[t] == LastWins(a)[t] {
      assert Leaf(t, LastWins(a)[t]) in Normalize(locale, a);
    }
    forall t | t in LastWins(b) ensures t in LastWins(a) {
      assert Leaf(t, LastWins(b)[t]) in Normalize(locale, b);
    }
  }

  /******** Accepted proofs ********/

  /** The last step of a climb that ends in a node hash starts from one of that node's children. */
  lemma LastStepBelow(sha: Sha, texts: set<string>, from: string, steps: seq<Step>, l: string, r: string)
    requires FixedWidth(sha) && CollisionFree(sha, texts) && |steps| > 0
    requires ClimbTexts(sha, from, steps) <= texts && NodeText(l, r) in texts
    requires |from| == |l| == |r| == DIGEST_WIDTH && Climb(sha, from, steps) == Parent(sha, l, r)
    ensures Climb(sha, from, steps[..|steps| - 1]) == l || Climb(sha, from, steps[..|steps| - 1]) == r
  {
    var below, step := Climb(sha, from, steps[..|steps| - 1]), steps[|steps| - 1];
    ClimbWidth(sha, from, steps[..|steps| - 1]);
    assert (if step.Left? then NodeText(step.hash, below) else NodeText(below, step.hash)) in texts;
    hide CollisionFree, FixedWidth, NodeText, Hash, ClimbTexts;
    if step.Left? {
      ParentInjective(sha, texts, step.hash, below, l, r);
    } else {
      ParentInjective(sha, texts, below, step.hash, l, r);
    }
  }

  lemma ClimbWidth(sha: Sha, from: string, steps: seq<Step>)
    requires FixedWidth(sha) && |from| == DIGEST_WIDTH
    ensures |Climb(sha, from, steps)| == DIGEST_WIDTH
  {
    hide FixedWidth;
    if |steps| > 0 {
      var below, step := Climb(sha, from, steps[..|steps| - 1]), steps[|steps| - 1];
      HashWidth(sha, if step.Left? then NodeText(step.hash, below) else NodeText(below, step.hash));
    }
  }

  lemma {:induction false} ClimbTextsPrefix(sha: Sha, from: string, steps: seq<Step>, n: nat)
    requires n <= |steps|
    ensures ClimbTexts(sha, from, steps[..n]) <= ClimbTexts(sha, from, steps)
    decreases |steps|
  {
    if n == |steps| {
      assert steps[..n] == steps;
    } else {
      ClimbTextsPrefix(sha, from, steps[..|steps| - 1], n);
      assert steps[..|steps| - 1][..n] == steps[..n];
    }
  }

  /** A climb that ends in a layer above the leaves passed through the layer below. */
  lemma DescendOne(sha: Sha, texts: set<string>, leaf: Leaf, cut: seq<Step>, layer: seq<string>)
    requires FixedWidth(sha) && CollisionFree(sha, texts) && LeafText(leaf) in texts
    requires ClimbTexts(sha, LeafHash(sha, leaf), cut) <= texts
    requires |layer| > 1 && Wide(layer) && NodeTexts(sha, layer) <= texts
    requires Climb(sha, LeafHash(sha, leaf), cut) in NextLayer(sha, layer)
    ensures |cut| > 0 && Climb(sha, LeafHash(sha, leaf), cut[..|cut| - 1]) in layer
  {
    hide CollisionFree, FixedWidth, ClimbTexts, LeafText, NodeText;
    var from, next := LeafHash(sha, leaf), NextLayer(sha, layer);
    var i :| 0 <= i < |next| && next[i] == Climb(sha, from, cut);
    PairTextKnown(sha, layer, i);
    hide NodeTexts;
    LeafIsNoNode(sha, texts, leaf, layer[2 * i], RightOf(layer, i));
    HashWidth(sha, LeafText(leaf));
    LastStepBelow(sha, texts, from, cut, layer[2 * i], RightOf(layer, i));
  }

  lemma LayerAbove(sha: Sha, layer: seq<string>)
    requires |layer| > 0
    ensures |layer| == 1 ==> RootOf(sha, layer) in layer && Depth(|layer|) == 0
    ensures |layer| > 1 ==>
              var next := NextLayer(sha, layer);
              && 0 < |next| < |layer| && RootOf(sha, layer) == RootOf(sha, next) && Depth(|layer|) == 1 + Depth(|next|)
              && NodeTexts(sha, next) <= NodeTexts(sha, layer)
  {
  }

  /** Descending from a matching root: every layer contains the climb cut off at the right height. */
  lemma {:induction false} DescendToLayer(sha: Sha, texts: set<string>, leaf: Leaf, steps: seq<Step>,
      layer: seq<string>)
    requires FixedWidth(sha) && CollisionFree(sha, texts) && LeafText(leaf) in texts
    requires ClimbTexts(sha, LeafHash(sha, leaf), steps) <= texts
    requires |layer| > 0 && Wide(layer) && NodeTexts(sha, layer) <= texts
    requires Climb(sha, LeafHash(sha, leaf), steps) == RootOf(sha, layer)
    ensures Depth(|layer|) <= |steps|
    ensures Climb(sha, LeafHash(sha, leaf), steps[..|steps| - Depth(|layer|)]) in layer
    decreases |layer|
  {
    hide *;
    assert steps[..|steps|] == steps;
    LayerAbove(sha, layer);
    if |layer| > 1 {
      var next := NextLayer(sha, layer);
      NextLayerWide(sha, layer);
      DescendToLayer(sha, texts, leaf, steps, next);
      var cut := steps[..|steps| - Depth(|next|)];
      ClimbTextsPrefix(sha, LeafHash(sha, leaf), steps, |cut|);
      DescendOne(sha, texts, leaf, cut, layer);
      assert cut[..|cut| - 1] == steps[..|steps| - Depth(|layer|)];
    }
  }

  lemma NextLayerWide(sha: Sha, layer: seq<string>)
    requires FixedWidth(sha)
    ensures Wide(NextLayer(sha, layer))
  {
    hide FixedWidth;
    forall i | 0 <= i < |NextLayer(sha, layer)| ensures |NextLayer(sha, layer)[i]| == DIGEST_WIDTH {
      HashWidth(sha, NodeText(layer[2 * i], RightOf(layer, i)));
    }
  }

  /**
   * Any accepted proof, with arbitrary strings for its sibling hashes, names a leaf of the tree and
   * has exactly the tree's depth; the empty tree accepts none.
   */
  lemma AcceptedProofNamesLeaf(sha: Sha, leaves: seq<Leaf>, proof: Proof)
    requires FixedWidth(sha) && Verifies(sha, proof, TreeRoot(sha, leaves))
    requires CollisionFree(sha, TreeTexts(sha, leaves) + {LeafText(proof.leaf)} +
             ClimbTexts(sha, LeafHash(sha, proof.leaf), proof.steps))
    ensures proof.leaf in leaves && |proof.steps| == Depth(|leaves|)
  {
    hide *;
    var texts := TreeTexts(sha, leaves) + {LeafText(proof.leaf)} +
        ClimbTexts(sha, LeafHash(sha, proof.leaf), proof.steps);
    AcceptedWithinTexts(sha, texts, leaves, proof);
  }

  lemma AcceptedWithinTexts(sha: Sha, texts: set<string>, leaves: seq<Leaf>, proof: Proof)
    requires FixedWidth(sha) && CollisionFree(sha, texts) && Verifies(sha, proof, TreeRoot(sha, leaves))
    requires TreeTexts(sha, leaves) <= texts && LeafText(proof.leaf) in texts
    requires ClimbTexts(sha, LeafHash(sha, proof.leaf), proof.steps) <= texts
    ensures proof.leaf in leaves && |proof.steps| == Depth(|leaves|)
  {
    hide *;
    var from, layer := LeafHash(sha, proof.leaf), LeafLayer(sha, leaves);
    LeafTextsKnown(sha, leaves);
    NothingVerifiesAgainstEmpty(sha, texts, proof, leaves);
    LeafLayerFacts(sha, leaves);
    VerifiesClimbs(sha, leaves, proof);
    DescendToLayer(sha, texts, proof.leaf, proof.steps, layer);
    var cut := proof.steps[..|proof.steps| - Depth(|leaves|)];
    ClimbTextsPrefix(sha, from, proof.steps, |cut|);
    var i :| 0 <= i < |layer| && layer[i] == Climb(sha, from, cut);
    BottomIsLeaf(sha, texts, leaves[i], proof.leaf, cut);
  }

  lemma LeafTextsKnown(sha: Sha, leaves: seq<Leaf>)
    ensures EMPTY_TEXT in TreeTexts(sha, leaves) && NodeTexts(sha, LeafLayer(sha, leaves)) <= TreeTexts(sha, leaves)
    ensures forall i :: 0 <= i < |leaves| ==> LeafText(leaves[i]) in TreeTexts(sha, leaves)
  {
  }

  lemma LeafLayerFacts(sha: Sha, leaves: seq<Leaf>)
    requires FixedWidth(sha)
    ensures |LeafLayer(sha, leaves)| == |leaves| && Wide(LeafLayer(sha, leaves))
    ensures forall i :: 0 <= i < |leaves| ==> LeafLayer(sha, leaves)[i] == LeafHash(sha, leaves[i])
  {
    hide FixedWidth, LeafText;
    forall i | 0 <= i < |leaves| ensures |LeafLayer(sha, leaves)[i]| == DIGEST_WIDTH {
      HashWidth(sha, LeafText(leaves[i]));
    }
  }

  lemma VerifiesClimbs(sha: Sha, leaves: seq<Leaf>, proof: Proof)
    requires |leaves| > 0 && Verifies(sha, proof, TreeRoot(sha, leaves))
    ensures |LeafLayer(sha, leaves)| > 0 && Climb(sha, LeafHash(sha, proof.leaf), proof.steps) ==
            RootOf(sha, LeafLayer(sha, leaves))
  {
  }

  /** A climb from a leaf that ends in a leaf hash took no step. */
  lemma BottomIsLeaf(sha: Sha, texts: set<string>, a: Leaf, b: Leaf, cut: seq<Step>)
    requires CollisionFree(sha, texts) && LeafText(a) in texts && LeafText(b) in texts
    requires ClimbTexts(sha, LeafHash(sha, b), cut) <= texts && Climb(sha, LeafHash(sha, b), cut) == LeafHash(sha, a)
    ensures |cut| == 0 && a == b
  {
    hide CollisionFree, LeafText, NodeText, Hash;
    if |cut| > 0 {
      var below, step := Climb(sha, LeafHash(sha, b), cut[..|cut| - 1]), cut[|cut| - 1];
      if step.Left? {
        LeafIsNoNode(sha, texts, a, step.hash, below);
      } else {
        LeafIsNoNode(sha, texts, a, below, step.hash);
      }
    } else {
      HashInjective(sha, texts, LeafText(a), LeafText(b));
      LeafTextInjective(a, b);
    }
  }

  lemma NothingVerifiesAgainstEmpty(sha: Sha, texts: set<string>, proof: Proof, leaves: seq<Leaf>)
    requires CollisionFree(sha, texts) && Verifies(sha, proof, TreeRoot(sha, leaves)) && EMPTY_TEXT in texts
    requires LeafText(proof.leaf) in texts && ClimbTexts(sha, LeafHash(sha, proof.leaf), proof.steps) <= texts
    ensures |leaves| > 0
  {
    if |leaves| == 0 {
      var from := LeafHash(sha, proof.leaf);
      var n := |proof.steps|;
      DomainsSeparate(proof.leaf, "", "");
      if n == 0 {
        HashInjective(sha, texts, LeafText(proof.leaf), EMPTY_TEXT);
      } else {
        var below, step := Climb(sha, from, proof.steps[..n - 1]), proof.steps[n - 1];
        var l, r := if step.Left? then step.hash else below, if step.Left? then below else step.hash;
        DomainsSeparate(proof.leaf, l, r);
        HashInjective(sha, texts, NodeText(l, r), EMPTY_TEXT);
      }
      assert false;
    }
  }
}
