/** What a compiled policy lists, names and orders, against literal names. */
module PolicyCompilation {
  import opened Prelude
  import opened Decisions
  import opened Policy

  /** The layers from the weakest on, as they are written. */
  const LAYERS := [(Default, "default"), (User, "user"), (Organization, "organization"), (Regulated, "regulated"),
                   (Emergency, "emergency")]

  /** The phases in the order of their names. */
  const PHASES := [(FinalResponse, "final_response"), (MemoryWrite, "memory_write"), (PostModel, "post_model"),
                   (PreModel, "pre_model"), (PreRetrieval, "pre_retrieval")]

  function Strength(layer: Layer): (k: nat)
    ensures k < |LAYERS| && LAYERS[k].0 == layer
  {
    match layer
    case Default => 0
    case User => 1
    case Organization => 2
    case Regulated => 3
    case Emergency => 4
  }

  function Turn(phase: Phase): (k: nat)
    ensures k < |PHASES| && PHASES[k].0 == phase
  {
    match phase
    case FinalResponse => 0
    case MemoryWrite => 1
    case PostModel => 2
    case PreModel => 3
    case PreRetrieval => 4
  }

  lemma LayersAreNamed(layer: Layer)
    ensures LayerName(layer) == LAYERS[Strength(layer)].1 && Precedence(layer) == "01234"[Strength(layer)]
  {
  }

  lemma PhasesAreNamed(phase: Phase)
    ensures PhaseName(phase) == PHASES[Turn(phase)].1
  {
  }

  /******** The order of keys ********/

  lemma {:induction false} CommonStart(p: string, a: string, b: string)
    ensures StringLess(p + a, p + b) <==> StringLess(a, b)
  {
    if |p| == 0 {
      assert p + a == a && p + b == b;
    } else {
      assert (p + a)[1..] == p[1..] + a && (p + b)[1..] == p[1..] + b;
      CommonStart(p[1..], a, b);
    }
  }

  /** Texts with different names of phases in front are in the order of the phases. */
  lemma PhaseDecides(x: Phase, y: Phase, a: string, b: string)
    requires Turn(x) < Turn(y)
    ensures StringLess(PhaseName(x) + a, PhaseName(y) + b)
  {
    var s, t := PhaseName(x) + a, PhaseName(y) + b;
    assert forall i :: 0 <= i < |PhaseName(x)| ==> s[i] == PhaseName(x)[i];
    assert forall i :: 0 <= i < |PhaseName(y)| ==> t[i] == PhaseName(y)[i];
    hide StringLess;
    var k := if x.PostModel? then 1 else if x.PreModel? then 4 else 0;
    var k' := if x.PostModel? && (y.PreModel? || y.PreRetrieval?) then 1 else if x.PreModel? then 4 else 0;
    assert s[..k'] == t[..k'];
    assert Precedes(s, t);
    StringLessIff(s, t);
  }

  function RestOfKey(r: CompiledRule): string {
    r.sourcePolicyId + ":" + r.sourceVersion + ":" + r.rule.id
  }

  /** First by phase, then by layer, then by policy, version and rule. */
  ghost predicate NotAfter(x: CompiledRule, y: CompiledRule) {
    || Turn(x.rule.phase) < Turn(y.rule.phase)
    || (x.rule.phase == y.rule.phase && Strength(x.layer) < Strength(y.layer))
    || (x.rule.phase == y.rule.phase && x.layer == y.layer && !StringLess(RestOfKey(y), RestOfKey(x)))
  }

  lemma KeyParts(r: CompiledRule)
    ensures RuleSortKey(r) == PhaseName(r.rule.phase) + (":0" + ([Precedence(r.layer)] + (":" + RestOfKey(r))))
  {
  }

  lemma KeysOrder(x: CompiledRule, y: CompiledRule)
    requires !ByRuleKey()(y, x)
    ensures NotAfter(x, y)
  {
    hide StringLess, PhaseName, RuleSortKey, RestOfKey;
    KeyParts(x);
    KeyParts(y);
    var a, b := ":0" + ([Precedence(x.layer)] + (":" + RestOfKey(x))),
        ":0" + ([Precedence(y.layer)] + (":" + RestOfKey(y)));
    if Turn(y.rule.phase) < Turn(x.rule.phase) {
      PhaseDecides(y.rule.phase, x.rule.phase, b, a);
      assert false;
    } else if x.rule.phase == y.rule.phase {
      CommonStart(PhaseName(x.rule.phase), b, a);
      LayersOrder(x, y);
    }
  }

  lemma LayersOrder(x: CompiledRule, y: CompiledRule)
    requires !StringLess(":0" + ([Precedence(y.layer)] + (":" + RestOfKey(y))),
               ":0" + ([Precedence(x.layer)] + (":" + RestOfKey(x))))
    ensures Strength(x.layer) < Strength(y.layer) ||
            (x.layer == y.layer && !StringLess(RestOfKey(y), RestOfKey(x)))
  {
    hide RestOfKey;
    CommonStart(":0", [Precedence(y.layer)] + (":" + RestOfKey(y)), [Precedence(x.layer)] + (":" + RestOfKey(x)));
    LayersAreNamed(x.layer);
    LayersAreNamed(y.layer);
    if x.layer == y.layer {
      CommonStart([Precedence(x.layer)], ":" + RestOfKey(y), ":" + RestOfKey(x));
      CommonStart(":", RestOfKey(y), RestOfKey(x));
    }
  }

  lemma KeyedOrderIsWeak()
    ensures StrictWeak(ByRuleKey()) && StrictWeak(BySourceKey())
  {
    hide RuleSortKey, SourceSortKey;
    forall x: CompiledRule, y: CompiledRule, z: CompiledRule {
      LessThroughAny(RuleSortKey(x), RuleSortKey(y), RuleSortKey(z));
    }
    forall x: Source, y: Source, z: Source {
      LessThroughAny(SourceSortKey(x), SourceSortKey(y), SourceSortKey(z));
    }
  }

  lemma LessThroughAny(a: string, b: string, c: string)
    ensures !(StringLess(a, b) && StringLess(b, a))
    ensures StringLess(a, c) ==> StringLess(a, b) || StringLess(b, c)
  {
    StringLessTrichotomy(a, b);
    if StringLess(a, c) && StringLess(b, a) { StringLessTransitive(b, a, c); }
  }

  /******** What is listed ********/

  /** The rule as it is written, with where it comes from and a label of layer, policy, version and rule. */
  ghost predicate IsListed(r: CompiledRule, p: Source, k: int) {
    && 0 <= k < |p.rules| && r.rule == p.rules[k]
    && r.sourcePolicyId == p.policyId && r.sourceVersion == p.version && r.layer == p.layer
    && r.canonicalRuleId ==
       LAYERS[Strength(p.layer)].1 + ":" + p.policyId + ":" + p.version + ":" + p.rules[k].id
  }

  lemma CompiledIsListed(p: Source, k: nat, r: CompiledRule)
    requires k < |p.rules|
    ensures CompileRule(p, p.rules[k]) == r <==> IsListed(r, p, k)
  {
    LayersAreNamed(p.layer);
  }

  /** Weaker layers first, then by policy and version. */
  ghost predicate SourceNotAfter(p: Source, q: Source) {
    || Strength(p.layer) < Strength(q.layer)
    || (p.layer == q.layer && !StringLess(q.policyId + ":" + q.version, p.policyId + ":" + p.version))
  }

  lemma SourcesOrder(p: Source, q: Source)
    requires !BySourceKey()(q, p)
    ensures SourceNotAfter(p, q)
  {
    var a, b := p.policyId + ":" + p.version, q.policyId + ":" + q.version;
    assert p.policyId + (":" + p.version) == a && q.policyId + (":" + q.version) == b;
    LayersAreNamed(p.layer);
    LayersAreNamed(q.layer);
    if p.layer == q.layer {
      var n := LayerName(p.layer);
      CommonStart([Precedence(p.layer)], ":" + (n + (":" + b)), ":" + (n + (":" + a)));
      CommonStart(":", n + (":" + b), n + (":" + a));
      CommonStart(n, ":" + b, ":" + a);
      CommonStart(":", b, a);
    }
  }

  lemma VersionStep(s: seq<Source>)
    requires |s| > 0
    ensures var own := LAYERS[Strength(s[0].layer)].1 + ":" + s[0].policyId + "@" + s[0].version;
            VersionText(s) == if |s| == 1 then own else own + "+" + VersionText(s[1..])
  {
    LayersAreNamed(s[0].layer);
  }

  lemma Reassociated(x: string, y: string, z: string)
    ensures x + "+" + (y + "+" + z) == (x + "+" + y) + "+" + z
  {
  }

  /** The version of one source is its layer, id and version; versions of several are joined by a plus sign. */
  lemma {:induction false} VersionsAreJoined(a: seq<Source>, b: seq<Source>)
    requires |a| > 0 && |b| > 0
    ensures VersionText(a + b) == VersionText(a) + "+" + VersionText(b)
    ensures |a| == 1 ==>
              VersionText(a) == LAYERS[Strength(a[0].layer)].1 + ":" + a[0].policyId + "@" + a[0].version
  {
    hide VersionText, Strength;
    VersionStep(a);
    VersionStep(a + b);
    assert (a + b)[1..] == a[1..] + b && (a + b)[0] == a[0];
    if |a| == 1 {
      assert a[1..] + b == b;
    } else {
      VersionsAreJoined(a[1..], b);
      Reassociated(LAYERS[Strength(a[0].layer)].1 + ":" + a[0].policyId + "@" + a[0].version, VersionText(a[1..]),
        VersionText(b));
    }
  }

  ghost predicate InOrder(sources: seq<Source>) {
    forall i, j :: 0 <= i < j < |sources| ==> SourceNotAfter(sources[i], sources[j])
  }

  /**
   * The compiled rules are the rules of the sources, each labelled with where it comes from, by phase, layer and
   * name; the version lists the sources from the weakest layer on, and the hash is of all of it.
   */
  lemma CompiledAsListed(env: Env, policies: seq<Source>)
    requires |policies| > 0
    ensures CompilePolicySet(env, policies).Some?
    ensures var c := CompilePolicySet(env, policies).value;
            && (forall r :: r in c.rules <==> exists i, k :: 0 <= i < |policies| && IsListed(r, policies[i], k))
            && (forall i, j :: 0 <= i < j < |c.rules| ==> NotAfter(c.rules[i], c.rules[j]))
            && (exists s :: multiset(s) == multiset(policies) && InOrder(s) && c.policyVersion == VersionText(s))
            && c.policyHash == env.hash(c.(policyHash := ""))
  {
    hide RuleSortKey, SourceSortKey, VersionText, FlatRules, SortBy, MostRestrictiveDecision, NotAfter, IsListed,
      SourceNotAfter, SortedBy, BySourceKey, ByRuleKey, StrictWeak;
    var sorted := SortBy(BySourceKey(), policies);
    SameMembers(sorted, policies);
    KeyedOrderIsWeak();
    SourcesAreOrdered(policies);
    var flat := FlatRules(sorted);
    var c := CompilePolicySet(env, policies).value;
    RulesAreOrdered(flat);
    assert c.rules == SortBy(ByRuleKey(), flat);
    SameMembers(flat, c.rules);
    assert multiset(sorted) == multiset(policies) && InOrder(sorted) && c.policyVersion == VersionText(sorted);
    forall r ensures r in c.rules <==> exists i, k :: 0 <= i < |policies| && IsListed(r, policies[i], k) {
      FlatIsListed(sorted, policies, r);
    }
  }

  lemma SourcesAreOrdered(policies: seq<Source>)
    ensures InOrder(SortBy(BySourceKey(), policies))
  {
    hide SourceSortKey, SourceNotAfter, StrictWeak;
    var sorted := SortBy(BySourceKey(), policies);
    KeyedOrderIsWeak();
    SortByOrders(BySourceKey(), policies);
    SortedPairs(BySourceKey(), sorted);
    forall i, j | 0 <= i < j < |sorted| ensures SourceNotAfter(sorted[i], sorted[j]) {
      SourcesOrder(sorted[i], sorted[j]);
    }
  }

  lemma RulesAreOrdered(flat: seq<CompiledRule>)
    ensures var rules := SortBy(ByRuleKey(), flat);
            forall i, j :: 0 <= i < j < |rules| ==> NotAfter(rules[i], rules[j])
  {
    hide RuleSortKey, NotAfter, StrictWeak;
    var rules := SortBy(ByRuleKey(), flat);
    KeyedOrderIsWeak();
    SortByOrders(ByRuleKey(), flat);
    SortedPairs(ByRuleKey(), rules);
    forall i, j | 0 <= i < j < |rules| ensures NotAfter(rules[i], rules[j]) {
      KeysOrder(rules[i], rules[j]);
    }
  }

  lemma FlatIsListed(sorted: seq<Source>, policies: seq<Source>, r: CompiledRule)
    requires forall p :: p in sorted <==> p in policies
    ensures r in FlatRules(sorted) <==> exists i, k :: 0 <= i < |policies| && IsListed(r, policies[i], k)
  {
    hide IsListed, FlatRules, CompileRule;
    FlatRulesMembers(sorted, r);
    forall p: Source, k: nat | k < |p.rules| ensures CompileRule(p, p.rules[k]) == r <==> IsListed(r, p, k) {
      CompiledIsListed(p, k, r);
    }
    if r in FlatRules(sorted) {
      var i, k :| 0 <= i < |sorted| && 0 <= k < |sorted[i].rules| && CompileRule(sorted[i], sorted[i].rules[k]) == r;
      assert sorted[i] in policies;
      var j :| 0 <= j < |policies| && policies[j] == sorted[i];
      assert IsListed(r, policies[j], k);
    }
    if i, k :| 0 <= i < |policies| && IsListed(r, policies[i], k) {
      assert 0 <= k < |policies[i].rules| by { ListedIsInRange(r, policies[i], k); }
      assert policies[i] in sorted;
      var j :| 0 <= j < |sorted| && sorted[j] == policies[i];
      assert CompileRule(sorted[j], sorted[j].rules[k]) == r;
    }
  }

  lemma ListedIsInRange(r: CompiledRule, p: Source, k: int)
    requires IsListed(r, p, k)
    ensures 0 <= k < |p.rules|
  {
    assert 0 <= k < |p.rules|;
  }
}
