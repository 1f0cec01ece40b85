/** The policy compiler and evaluator: sorting, flattening and the most restrictive choice. */
module Policy {
  import opened Prelude
  import opened Decisions

  datatype Layer = Default | User | Organization | Regulated | Emergency

  datatype Tier = KAPPA | SESSION | CONSTITUTION | AUDIT | RESTRICTED

  datatype Taint = Trusted | UntrustedInstruction | CrossTenant | UnknownOrigin

  datatype RuleMatch = RuleMatch(
    textContainsAny: Option<seq<string>>,
    outputContainsAny: Option<seq<string>>,
    riskTagsAny: Option<seq<string>>,
    retrievalTaintAny: Option<seq<Taint>>,
    memoryTierAny: Option<seq<Tier>>,
    memoryClassificationAny: Option<seq<string>>,
    consentStateAny: Option<seq<ConsentState>>,
    requiresConsent: Option<bool>,
    bodyDeclaredTenant: Option<bool>)

  datatype Rule = Rule(id: string, description: Option<string>, phase: Phase, decision: DecisionKind,
      actionTaken: seq<string>, when: RuleMatch)

  datatype Source = Source(
    policyId: string, version: string, layer: Layer,
    defaultDecision: DecisionKind, unknownRiskDecision: DecisionKind, rules: seq<Rule>)

  datatype CompiledRule = CompiledRule(rule: Rule, canonicalRuleId: string, sourcePolicyId: string,
      sourceVersion: string, layer: Layer)

  datatype CompiledPolicy = CompiledPolicy(
    policyVersion: string, defaultDecision: DecisionKind, unknownRiskDecision: DecisionKind,
    rules: seq<CompiledRule>, policyHash: string)

  datatype MemoryWriteContext = MemoryWriteContext(tier: Tier, classificationTags: seq<string>)

  datatype Context = Context(
    phase: Phase,
    requestText: Option<string>,
    outputText: Option<string>,
    riskTags: Option<seq<string>>,
    retrievedTaints: Option<seq<seq<Taint>>>,
    memoryWrite: Option<MemoryWriteContext>,
    consentState: Option<ConsentState>,
    bodyDeclaredTenant: Option<bool>)

  /** Library functions: toLowerCase, and the canonical hash of a compiled policy before its hash is set. */
  datatype Env = Env(lower: string -> string, hash: CompiledPolicy -> string)

  /******** Compilation ********/

  function Precedence(layer: Layer): char {
    match layer
    case Default => '0'
    case User => '1'
    case Organization => '2'
    case Regulated => '3'
    case Emergency => '4'
  }

  function LayerName(layer: Layer): string {
    match layer
    case Default => "default"
    case User => "user"
    case Organization => "organization"
    case Regulated => "regulated"
    case Emergency => "emergency"
  }

  function PhaseName(phase: Phase): string {
    match phase
    case PreRetrieval => "pre_retrieval"
    case PreModel => "pre_model"
    case PostModel => "post_model"
    case MemoryWrite => "memory_write"
    case FinalResponse => "final_response"
  }

  function SourceSortKey(p: Source): string {
    [Precedence(p.layer)] + (":" + (LayerName(p.layer) + (":" + (p.policyId + (":" + p.version)))))
  }

  function RuleSortKey(r: CompiledRule): string {
    PhaseName(r.rule.phase) + ":0" + [Precedence(r.layer)] + ":" + r.sourcePolicyId + ":" +
        r.sourceVersion + ":" + r.rule.id
  }

  function CompileRule(p: Source, rule: Rule): CompiledRule {
    CompiledRule(rule, LayerName(p.layer) + ":" + p.policyId + ":" + p.version + ":" + rule.id, p.policyId,
        p.version, p.layer)
  }

  function FlatRules(policies: seq<Source>): seq<CompiledRule> {
    if |policies| == 0 then []
    else
      seq(|policies[0].rules|, i requires 0 <= i < |policies[0].rules| =>
        CompileRule(policies[0], policies[0].rules[i])) +
      FlatRules(policies[1..])
  }

  function VersionText(policies: seq<Source>): string {
    if |policies| == 0 then ""
    else
      var head := LayerName(policies[0].layer) + ":" + policies[0].policyId + "@" + policies[0].version;
      if |policies| == 1 then head else head + "+" + VersionText(policies[1..])
  }

  /** Reduces by keeping the first of the most restrictive values. */
  function MoreRestrictive(current: DecisionKind, candidate: DecisionKind): DecisionKind {
    if Rank(candidate) > Rank(current) then candidate else current
  }

  function Strictest(current: DecisionKind, rest: seq<DecisionKind>): (d: DecisionKind)
    ensures d == current || d in rest
    ensures Rank(d) >= Rank(current) && forall x :: x in rest ==> Rank(d) >= Rank(x)
    decreases |rest|
  {
    if |rest| == 0 then current else Strictest(MoreRestrictive(current, rest[0]), rest[1..])
  }

  function MostRestrictiveDecision(decisions: seq<DecisionKind>): (d: DecisionKind)
    ensures if |decisions| == 0 then d == ALLOW else d in decisions && forall x :: x in decisions ==> Rank(x) <= Rank(d)
  {
    if |decisions| == 0 then ALLOW
    else
      assert decisions == [decisions[0]] + decisions[1..];
      Strictest(decisions[0], decisions[1..])
  }

  function BySourceKey(): (Source, Source) -> bool {
    (x, y) => StringLess(SourceSortKey(x), SourceSortKey(y))
  }

  function ByRuleKey(): (CompiledRule, CompiledRule) -> bool {
    (x, y) => StringLess(RuleSortKey(x), RuleSortKey(y))
  }

  function Defaults(policies: seq<Source>): seq<DecisionKind> {
    seq(|policies|, i requires 0 <= i < |policies| => policies[i].defaultDecision)
  }

  function UnknownRisks(policies: seq<Source>): seq<DecisionKind> {
    seq(|policies|, i requires 0 <= i < |policies| => policies[i].unknownRiskDecision)
  }

  /** None stands for the error on an empty policy set. */
  function CompilePolicySet(env: Env, policies: seq<Source>): Option<CompiledPolicy> {
    var sorted := SortBy(BySourceKey(), policies);
    if |sorted| == 0 then None
    else
      var withoutHash := CompiledPolicy(
        VersionText(sorted), MostRestrictiveDecision(Defaults(sorted)), MostRestrictiveDecision(UnknownRisks(sorted)),
        SortBy(ByRuleKey(), FlatRules(sorted)), "");
      Some(withoutHash.(policyHash := env.hash(withoutHash)))
  }

  ghost predicate NoColon(s: string) {
    ':' !in s
  }

  lemma {:induction false} SplitAtColon(a: string, x: string, b: string, y: string)
    requires NoColon(a) && NoColon(b) && a + (":" + x) == b + (":" + y)
    ensures a == b && x == y
  {
    var left, right := a + (":" + x), b + (":" + y);
    assert left[|a|] == ':' && right[|b|] == ':';
    assert forall i :: 0 <= i < |a| ==> left[i] == a[i];
    assert forall i :: 0 <= i < |b| ==> right[i] == b[i];
    assert |a| == |b|;
    assert a == left[..|a|] && b == right[..|b|];
    assert x == left[|a| + 1..] && y == right[|b| + 1..];
  }

  /** The sort key of a schema-valid source determines its layer, id and version. */
  lemma SourceSortKeyInjective(p: Source, q: Source)
    requires NoColon(p.policyId) && NoColon(q.policyId) && SourceSortKey(p) == SourceSortKey(q)
    ensures p.layer == q.layer && p.policyId == q.policyId && p.version == q.version
  {
    assert SourceSortKey(p)[0] == Precedence(p.layer) && SourceSortKey(q)[0] == Precedence(q.layer);
    assert p.layer == q.layer;
    var n := 3 + |LayerName(p.layer)|;
    assert SourceSortKey(p)[n..] == p.policyId + (":" + p.version);
    assert SourceSortKey(q)[n..] == q.policyId + (":" + q.version);
    SplitAtColon(p.policyId, p.version, q.policyId, q.version);
  }

  ghost predicate DistinctSources(policies: seq<Source>) {
    && (forall i :: 0 <= i < |policies| ==> NoColon(policies[i].policyId))
    && (forall i, j :: 0 <= i < j < |policies| ==>
          !(policies[i].layer == policies[j].layer && policies[i].policyId == policies[j].policyId
              && policies[i].version == policies[j].version))
  }

  /**
   * Compiling any permutation of sources with distinct (layer, id, version) gives the same compiled policy, hash
   * included.
   */
  lemma CompileForgetsOrder(env: Env, a: seq<Source>, b: seq<Source>)
    requires multiset(a) == multiset(b) && DistinctSources(a)
    ensures CompilePolicySet(env, a) == CompilePolicySet(env, b)
  {
    forall x, y | x in a && y in a && SourceSortKey(x) == SourceSortKey(y) ensures x == y {
      SourceSortKeyInjective(x, y);
      var i :| 0 <= i < |a| && a[i] == x;
      var j :| 0 <= j < |a| && a[j] == y;
    }
    var lt := BySourceKey();
    forall x, y ensures !(lt(x, y) && lt(y, x)) { StringLessTrichotomy(SourceSortKey(x), SourceSortKey(y)); }
    forall x, y | x in Elements(a) && y in Elements(a) && x != y ensures lt(x, y) || lt(y, x) {
      StringLessTrichotomy(SourceSortKey(x), SourceSortKey(y));
    }
    forall x, y, z | lt(x, y) && lt(y, z) ensures lt(x, z) {
      StringLessTransitive(SourceSortKey(x), SourceSortKey(y), SourceSortKey(z));
    }
    SortByPermutation(lt, a, b);
  }

  /******** Evaluation ********/

  predicate OccursAt(haystack: string, needle: string, i: int) {
    0 <= i <= |haystack| - |needle| && haystack[i..i + |needle|] == needle
  }

  predicate Includes(haystack: string, needle: string) {
    exists i :: 0 <= i <= |haystack| && OccursAt(haystack, needle, i)
  }

  predicate IncludesText(env: Env, haystack: Option<string>, needles: Option<seq<string>>) {
    needles.None? || |needles.value| == 0 ||
    exists i :: 0 <= i < |needles.value| && Includes(env.lower(if haystack.Some? then haystack.value else ""),
        env.lower(needles.value[i]))
  }

  predicate Intersects<T(==)>(left: Option<seq<T>>, right: Option<seq<T>>) {
    right.None? || |right.value| == 0 ||
    (left.Some? && exists i :: 0 <= i < |right.value| && right.value[i] in left.value)
  }

  function Concat<T>(s: seq<seq<T>>): seq<T> {
    if |s| == 0 then [] else s[0] + Concat(s[1..])
  }

  predicate HasUnknownRisk(ctx: Context) {
    ctx.riskTags.Some? &&
    exists i :: 0 <= i < |ctx.riskTags.value| && ctx.riskTags.value[i] in ["unknown", "unknown_risk", "unclassified"]
  }

  predicate MatchesRule(env: Env, r: CompiledRule, ctx: Context) {
    var m := r.rule.when;
    && r.rule.phase == ctx.phase
    && IncludesText(env, ctx.requestText, m.textContainsAny)
    && IncludesText(env, ctx.outputText, m.outputContainsAny)
    && Intersects(ctx.riskTags, m.riskTagsAny)
    && Intersects(if ctx.memoryWrite.Some? then Some(ctx.memoryWrite.value.classificationTags)
        else None, m.memoryClassificationAny)
    && (m.memoryTierAny.Some? ==> ctx.memoryWrite.Some? && ctx.memoryWrite.value.tier in m.memoryTierAny.value)
    && (m.consentStateAny.Some? ==>
          (if ctx.consentState.Some? then ctx.consentState.value else Missing) in m.consentStateAny.value)
    && !(m.requiresConsent == Some(true) && ctx.consentState == Some(Granted))
    && (m.retrievalTaintAny.Some? ==>
          Intersects(Some(Concat(if ctx.retrievedTaints.Some? then ctx.retrievedTaints.value else [])),
              m.retrievalTaintAny))
    && (m.bodyDeclaredTenant.Some? ==> m.bodyDeclaredTenant.value == (ctx.bodyDeclaredTenant == Some(true)))
  }

  function Matching(env: Env, rules: seq<CompiledRule>, ctx: Context): seq<CompiledRule> {
    if |rules| == 0 then []
    else if MatchesRule(env, rules[0], ctx) then [rules[0]] + Matching(env, rules[1..], ctx)
    else Matching(env, rules[1..], ctx)
  }

  function Verdicts(rules: seq<CompiledRule>): seq<DecisionKind> {
    seq(|rules|, i requires 0 <= i < |rules| => rules[i].rule.decision)
  }

  function ChooseDecision(matches: seq<CompiledRule>, fallback: DecisionKind): DecisionKind {
    Strictest(fallback, Verdicts(matches))
  }

  function EvaluatePolicy(env: Env, policy: CompiledPolicy, ctx: Context): DecisionKind {
    var matches := Matching(env, policy.rules, ctx);
    var fallback := if |matches| > 0 then policy.defaultDecision
                    else if HasUnknownRisk(ctx) then policy.unknownRiskDecision else policy.defaultDecision;
    ChooseDecision(matches, fallback)
  }

  /******** Adding a policy ********/

  /** Some rule of the sources matches and decides `d`. */
  ghost predicate Fires(env: Env, policies: seq<Source>, ctx: Context, d: DecisionKind) {
    exists i, k :: 0 <= i < |policies| && 0 <= k < |policies[i].rules|
      && MatchesRule(env, CompileRule(policies[i], policies[i].rules[k]), ctx) && policies[i].rules[k].decision == d
  }

  ghost predicate SomeRuleMatches(env: Env, policies: seq<Source>, ctx: Context) {
    exists d :: Fires(env, policies, ctx, d)
  }

  lemma {:induction false} FlatRulesMembers(policies: seq<Source>, r: CompiledRule)
    ensures r in FlatRules(policies) <==>
            exists i, k :: 0 <= i < |policies| && 0 <= k < |policies[i].rules|
                && CompileRule(policies[i], policies[i].rules[k]) == r
  {
    if |policies| > 0 {
      var own := seq(|policies[0].rules|, i requires 0 <= i < |policies[0].rules| =>
        CompileRule(policies[0], policies[0].rules[i]));
      var rest := policies[1..];
      FlatRulesMembers(rest, r);
      assert r in FlatRules(policies) <==> r in own || r in FlatRules(rest);
      if r in own {
        var k :| 0 <= k < |own| && own[k] == r;
        assert CompileRule(policies[0], policies[0].rules[k]) == r;
      }
      if r in FlatRules(rest) {
        var i, k :| 0 <= i < |rest| && 0 <= k < |rest[i].rules| && CompileRule(rest[i], rest[i].rules[k]) == r;
        assert CompileRule(policies[i + 1], policies[i + 1].rules[k]) == r;
      }
      forall i, k | 0 <= i < |policies| && 0 <= k < |policies[i].rules|
          && CompileRule(policies[i], policies[i].rules[k]) == r
        ensures r in own || r in FlatRules(rest)
      {
        if i == 0 { assert own[k] == r; } else { assert rest[i - 1] == policies[i]; }
      }
    }
  }

  lemma {:induction false} MatchingMembers(env: Env, rules: seq<CompiledRule>, ctx: Context, r: CompiledRule)
    ensures r in Matching(env, rules, ctx) <==> r in rules && MatchesRule(env, r, ctx)
  {
    if |rules| > 0 {
      MatchingMembers(env, rules[1..], ctx, r);
      assert r in rules <==> r == rules[0] || r in rules[1..];
    }
  }

  lemma VerdictFires(env: Env, policies: seq<Source>, sorted: seq<Source>, rules: seq<CompiledRule>,
      ctx: Context, d: DecisionKind)
    requires (forall x :: x in sorted <==> x in policies) && forall x :: x in rules <==> x in FlatRules(sorted)
    requires d in Verdicts(Matching(env, rules, ctx))
    ensures Fires(env, policies, ctx, d)
  {
    hide MatchesRule, FlatRules, Matching;
    var matches := Matching(env, rules, ctx);
    var n :| 0 <= n < |matches| && Verdicts(matches)[n] == d;
    MatchingMembers(env, rules, ctx, matches[n]);
    FlatRulesMembers(sorted, matches[n]);
    var i, k :| 0 <= i < |sorted| && 0 <= k < |sorted[i].rules|
        && CompileRule(sorted[i], sorted[i].rules[k]) == matches[n];
    assert sorted[i] in policies;
    var j :| 0 <= j < |policies| && policies[j] == sorted[i];
    assert MatchesRule(env, CompileRule(policies[j], policies[j].rules[k]), ctx) && policies[j].rules[k].decision == d;
  }

  lemma FiringIsVerdict(env: Env, policies: seq<Source>, sorted: seq<Source>, rules: seq<CompiledRule>,
      ctx: Context, d: DecisionKind)
    requires (forall x :: x in sorted <==> x in policies) && forall x :: x in rules <==> x in FlatRules(sorted)
    requires Fires(env, policies, ctx, d)
    ensures d in Verdicts(Matching(env, rules, ctx))
  {
    hide MatchesRule, FlatRules, Matching;
    var matches := Matching(env, rules, ctx);
    var i, k :| 0 <= i < |policies| && 0 <= k < |policies[i].rules|
      && MatchesRule(env, CompileRule(policies[i], policies[i].rules[k]), ctx) && policies[i].rules[k].decision == d;
    var r := CompileRule(policies[i], policies[i].rules[k]);
    assert policies[i] in sorted;
    var j :| 0 <= j < |sorted| && sorted[j] == policies[i];
    assert CompileRule(sorted[j], sorted[j].rules[k]) == r;
    FlatRulesMembers(sorted, r);
    MatchingMembers(env, rules, ctx, r);
    var n :| 0 <= n < |matches| && matches[n] == r;
    assert Verdicts(matches)[n] == d;
  }

  /** The matched decisions of a compiled set are those its sources fire, in whatever order it was compiled. */
  lemma CompiledFires(env: Env, policies: seq<Source>, ctx: Context, d: DecisionKind)
    requires |policies| > 0
    ensures CompilePolicySet(env, policies).Some?
    ensures d in Verdicts(Matching(env, CompilePolicySet(env, policies).value.rules, ctx)) <==>
            Fires(env, policies, ctx, d)
  {
    hide MatchesRule, RuleSortKey, SourceSortKey, VersionText, MostRestrictiveDecision, SortBy, FlatRules,
      Matching, Verdicts, Fires;
    var sorted := SortBy(BySourceKey(), policies);
    SameMembers(sorted, policies);
    var rules := SortBy(ByRuleKey(), FlatRules(sorted));
    SameMembers(rules, FlatRules(sorted));
    if d in Verdicts(Matching(env, rules, ctx)) { VerdictFires(env, policies, sorted, rules, ctx, d); }
    if Fires(env, policies, ctx, d) { FiringIsVerdict(env, policies, sorted, rules, ctx, d); }
  }

  /** `d` is one of the values and none outranks it. */
  ghost predicate IsStrictestOf(d: DecisionKind, values: iset<DecisionKind>) {
    d in values && forall x :: x in values ==> Rank(x) <= Rank(d)
  }

  ghost function Field(policies: seq<Source>, unknown: bool): iset<DecisionKind> {
    iset i | 0 <= i < |policies| :: if unknown then policies[i].unknownRiskDecision else policies[i].defaultDecision
  }

  lemma CompiledField(env: Env, policies: seq<Source>)
    requires |policies| > 0
    ensures CompilePolicySet(env, policies).Some?
    ensures IsStrictestOf(CompilePolicySet(env, policies).value.defaultDecision, Field(policies, false))
    ensures IsStrictestOf(CompilePolicySet(env, policies).value.unknownRiskDecision, Field(policies, true))
  {
    hide RuleSortKey, SourceSortKey, VersionText, FlatRules;
    var sorted := SortBy(BySourceKey(), policies);
    SameMembers(sorted, policies);
    StrictestOfField(sorted, policies, Defaults(sorted), false);
    StrictestOfField(sorted, policies, UnknownRisks(sorted), true);
  }

  lemma StrictestOfField(sorted: seq<Source>, policies: seq<Source>, values: seq<DecisionKind>, unknown: bool)
    requires |sorted| == |policies| == |values| > 0 && forall x :: x in sorted <==> x in policies
    requires forall i :: 0 <= i < |values| ==> values[i] == if unknown then sorted[i].unknownRiskDecision
             else sorted[i].defaultDecision
    ensures IsStrictestOf(MostRestrictiveDecision(values), Field(policies, unknown))
  {
    var d := MostRestrictiveDecision(values);
    assert values == [values[0]] + values[1..];
    assert d in values;
    var n :| 0 <= n < |values| && values[n] == d;
    assert sorted[n] in policies;
    var m :| 0 <= m < |policies| && policies[m] == sorted[n];
    assert d in Field(policies, unknown);
    forall x | x in Field(policies, unknown) ensures Rank(x) <= Rank(d) {
      var i :| 0 <= i < |policies| && x == if unknown then policies[i].unknownRiskDecision
          else policies[i].defaultDecision;
      assert policies[i] in sorted;
      var j :| 0 <= j < |sorted| && sorted[j] == policies[i];
      assert values[j] == x && x in values;
    }
  }

  /** The values among which a decision is chosen, in terms of the sources. */
  ghost function Candidates(env: Env, policies: seq<Source>, ctx: Context): iset<DecisionKind> {
    if SomeRuleMatches(env, policies, ctx) then (iset d | Fires(env, policies, ctx, d)) + Field(policies, false)
    else Field(policies, HasUnknownRisk(ctx))
  }

  /** Evaluation picks the most restrictive candidate. */
  lemma DecisionIsStrictestCandidate(env: Env, policies: seq<Source>, ctx: Context)
    requires |policies| > 0
    ensures CompilePolicySet(env, policies).Some?
    ensures IsStrictestOf(EvaluatePolicy(env, CompilePolicySet(env, policies).value, ctx),
            Candidates(env, policies, ctx))
  {
    hide CompilePolicySet, Field, MatchesRule, HasUnknownRisk, Matching, Fires;
    CompiledField(env, policies);
    var c := CompilePolicySet(env, policies).value;
    var matches := Matching(env, c.rules, ctx);
    forall d ensures d in Verdicts(matches) <==> Fires(env, policies, ctx, d) { CompiledFires(env, policies, ctx, d); }
    if |matches| > 0 {
      assert Verdicts(matches)[0] in Verdicts(matches);
    } else {
      assert Verdicts(matches) == [];
    }
  }

  /**
   * When adding `p` relaxes a decision: the context carries an unknown-risk tag, nothing matched
   * before, a rule of `p` matches now, and every value then in play ranks below the old
   * unknown-risk decision.
   */
  ghost predicate Relaxes(env: Env, policies: seq<Source>, p: Source, ctx: Context) {
    && HasUnknownRisk(ctx) && !SomeRuleMatches(env, policies, ctx) && SomeRuleMatches(env, [p], ctx)
    && exists u :: IsStrictestOf(u, Field(policies, true))
         && (forall d :: d in Field(policies + [p], false) || Fires(env, [p], ctx, d) ==> Rank(d) < Rank(u))
  }

  lemma FiresAppend(env: Env, policies: seq<Source>, p: Source, ctx: Context, d: DecisionKind)
    ensures Fires(env, policies + [p], ctx, d) <==> Fires(env, policies, ctx, d) || Fires(env, [p], ctx, d)
  {
    hide MatchesRule;
    var longer := policies + [p];
    if Fires(env, policies, ctx, d) {
      var i, k :| 0 <= i < |policies| && 0 <= k < |policies[i].rules|
        && MatchesRule(env, CompileRule(policies[i], policies[i].rules[k]), ctx) && policies[i].rules[k].decision == d;
      assert longer[i] == policies[i];
    }
    if Fires(env, [p], ctx, d) {
      var i, k :| 0 <= i < |[p]| && 0 <= k < |[p][i].rules|
        && MatchesRule(env, CompileRule([p][i], [p][i].rules[k]), ctx) && [p][i].rules[k].decision == d;
      assert longer[|policies|] == p;
    }
    if Fires(env, longer, ctx, d) {
      var i, k :| 0 <= i < |longer| && 0 <= k < |longer[i].rules|
        && MatchesRule(env, CompileRule(longer[i], longer[i].rules[k]), ctx) && longer[i].rules[k].decision == d;
      if i < |policies| { assert longer[i] == policies[i]; } else { assert longer[i] == [p][0]; }
    }
  }

  /** Adding a policy lowers the restrictiveness of a decision exactly in the relaxing case. */
  lemma AddingPolicyRelaxesIff(env: Env, policies: seq<Source>, p: Source, ctx: Context)
    requires |policies| > 0
    ensures CompilePolicySet(env, policies).Some? && CompilePolicySet(env, policies + [p]).Some?
    ensures Rank(EvaluatePolicy(env, CompilePolicySet(env, policies + [p]).value, ctx)) <
            Rank(EvaluatePolicy(env, CompilePolicySet(env, policies).value, ctx))
            <==> Relaxes(env, policies, p, ctx)
  {
    hide CompilePolicySet, EvaluatePolicy, MatchesRule, HasUnknownRisk, Fires, Field;
    DecisionIsStrictestCandidate(env, policies, ctx);
    DecisionIsStrictestCandidate(env, policies + [p], ctx);
    forall d ensures Fires(env, policies + [p], ctx, d) <==> Fires(env, policies, ctx, d) || Fires(env, [p], ctx, d) {
      FiresAppend(env, policies, p, ctx, d);
    }
    FieldGrows(policies, p, true);
    FieldGrows(policies, p, false);
  }

  lemma FieldGrows(policies: seq<Source>, p: Source, unknown: bool)
    ensures Field(policies, unknown) <= Field(policies + [p], unknown)
  {
    forall d | d in Field(policies, unknown) ensures d in Field(policies + [p], unknown) {
      var i :| 0 <= i < |policies| && d == if unknown then policies[i].unknownRiskDecision
          else policies[i].defaultDecision;
      assert (policies + [p])[i] == policies[i];
    }
  }

  const CAUTIOUS := Source("base", "1", Default, ALLOW, REFUSE, [])

  const MATCH_ALL := RuleMatch(None, None, None, None, None, None, None, None, None)

  const PERMISSIVE := Source("open", "1", User, ALLOW, REQUIRE_CONSENT,
      [Rule("any", None, PreModel, ALLOW, [], MATCH_ALL)])

  const UNKNOWN_RISK := Context(PreModel, None, None, Some(["unknown"]), None, None, None, None)

  lemma PermissiveFires(env: Env)
    ensures HasUnknownRisk(UNKNOWN_RISK)
    ensures forall d :: Fires(env, [PERMISSIVE], UNKNOWN_RISK, d) <==> d == ALLOW
    ensures forall d :: !Fires(env, [CAUTIOUS], UNKNOWN_RISK, d)
  {
    assert UNKNOWN_RISK.riskTags.value[0] in ["unknown", "unknown_risk", "unclassified"];
    assert MatchesRule(env, CompileRule([PERMISSIVE][0], [PERMISSIVE][0].rules[0]), UNKNOWN_RISK);
    assert Fires(env, [PERMISSIVE], UNKNOWN_RISK, ALLOW);
  }

  lemma ExampleFields()
    ensures forall d :: d in Field([CAUTIOUS], true) <==> d == REFUSE
    ensures forall d :: d in Field([CAUTIOUS] + [PERMISSIVE], false) <==> d == ALLOW
  {
    assert [CAUTIOUS][0].unknownRiskDecision in Field([CAUTIOUS], true);
    assert ([CAUTIOUS] + [PERMISSIVE])[0].defaultDecision in Field([CAUTIOUS] + [PERMISSIVE], false);
  }

  /** The relaxing case occurs: a permissive rule that matches replaces an unknown-risk refusal by ALLOW. */
  lemma RelaxingExample(env: Env)
    ensures CompilePolicySet(env, [CAUTIOUS]).Some? && CompilePolicySet(env, [CAUTIOUS] + [PERMISSIVE]).Some?
    ensures EvaluatePolicy(env, CompilePolicySet(env, [CAUTIOUS]).value, UNKNOWN_RISK) == REFUSE
    ensures EvaluatePolicy(env, CompilePolicySet(env, [CAUTIOUS] + [PERMISSIVE]).value, UNKNOWN_RISK) == ALLOW
    ensures Relaxes(env, [CAUTIOUS], PERMISSIVE, UNKNOWN_RISK)
  {
    hide CompilePolicySet, EvaluatePolicy, MatchesRule, HasUnknownRisk, Fires, Field;
    PermissiveFires(env);
    ExampleFields();
    DecisionIsStrictestCandidate(env, [CAUTIOUS], UNKNOWN_RISK);
    DecisionIsStrictestCandidate(env, [CAUTIOUS] + [PERMISSIVE], UNKNOWN_RISK);
    forall d ensures Fires(env, [CAUTIOUS] + [PERMISSIVE], UNKNOWN_RISK, d) <==> d == ALLOW {
      FiresAppend(env, [CAUTIOUS], PERMISSIVE, UNKNOWN_RISK, d);
    }
    assert Fires(env, [CAUTIOUS] + [PERMISSIVE], UNKNOWN_RISK, ALLOW);
    assert Candidates(env, [CAUTIOUS], UNKNOWN_RISK) == Field([CAUTIOUS], true);
    AddingPolicyRelaxesIff(env, [CAUTIOUS], PERMISSIVE, UNKNOWN_RISK);
  }

  /******** What each match field asks for ********/

  /** The lower-case word stands somewhere in the lower-case text; an absent text is empty. */
  ghost predicate Mentions(env: Env, text: Option<string>, word: string) {
    exists before: string, behind: string ::
      env.lower(if text.Some? then text.value else "") == before + env.lower(word) + behind
  }

  /** No words are asked for, or one of them is mentioned. */
  ghost predicate MentionsAny(env: Env, text: Option<string>, words: seq<string>) {
    words == [] || exists w :: w in words && Mentions(env, text, w)
  }

  ghost predicate SharesAny<T>(held: Option<seq<T>>, wanted: seq<T>) {
    wanted == [] || exists x :: x in wanted && held.Some? && x in held.value
  }

  /** One of the wanted taints is on one of the retrieved contexts. */
  ghost predicate TaintedBy(ctx: Context, wanted: seq<Taint>) {
    wanted == [] ||
    exists t, k :: t in wanted && ctx.retrievedTaints.Some? && 0 <= k < |ctx.retrievedTaints.value|
                   && t in ctx.retrievedTaints.value[k]
  }

  ghost function MemoryTags(ctx: Context): Option<seq<string>> {
    if ctx.memoryWrite.Some? then Some(ctx.memoryWrite.value.classificationTags) else None
  }

  ghost predicate ConsentIn(ctx: Context, states: seq<ConsentState>) {
    (ctx.consentState.Some? && ctx.consentState.value in states) || (ctx.consentState.None? && Missing in states)
  }

  /** The context carries one of the three tags that stand for unknown risk. */
  ghost predicate RiskUnknown(ctx: Context) {
    ctx.riskTags.Some? &&
    ("unknown" in ctx.riskTags.value || "unknown_risk" in ctx.riskTags.value || "unclassified" in ctx.riskTags.value)
  }

  lemma OccursIff(haystack: string, needle: string)
    ensures Includes(haystack, needle) <==> exists a: string, b: string :: haystack == a + needle + b
  {
    if Includes(haystack, needle) {
      var i :| 0 <= i <= |haystack| && OccursAt(haystack, needle, i);
      assert haystack == haystack[..i] + needle + haystack[i + |needle|..];
    }
    if a: string, b: string :| haystack == a + needle + b {
      assert haystack[|a|..|a| + |needle|] == needle;
      assert OccursAt(haystack, needle, |a|);
    }
  }

  lemma IncludesTextIff(env: Env, text: Option<string>, words: seq<string>)
    ensures IncludesText(env, text, Some(words)) <==> MentionsAny(env, text, words)
  {
    hide Includes;
    var t := env.lower(if text.Some? then text.value else "");
    forall w | w in words ensures Includes(t, env.lower(w)) <==> Mentions(env, text, w) { OccursIff(t, env.lower(w)); }
    if IncludesText(env, text, Some(words)) && words != [] {
      var i :| 0 <= i < |words| && Includes(t, env.lower(words[i]));
      assert words[i] in words;
    }
  }

  lemma IntersectsIff<T>(held: Option<seq<T>>, wanted: seq<T>)
    ensures Intersects(held, Some(wanted)) <==> SharesAny(held, wanted)
  {
    if Intersects(held, Some(wanted)) && wanted != [] {
      var i :| held.Some? && 0 <= i < |wanted| && wanted[i] in held.value;
      assert wanted[i] in wanted;
    }
  }

  lemma {:induction false} ConcatMembers<T>(lists: seq<seq<T>>, x: T)
    ensures x in Concat(lists) <==> exists k :: 0 <= k < |lists| && x in lists[k]
  {
    if |lists| > 0 {
      ConcatMembers(lists[1..], x);
      if x in Concat(lists[1..]) {
        var k :| 0 <= k < |lists[1..]| && x in lists[1..][k];
        assert lists[k + 1] == lists[1..][k];
      }
      if k :| 0 <= k < |lists| && x in lists[k] {
        assert k > 0 ==> lists[1..][k - 1] == lists[k];
      }
    }
  }

  lemma TaintsIff(ctx: Context, wanted: seq<Taint>)
    ensures Intersects(Some(Concat(if ctx.retrievedTaints.Some? then ctx.retrievedTaints.value else [])), Some(wanted))
            <==> TaintedBy(ctx, wanted)
  {
    hide Concat;
    var lists := if ctx.retrievedTaints.Some? then ctx.retrievedTaints.value else [];
    IntersectsIff(Some(Concat(lists)), wanted);
    forall t ensures t in Concat(lists) <==> exists k :: 0 <= k < |lists| && t in lists[k] { ConcatMembers(lists, t); }
  }

  lemma RiskUnknownIff(ctx: Context)
    ensures HasUnknownRisk(ctx) <==> RiskUnknown(ctx)
  {
    if RiskUnknown(ctx) {
      var tags := ctx.riskTags.value;
      var tag := if "unknown" in tags then "unknown" else if "unknown_risk" in tags then "unknown_risk"
          else "unclassified";
      var i :| 0 <= i < |tags| && tags[i] == tag;
      assert tags[i] in ["unknown", "unknown_risk", "unclassified"];
    }
  }

  /** Would the rule fire if it asked for no more than this? */
  predicate FiresWith(env: Env, r: CompiledRule, ctx: Context, when: RuleMatch) {
    MatchesRule(env, r.(rule := r.rule.(when := when)), ctx)
  }

  /** A rule fires exactly when its phase agrees and each of its one-field restrictions fires. */
  lemma RuleFiresFieldByField(env: Env, r: CompiledRule, ctx: Context)
    ensures var m := r.rule.when;
            MatchesRule(env, r, ctx) <==>
            && r.rule.phase == ctx.phase
            && FiresWith(env, r, ctx, MATCH_ALL.(textContainsAny := m.textContainsAny))
            && FiresWith(env, r, ctx, MATCH_ALL.(outputContainsAny := m.outputContainsAny))
            && FiresWith(env, r, ctx, MATCH_ALL.(riskTagsAny := m.riskTagsAny))
            && FiresWith(env, r, ctx, MATCH_ALL.(retrievalTaintAny := m.retrievalTaintAny))
            && FiresWith(env, r, ctx, MATCH_ALL.(memoryTierAny := m.memoryTierAny))
            && FiresWith(env, r, ctx, MATCH_ALL.(memoryClassificationAny := m.memoryClassificationAny))
            && FiresWith(env, r, ctx, MATCH_ALL.(consentStateAny := m.consentStateAny))
            && FiresWith(env, r, ctx, MATCH_ALL.(requiresConsent := m.requiresConsent))
            && FiresWith(env, r, ctx, MATCH_ALL.(bodyDeclaredTenant := m.bodyDeclaredTenant))
  {
    hide IncludesText, Intersects, Concat;
    NothingAsked(env, ctx);
  }

  lemma NothingAsked(env: Env, ctx: Context)
    ensures IncludesText(env, ctx.requestText, None) && IncludesText(env, ctx.outputText, None)
    ensures Intersects(ctx.riskTags, None)
    ensures forall tags: Option<seq<string>> :: Intersects(tags, None)
  {
  }

  /**
   * The verdict of a policy's only rule takes part, or does not: with it the decision is the stricter of the verdict
   * and
   * the default, without it the policy's answer to unknown risk or its default.
   */
  ghost predicate VerdictTakesPart(env: Env, p: Source, ctx: Context, applies: bool)
    requires |p.rules| == 1
  {
    var verdict := p.rules[0].decision;
    CompilePolicySet(env, [p]).Some? &&
    var d := EvaluatePolicy(env, CompilePolicySet(env, [p]).value, ctx);
    && (applies ==> d in {verdict, p.defaultDecision} && Rank(d) >= Rank(verdict) && Rank(d) >= Rank(p.defaultDecision))
    && (!applies && RiskUnknown(ctx) ==> d == p.unknownRiskDecision)
    && (!applies && !RiskUnknown(ctx) ==> d == p.defaultDecision)
  }

  lemma OneRuleFires(env: Env, p: Source, ctx: Context, d: DecisionKind)
    requires |p.rules| == 1
    ensures Fires(env, [p], ctx, d) <==> MatchesRule(env, CompileRule(p, p.rules[0]), ctx) && d == p.rules[0].decision
  {
    hide MatchesRule;
    assert [p][0] == p;
  }

  lemma OneField(p: Source, unknown: bool, d: DecisionKind)
    ensures d in Field([p], unknown) <==> d == if unknown then p.unknownRiskDecision else p.defaultDecision
  {
    assert [p][0] == p;
  }

  lemma OneRuleDecides(env: Env, p: Source, ctx: Context)
    requires |p.rules| == 1
    ensures VerdictTakesPart(env, p, ctx, MatchesRule(env, CompileRule(p, p.rules[0]), ctx))
  {
    hide CompilePolicySet, EvaluatePolicy, MatchesRule, HasUnknownRisk, Fires, Field, Rank;
    DecisionIsStrictestCandidate(env, [p], ctx);
    RiskUnknownIff(ctx);
    var verdict := p.rules[0].decision;
    var matches := MatchesRule(env, CompileRule(p, p.rules[0]), ctx);
    forall d ensures Fires(env, [p], ctx, d) <==> (matches && d == verdict) { OneRuleFires(env, p, ctx, d); }
    forall d ensures d in Field([p], true) <==> d == p.unknownRiskDecision { OneField(p, true, d); }
    forall d ensures d in Field([p], false) <==> d == p.defaultDecision { OneField(p, false, d); }
    assert matches ==> Fires(env, [p], ctx, verdict);
    var values := Candidates(env, [p], ctx);
    assert matches ==> verdict in values && p.defaultDecision in values;
  }

  /** A rule on the request text takes part when one of its words is in the request, whatever the case. */
  lemma RequestTextField(env: Env, p: Source, ctx: Context, words: seq<string>)
    requires |p.rules| == 1 && p.rules[0].when == MATCH_ALL.(textContainsAny := Some(words))
    ensures VerdictTakesPart(env, p, ctx, p.rules[0].phase == ctx.phase && MentionsAny(env, ctx.requestText, words))
  {
    hide VerdictTakesPart, IncludesText, Intersects, Concat;
    OneRuleDecides(env, p, ctx);
    NothingAsked(env, ctx);
    IncludesTextIff(env, ctx.requestText, words);
  }

  /** A rule on the output text takes part when one of its words is in the output, whatever the case. */
  lemma OutputTextField(env: Env, p: Source, ctx: Context, words: seq<string>)
    requires |p.rules| == 1 && p.rules[0].when == MATCH_ALL.(outputContainsAny := Some(words))
    ensures VerdictTakesPart(env, p, ctx, p.rules[0].phase == ctx.phase && MentionsAny(env, ctx.outputText, words))
  {
    hide VerdictTakesPart, IncludesText, Intersects, Concat;
    OneRuleDecides(env, p, ctx);
    NothingAsked(env, ctx);
    IncludesTextIff(env, ctx.outputText, words);
  }

  /** A rule on risk tags takes part when the context carries one of them. */
  lemma RiskTagsField(env: Env, p: Source, ctx: Context, tags: seq<string>)
    requires |p.rules| == 1 && p.rules[0].when == MATCH_ALL.(riskTagsAny := Some(tags))
    ensures VerdictTakesPart(env, p, ctx, p.rules[0].phase == ctx.phase && SharesAny(ctx.riskTags, tags))
  {
    hide VerdictTakesPart, IncludesText, Intersects, Concat;
    OneRuleDecides(env, p, ctx);
    NothingAsked(env, ctx);
    IntersectsIff(ctx.riskTags, tags);
  }

  /** A rule on taints takes part when one of the retrieved contexts carries one of them. */
  lemma RetrievalTaintField(env: Env, p: Source, ctx: Context, taints: seq<Taint>)
    requires |p.rules| == 1 && p.rules[0].when == MATCH_ALL.(retrievalTaintAny := Some(taints))
    ensures VerdictTakesPart(env, p, ctx, p.rules[0].phase == ctx.phase && TaintedBy(ctx, taints))
  {
    hide VerdictTakesPart, IncludesText, Intersects, Concat;
    OneRuleDecides(env, p, ctx);
    NothingAsked(env, ctx);
    TaintsIff(ctx, taints);
  }

  /** A rule on memory tiers takes part when a memory write to one of them is asked for. */
  lemma MemoryTierField(env: Env, p: Source, ctx: Context, tiers: seq<Tier>)
    requires |p.rules| == 1 && p.rules[0].when == MATCH_ALL.(memoryTierAny := Some(tiers))
    ensures VerdictTakesPart(env, p, ctx, p.rules[0].phase == ctx.phase
            && ctx.memoryWrite.Some? && ctx.memoryWrite.value.tier in tiers)
  {
    hide VerdictTakesPart, IncludesText, Intersects, Concat;
    OneRuleDecides(env, p, ctx);
    NothingAsked(env, ctx);
  }

  /** A rule on memory tags takes part when the memory write carries one of them. */
  lemma MemoryClassificationField(env: Env, p: Source, ctx: Context, tags: seq<string>)
    requires |p.rules| == 1 && p.rules[0].when == MATCH_ALL.(memoryClassificationAny := Some(tags))
    ensures VerdictTakesPart(env, p, ctx, p.rules[0].phase == ctx.phase && SharesAny(MemoryTags(ctx), tags))
  {
    hide VerdictTakesPart, IncludesText, Intersects, Concat;
    OneRuleDecides(env, p, ctx);
    NothingAsked(env, ctx);
    IntersectsIff(MemoryTags(ctx), tags);
  }

  /** A rule on consent states takes part when the consent is one of them, an unset consent counting as missing. */
  lemma ConsentStateField(env: Env, p: Source, ctx: Context, states: seq<ConsentState>)
    requires |p.rules| == 1 && p.rules[0].when == MATCH_ALL.(consentStateAny := Some(states))
    ensures VerdictTakesPart(env, p, ctx, p.rules[0].phase == ctx.phase && ConsentIn(ctx, states))
  {
    hide VerdictTakesPart, IncludesText, Intersects, Concat;
    OneRuleDecides(env, p, ctx);
    NothingAsked(env, ctx);
  }

  /** A rule that requires consent takes part when consent was not granted; one that does not require it always does. */
  lemma RequiresConsentField(env: Env, p: Source, ctx: Context, required: bool)
    requires |p.rules| == 1 && p.rules[0].when == MATCH_ALL.(requiresConsent := Some(required))
    ensures VerdictTakesPart(env, p, ctx, p.rules[0].phase == ctx.phase
            && (!required || ctx.consentState != Some(Granted)))
  {
    hide VerdictTakesPart, IncludesText, Intersects, Concat;
    OneRuleDecides(env, p, ctx);
    NothingAsked(env, ctx);
  }

  /** A rule on a tenant declared in the body takes part when the context declares one, or declares none. */
  lemma BodyDeclaredTenantField(env: Env, p: Source, ctx: Context, declared: bool)
    requires |p.rules| == 1 && p.rules[0].when == MATCH_ALL.(bodyDeclaredTenant := Some(declared))
    ensures VerdictTakesPart(env, p, ctx, p.rules[0].phase == ctx.phase
            && (if declared then ctx.bodyDeclaredTenant == Some(true) else ctx.bodyDeclaredTenant != Some(true)))
  {
    hide VerdictTakesPart, IncludesText, Intersects, Concat;
    OneRuleDecides(env, p, ctx);
    NothingAsked(env, ctx);
  }

  /******** The order of strictness ********/

  /** From the least to the most restrictive. */
  const STRICTNESS := [ALLOW, RECEIPT_ONLY, MODIFY, REDACT, REQUIRE_CONSENT, MEMORY_SUPPRESS, ESCALATE, HUMAN_REVIEW,
                       REFUSE, SILENCE]

  /** Of a default and the verdict of a rule that asks for nothing, the one further on in the list is decided. */
  lemma StricterIsFurtherOn(env: Env, p: Source, ctx: Context, i: nat, j: nat)
    requires |p.rules| == 1 && p.rules[0].when == MATCH_ALL && p.rules[0].phase == ctx.phase
    requires i < |STRICTNESS| && j < |STRICTNESS|
    requires p.defaultDecision == STRICTNESS[i] && p.rules[0].decision == STRICTNESS[j]
    ensures CompilePolicySet(env, [p]).Some?
    ensures EvaluatePolicy(env, CompilePolicySet(env, [p]).value, ctx) == STRICTNESS[if i < j then j else i]
  {
    hide CompilePolicySet, EvaluatePolicy, IncludesText, Intersects, Concat;
    OneRuleDecides(env, p, ctx);
    NothingAsked(env, ctx);
    RanksAreIndices();
  }

  lemma RanksAreIndices()
    ensures forall i, j :: 0 <= i < j < |STRICTNESS| ==> Rank(STRICTNESS[i]) < Rank(STRICTNESS[j])
    ensures forall d: DecisionKind :: d in STRICTNESS
  {
    assert STRICTNESS[..] == STRICTNESS;
    forall d: DecisionKind ensures d in STRICTNESS { assert STRICTNESS[Rank(d)] == d; }
  }
}
