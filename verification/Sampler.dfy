/** Rejection sampling of a uniform index from pairs of 32-bit generator outputs. */
module Sampler {
  import opened Prelude
  import Exact = ExactNumbers

  const SPACE: nat := 0x20_0000_0000_0000        // 2^53
  const HIGH_SPACE: nat := 0x400_0000            // 2^26
  const LOW_SPACE: nat := 0x800_0000             // 2^27
  const OUTPUT_SPACE: nat := 0x1_0000_0000       // 2^32

  /** A generator output is u / 2^32 for a 32-bit u; both products below are exact in binary64. */
  type Output = u: nat | u < OUTPUT_SPACE

  function High(u: Output): nat { u * HIGH_SPACE / OUTPUT_SPACE }

  function Low(u: Output): nat { u * LOW_SPACE / OUTPUT_SPACE }

  function Draw(high: nat, low: nat): nat { high * LOW_SPACE + low }

  predicate ValidBound(bound: int) { 0 < bound <= MAX_SAFE_INTEGER }

  /** The largest multiple of the bound that fits the space. */
  function Limit(bound: int): nat
    requires ValidBound(bound)
  {
    SPACE / bound * bound
  }

  /** A draw is its high half times 2^27 and its low half; the halves are the top 26 and 27 bits of the two outputs. */
  lemma DrawIsItsHalves(pair: (Output, Output))
    ensures DrawOf(pair) / 134217728 == pair.0 / 64 && DrawOf(pair) % 134217728 == pair.1 / 32
    ensures 0 <= DrawOf(pair) < 9007199254740992
  {
    HalvesOf(pair.0, pair.1);
  }

  lemma HalvesOf(u: Output, v: Output)
    ensures High(u) == u / 64 && High(u) < 67108864 && Low(v) == v / 32 && Low(v) < 134217728
  {
  }

  /**
   * The double quotient is rounded before it is floored, and the product may be rounded too. Whatever double is nearest
   * to the quotient, its floor times the bound is the limit, and that product is itself a double.
   */
  lemma LimitSurvivesRounding(bound: int, quotient: Exact.Bits)
    requires ValidBound(bound) && Exact.Nearest(quotient, SPACE as real / bound as real)
    ensures Exact.DoubleValue(quotient).Floor * bound == Limit(bound)
    ensures exists product: Exact.Bits :: Exact.Finite(product) && Exact.DoubleValue(product) == Limit(bound) as real
  {
    hide Exact.DoubleValue, Exact.Finite, Exact.Nearest;
    Exact.RoundedQuotientFloors(bound, quotient);
    Exact.QuotientPositive(SPACE, bound);
    var product := Exact.IntegersTo53AreDoubles(Limit(bound));
  }

  /** The draw a pair of outputs gives. */
  function DrawOf(pair: (Output, Output)): nat { Draw(High(pair.0), Low(pair.1)) }

  datatype Sample = Sampled(index: nat, used: nat) | Exhausted | BadBound

  /** `uniformBelow` over a finite supply of outputs: the residue of the first accepted draw. */
  method UniformBelow(supply: seq<(Output, Output)>, bound: int) returns (s: Sample)
    ensures s.BadBound? <==> !(0 < bound <= 9007199254740991)
    ensures s.Sampled? ==> s.index < bound && 0 < s.used <= |supply|
    ensures s.Sampled? ==> DrawOf(supply[s.used - 1]) < 9007199254740992 / bound * bound
    ensures s.Sampled? ==> DrawOf(supply[s.used - 1]) < Limit(bound) && s.index == DrawOf(supply[s.used - 1]) % bound
    ensures s.Sampled? ==> forall i :: 0 <= i < s.used - 1 ==> Limit(bound) <= DrawOf(supply[i])
    ensures s.Exhausted? ==> forall i :: 0 <= i < |supply| ==> Limit(bound) <= DrawOf(supply[i])
  {
    if !ValidBound(bound) {
      return BadBound;
    }
    var limit := SPACE / bound * bound;
    for i := 0 to |supply|
      invariant forall j :: 0 <= j < i ==> limit <= DrawOf(supply[j])
    {
      var high, low := High(supply[i].0), Low(supply[i].1);
      var draw := high * LOW_SPACE + low;
      if draw < limit {
        return Sampled(draw % bound, i + 1);
      }
    }
    s := Exhausted;
  }

  /** The residues of all accepted draws of a supply, in order. */
  ghost function Residues(supply: seq<(Output, Output)>, bound: int): seq<nat>
    requires ValidBound(bound)
  {
    if |supply| == 0 then []
    else if DrawOf(supply[0]) < Limit(bound) then [DrawOf(supply[0]) % bound] + Residues(supply[1..], bound)
    else Residues(supply[1..], bound)
  }

  lemma {:induction false} RejectedLeaveNothing(supply: seq<(Output, Output)>, bound: int, n: nat)
    requires ValidBound(bound) && n <= |supply|
    requires forall i :: 0 <= i < n ==> Limit(bound) <= DrawOf(supply[i])
    ensures Residues(supply, bound) == Residues(supply[n..], bound)
  {
    hide Limit, DrawOf;
    if n == 0 {
      assert supply[0..] == supply;
    } else {
      RejectedLeaveNothing(supply[1..], bound, n - 1);
      assert supply[1..][n - 1..] == supply[n..];
    }
  }

  lemma FirstAccepted(supply: seq<(Output, Output)>, bound: int, used: nat)
    requires ValidBound(bound) && 0 < used <= |supply| && DrawOf(supply[used - 1]) < Limit(bound)
    requires forall i :: 0 <= i < used - 1 ==> Limit(bound) <= DrawOf(supply[i])
    ensures Residues(supply, bound) == [DrawOf(supply[used - 1]) % bound] + Residues(supply[used..], bound)
  {
    hide Limit, DrawOf;
    RejectedLeaveNothing(supply, bound, used - 1);
    assert supply[used - 1..][0] == supply[used - 1] && supply[used - 1..][1..] == supply[used..];
  }

  lemma NoneAccepted(supply: seq<(Output, Output)>, bound: int)
    requires ValidBound(bound) && forall i :: 0 <= i < |supply| ==> Limit(bound) <= DrawOf(supply[i])
    ensures Residues(supply, bound) == []
  {
    hide Limit, DrawOf;
    RejectedLeaveNothing(supply, bound, |supply|);
  }

  /**
   * Drawing `count` indices yields the first `count` accepted residues of the supply, neither skipping nor repeating
   * any.
   */
  method DrawIndices(supply: seq<(Output, Output)>, count: nat, bound: int) returns (indices: seq<nat>, ok: bool)
    ensures ok && count > 0 ==> ValidBound(bound)
    ensures ValidBound(bound) ==> (ok <==> count <= |Residues(supply, bound)|)
    ensures ValidBound(bound) && ok ==> indices == Residues(supply, bound)[..count]
  {
    hide Limit, DrawOf, Residues;
    indices, ok := [], true;
    var rest := supply;
    for drawn := 0 to count
      invariant |indices| == drawn && (drawn > 0 ==> ValidBound(bound))
      invariant ValidBound(bound) ==> Residues(supply, bound) == indices + Residues(rest, bound)
    {
      var s := UniformBelow(rest, bound);
      if !s.Sampled? {
        if ValidBound(bound) {
          NoneAccepted(rest, bound);
        }
        return indices, false;
      }
      FirstAccepted(rest, bound, s.used);
      indices := indices + [s.index];
      rest := rest[s.used..];
    }
  }

  /** The pairs of halves that are accepted and leave residue `r`. */
  ghost function AcceptedPairs(bound: int, r: nat): set<(nat, nat)>
    requires ValidBound(bound)
  {
    set high, low | 0 <= high < HIGH_SPACE && 0 <= low < LOW_SPACE && Draw(high, low) < Limit(bound)
        && Draw(high, low) % bound == r
      :: (high, low)
  }

  ghost function Accepted(bound: int): set<(nat, nat)>
    requires ValidBound(bound)
  {
    set high, low | 0 <= high < HIGH_SPACE && 0 <= low < LOW_SPACE && Draw(high, low) < Limit(bound) :: (high, low)
  }

  function Halves(draw: nat): (nat, nat) { (draw / LOW_SPACE, draw % LOW_SPACE) }

  /** Below 2^53, draws and pairs of halves correspond one to one. */
  lemma HalvesAreDraws(draw: nat, high: nat, low: nat)
    requires draw < SPACE && low < LOW_SPACE
    ensures Halves(draw) == (high, low) <==> Draw(high, low) == draw
    ensures Halves(draw).0 < HIGH_SPACE
  {
  }

  ghost function Image(n: nat, f: nat -> (nat, nat)): set<(nat, nat)> {
    set i: nat | i < n :: f(i)
  }

  lemma EmptyImage(f: nat -> (nat, nat))
    ensures Image(0, f) == {}
  {
  }

  lemma ImageStep(n: nat, f: nat -> (nat, nat))
    requires n > 0 && forall i: nat, j: nat :: i < j < n ==> f(i) != f(j)
    ensures Image(n, f) == Image(n - 1, f) + {f(n - 1)} && f(n - 1) !in Image(n - 1, f)
  {
  }

  /** The image of 0..n under an injective function has n elements. */
  lemma {:induction false} ImageSize(n: nat, f: nat -> (nat, nat))
    requires forall i: nat, j: nat :: i < j < n ==> f(i) != f(j)
    ensures |Image(n, f)| == n
  {
    hide Image;
    if n == 0 {
      EmptyImage(f);
    } else {
      ImageSize(n - 1, f);
      ImageStep(n, f);
    }
  }

  lemma LimitBounds(bound: int)
    requires ValidBound(bound)
    ensures Limit(bound) <= SPACE < 2 * Limit(bound)
  {
    var k := SPACE / bound;
    assert SPACE == k * bound + SPACE % bound;
    assert k >= 1;
    assert bound <= k * bound;
  }

  lemma MulStrict(a: int, b: int, c: int)
    requires a < b && 0 < c
    ensures a * c + c <= b * c
  {
    calc {
      b * c;
      (a + (b - a)) * c;
      a * c + (b - a) * c;
    }
    MulAtLeast(b - a, c);
  }

  lemma MulAtLeast(n: int, c: int)
    requires 1 <= n && 0 < c
    ensures c <= n * c
  {
  }

  lemma QuotientUnique(bound: int, k: int, r: int, l: int, q: int)
    requires 0 <= r < bound && 0 <= q < bound && k * bound + r == l * bound + q
    ensures k == l && r == q
  {
    if k < l { MulStrict(k, l, bound); }
    if l < k { MulStrict(l, k, bound); }
  }

  lemma MultiplesBelow(k: nat, l: nat, bound: int, r: nat)
    requires r < bound
    ensures k * bound + r < l * bound <==> k < l
  {
    if k < l { MulStrict(k, l, bound); }
    if l < k { MulStrict(l, k, bound); }
  }

  /** The i-th accepted pair that leaves residue r. */
  ghost function PairAt(bound: int, r: nat, i: nat): (nat, nat)
    requires ValidBound(bound)
  {
    Halves(i * bound + r)
  }

  lemma PairAtAccepted(bound: int, r: nat, i: nat)
    requires ValidBound(bound) && r < bound && i < SPACE / bound
    ensures PairAt(bound, r, i) in AcceptedPairs(bound, r) && Draw(PairAt(bound, r, i).0,
            PairAt(bound, r, i).1) == i * bound + r
  {
    var p, draw := PairAt(bound, r, i), i * bound + r;
    LimitBounds(bound);
    MultiplesBelow(i, SPACE / bound, bound, r);
    HalvesAreDraws(draw, p.0, p.1);
    QuotientUnique(bound, i, r, draw / bound, draw % bound);
  }

  lemma AcceptedIsPairAt(bound: int, r: nat, p: (nat, nat)) returns (i: nat)
    requires ValidBound(bound) && r < bound && p in AcceptedPairs(bound, r)
    ensures i < SPACE / bound && PairAt(bound, r, i) == p
  {
    hide Draw, Halves, Limit;
    var draw := Draw(p.0, p.1);
    i := draw / bound;
    DivMod(draw, bound);
    LimitBounds(bound);
    LimitIsMultiple(bound);
    MultiplesBelow(i, SPACE / bound, bound, r);
    HalvesAreDraws(draw, p.0, p.1);
  }

  lemma DivMod(n: nat, d: int)
    requires 0 < d
    ensures n == n / d * d + n % d
  {
  }

  lemma LimitIsMultiple(bound: int)
    requires ValidBound(bound)
    ensures Limit(bound) == SPACE / bound * bound
  {
  }

  /** Every residue comes from exactly floor(2^53 / bound) accepted pairs. */
  lemma AcceptedIsUniform(bound: int, r: nat)
    requires ValidBound(bound) && r < bound
    ensures |AcceptedPairs(bound, r)| == SPACE / bound
  {
    hide Draw, Halves, PairAt, AcceptedPairs;
    var k := SPACE / bound;
    var f := (i: nat) => PairAt(bound, r, i);
    forall i, j | 0 <= i < j < k ensures f(i) != f(j) {
      PairAtAccepted(bound, r, i);
      PairAtAccepted(bound, r, j);
      MulStrict(i, j, bound);
    }
    ImageSize(k, f);
    forall p | p in AcceptedPairs(bound, r) ensures exists i :: 0 <= i < k && f(i) == p {
      var i := AcceptedIsPairAt(bound, r, p);
      assert f(i) == p;
    }
    forall i | 0 <= i < k ensures f(i) in AcceptedPairs(bound, r) { PairAtAccepted(bound, r, i); }
    assert AcceptedPairs(bound, r) == Image(k, f);
  }

  lemma HalvesAccepted(bound: int, i: nat)
    requires ValidBound(bound) && i < Limit(bound)
    ensures Halves(i) in Accepted(bound) && Draw(Halves(i).0, Halves(i).1) == i
  {
    LimitBounds(bound);
    hide Limit;
    HalvesAreDraws(i, Halves(i).0, Halves(i).1);
  }

  lemma AcceptedIsHalves(bound: int, p: (nat, nat)) returns (i: nat)
    requires ValidBound(bound) && p in Accepted(bound)
    ensures i < Limit(bound) && Halves(i) == p
  {
    LimitBounds(bound);
    hide Limit, Draw, Halves;
    i := Draw(p.0, p.1);
    HalvesAreDraws(i, p.0, p.1);
  }

  /** More than half of all pairs are accepted. */
  lemma MostPairsAccepted(bound: int)
    requires ValidBound(bound)
    ensures |Accepted(bound)| == Limit(bound) && 2 * |Accepted(bound)| > HIGH_SPACE * LOW_SPACE
  {
    hide Limit, Draw, Halves, Accepted;
    LimitBounds(bound);
    var n := Limit(bound);
    var f := (i: nat) => Halves(i);
    forall i, j | 0 <= i < j < n ensures f(i) != f(j) {
      HalvesAccepted(bound, i);
      HalvesAccepted(bound, j);
    }
    ImageSize(n, f);
    forall p | p in Accepted(bound) ensures exists i :: 0 <= i < n && f(i) == p {
      var i := AcceptedIsHalves(bound, p);
      assert f(i) == p;
    }
    forall i | 0 <= i < n ensures f(i) in Accepted(bound) { HalvesAccepted(bound, i); }
    assert Accepted(bound) == Image(n, f);
  }

  /******** From halves to generator outputs ********/

  const OUTPUTS_PER_PAIR: nat := 2048

  /** The output pairs whose halves are in a set. */
  ghost function Outputs(s: set<(nat, nat)>): set<(nat, nat)> {
    set u, v | 0 <= u < OUTPUT_SPACE && 0 <= v < OUTPUT_SPACE && (High(u), Low(v)) in s :: (u, v)
  }

  lemma HalvesAreShifts(u: Output)
    ensures High(u) == u / 64 && Low(u) == u / 32
  {
  }

  /** The i-th output pair with these halves. */
  function OutputAt(p: (nat, nat), i: nat): (nat, nat) {
    (p.0 * 64 + i / 32, p.1 * 32 + i % 32)
  }

  lemma OutputAtHasHalves(p: (nat, nat), i: nat)
    requires p.0 < HIGH_SPACE && p.1 < LOW_SPACE && i < OUTPUTS_PER_PAIR
    ensures OutputAt(p, i) in Outputs({p}) && i == (OutputAt(p, i).0 - p.0 * 64) * 32 + (OutputAt(p, i).1 - p.1 * 32)
  {
    var o := OutputAt(p, i);
    HalvesAreShifts(o.0);
    HalvesAreShifts(o.1);
  }

  lemma OutputIsAt(p: (nat, nat), o: (nat, nat)) returns (i: nat)
    requires o in Outputs({p})
    ensures i < OUTPUTS_PER_PAIR && OutputAt(p, i) == o
  {
    HalvesAreShifts(o.0);
    HalvesAreShifts(o.1);
    i := (o.0 - p.0 * 64) * 32 + (o.1 - p.1 * 32);
  }

  /** Every pair of halves comes from the same number of output pairs. */
  lemma OutputsOfOne(p: (nat, nat))
    requires p.0 < HIGH_SPACE && p.1 < LOW_SPACE
    ensures |Outputs({p})| == OUTPUTS_PER_PAIR
  {
    hide Outputs, OutputAt, Image;
    var f := (i: nat) => OutputAt(p, i);
    forall i, j | 0 <= i < j < OUTPUTS_PER_PAIR ensures f(i) != f(j) {
      OutputAtHasHalves(p, i);
      OutputAtHasHalves(p, j);
    }
    ImageSize(OUTPUTS_PER_PAIR, f);
    forall o ensures o in Outputs({p}) <==> o in Image(OUTPUTS_PER_PAIR, f) {
      ImageMember(OUTPUTS_PER_PAIR, f, o);
      if o in Outputs({p}) {
        var i := OutputIsAt(p, o);
        assert f(i) == o;
      }
      forall i | 0 <= i < OUTPUTS_PER_PAIR ensures f(i) in Outputs({p}) { OutputAtHasHalves(p, i); }
    }
    assert Outputs({p}) == Image(OUTPUTS_PER_PAIR, f);
  }

  lemma ImageMember(n: nat, f: nat -> (nat, nat), o: (nat, nat))
    ensures o in Image(n, f) <==> exists i: nat :: i < n && f(i) == o
  {
  }

  lemma OutputsSplit(s: set<(nat, nat)>, p: (nat, nat))
    requires p in s
    ensures Outputs(s) == Outputs(s - {p}) + Outputs({p}) && Outputs(s - {p}) !! Outputs({p})
  {
    hide High, Low;
  }

  lemma {:induction false} OutputsCount(s: set<(nat, nat)>)
    requires forall p :: p in s ==> p.0 < HIGH_SPACE && p.1 < LOW_SPACE
    ensures |Outputs(s)| == OUTPUTS_PER_PAIR * |s|
    decreases |s|
  {
    if s == {} {
      assert Outputs(s) == {};
    } else {
      hide Outputs;
      var p :| p in s;
      OutputsCount(s - {p});
      OutputsOfOne(p);
      OutputsSplit(s, p);
    }
  }

  /** The output pairs that are accepted and leave residue `r`. */
  ghost function AcceptedOutputs(bound: int, r: nat): set<(nat, nat)>
    requires ValidBound(bound)
  {
    set u, v | 0 <= u < OUTPUT_SPACE && 0 <= v < OUTPUT_SPACE && DrawOf((u, v)) < Limit(bound)
        && DrawOf((u, v)) % bound == r :: (u, v)
  }

  lemma AcceptedByHalves(bound: int, r: nat, u: Output, v: Output)
    requires ValidBound(bound)
    ensures DrawOf((u, v)) < Limit(bound) && DrawOf((u, v)) % bound == r <==>
            (High(u), Low(v)) in AcceptedPairs(bound, r)
  {
    hide Limit, Draw;
    HalvesAreShifts(u);
    HalvesAreShifts(v);
  }

  /**
   * Accepted draws are exactly uniform over the generator's own outputs: every residue comes from equally many pairs
   * of them.
   */
  lemma OutputsAreUniform(bound: int, r: nat)
    requires ValidBound(bound) && r < bound
    ensures |AcceptedOutputs(bound, r)| == OUTPUTS_PER_PAIR * (SPACE / bound)
  {
    hide AcceptedPairs, DrawOf, High, Low, Limit;
    AcceptedIsUniform(bound, r);
    PairsInRange(bound, r);
    OutputsCount(AcceptedPairs(bound, r));
    forall u: Output, v: Output { AcceptedByHalves(bound, r, u, v); }
    assert AcceptedOutputs(bound, r) == Outputs(AcceptedPairs(bound, r));
  }

  lemma PairsInRange(bound: int, r: nat)
    requires ValidBound(bound)
    ensures forall p :: p in AcceptedPairs(bound, r) ==> p.0 < HIGH_SPACE && p.1 < LOW_SPACE
  {
  }
}
