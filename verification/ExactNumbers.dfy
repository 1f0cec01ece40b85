/** Exact comparison of decimal literals and binary64 values, in integers, against their real values. */
module ExactNumbers {
  import opened Prelude
  import opened JsonGrammar

  /******** Powers ********/

  function IntPow(b: nat, e: nat): (p: nat)
    ensures b > 0 ==> p > 0
  {
    if e == 0 then 1 else b * IntPow(b, e - 1)
  }

  /** The power of a positive real, for every integer exponent. */
  ghost function Pow(b: real, e: int): (p: real)
    requires b > 0.0
    ensures p > 0.0
    decreases if e < 0 then -e else e
  {
    if e == 0 then 1.0 else if e > 0 then b * Pow(b, e - 1) else Pow(b, e + 1) / b
  }

  lemma PowStep(b: real, e: int)
    requires b > 0.0
    ensures Pow(b, e + 1) == b * Pow(b, e)
  {
  }

  lemma Times(x: real, y: real, z: real)
    ensures x * (y * z) == y * (x * z)
  {
  }

  lemma {:induction false} PowAdd(b: real, x: int, y: int)
    requires b > 0.0
    ensures Pow(b, x + y) == Pow(b, x) * Pow(b, y)
    decreases if y < 0 then -y else y
  {
    hide Pow;
    if y == 0 {
      PowZero(b);
    } else if y > 0 {
      PowAdd(b, x, y - 1);
      PowStep(b, x + (y - 1));
      PowStep(b, y - 1);
      Times(b, Pow(b, x), Pow(b, y - 1));
    } else {
      PowAdd(b, x, y + 1);
      PowStep(b, x + y);
      PowStep(b, y);
      Times(b, Pow(b, x), Pow(b, y));
      Cancel(Pow(b, x + y), Pow(b, x) * Pow(b, y), b);
    }
  }

  lemma PowZero(b: real)
    requires b > 0.0
    ensures Pow(b, 0) == 1.0
  {
  }

  lemma Cancel(x: real, y: real, p: real)
    requires p != 0.0 && p * x == p * y
    ensures x == y
  {
    assert p * (x - y) == 0.0;
  }

  lemma {:induction false} ProductAsReal(a: int, b: nat)
    ensures (a * b) as real == a as real * b as real
  {
    if b > 0 {
      ProductAsReal(a, b - 1);
      assert a * b == a * (b - 1) + a;
    }
  }

  lemma {:induction false} PowIsIntPow(b: nat, e: nat)
    requires b > 0
    ensures IntPow(b, e) > 0 && Pow(b as real, e) == IntPow(b, e) as real
  {
    if e > 0 {
      PowIsIntPow(b, e - 1);
      ProductAsReal(b, IntPow(b, e - 1));
    }
  }

  /******** Scaled integers ********/

  /** An integer times a power of a base. */
  datatype Scaled = Scaled(digits: int, exponent: int)

  ghost function Real(v: Scaled, base: nat): real
    requires base > 0
  {
    v.digits as real * Pow(base as real, v.exponent)
  }

  function Numerator(v: Scaled, base: nat): int {
    if v.exponent >= 0 then v.digits * IntPow(base, v.exponent) else v.digits
  }

  function Denominator(v: Scaled, base: nat): (d: nat)
    ensures base > 0 ==> d > 0
  {
    if v.exponent >= 0 then 1 else IntPow(base, -v.exponent)
  }

  lemma AsFraction(v: Scaled, base: nat)
    requires base > 0
    ensures Denominator(v, base) > 0 && Denominator(v, base) as real * Real(v, base) == Numerator(v, base) as real
  {
    var b := base as real;
    if v.exponent >= 0 {
      PowIsIntPow(base, v.exponent);
      ProductAsReal(v.digits, IntPow(base, v.exponent));
    } else {
      PowIsIntPow(base, -v.exponent);
      PowAdd(b, v.exponent, -v.exponent);
      PowZero(b);
      Times(Pow(b, -v.exponent), v.digits as real, Pow(b, v.exponent));
    }
  }

  /** The integer comparison the code makes. */
  predicate SameFraction(x: Scaled, xBase: nat, y: Scaled, yBase: nat) {
    Numerator(x, xBase) * Denominator(y, yBase) == Numerator(y, yBase) * Denominator(x, xBase)
  }

  lemma FractionsCross(x: real, xn: int, xd: nat, y: real, yn: int, yd: nat)
    requires xd > 0 && yd > 0 && xd as real * x == xn as real && yd as real * y == yn as real
    ensures xn * yd == yn * xd <==> x == y
  {
    var d := xd as real * yd as real;
    ProductAsReal(xn, yd);
    ProductAsReal(yn, xd);
    assert (xn * yd) as real == d * x;
    assert (yn * xd) as real == d * y;
    if xn * yd == yn * xd { Cancel(x, y, d); }
  }

  lemma SameFractionIff(x: Scaled, xBase: nat, y: Scaled, yBase: nat)
    requires xBase > 0 && yBase > 0
    ensures SameFraction(x, xBase, y, yBase) <==> Real(x, xBase) == Real(y, yBase)
  {
    hide Pow, IntPow, Real;
    AsFraction(x, xBase);
    AsFraction(y, yBase);
    FractionsCross(Real(x, xBase), Numerator(x, xBase), Denominator(x, xBase), Real(y, yBase), Numerator(y, yBase),
        Denominator(y, yBase));
  }

  /******** Doubles ********/

  const TWO52: nat := 0x10_0000_0000_0000

  /** The bits of a binary64 value. */
  type Bits = b: nat | b < 0x1_0000_0000_0000_0000

  predicate Negative(bits: Bits) { bits / 0x8000_0000_0000_0000 == 1 }

  function BiasedExponent(bits: Bits): nat { bits / TWO52 % 0x800 }

  function Fraction(bits: Bits): nat { bits % TWO52 }

  predicate Finite(bits: Bits) { BiasedExponent(bits) != 0x7ff }

  predicate IsZero(bits: Bits) { BiasedExponent(bits) == 0 && Fraction(bits) == 0 }

  /** The value IEEE 754 gives a finite pattern. */
  ghost function DoubleValue(bits: Bits): real
    requires Finite(bits)
  {
    var f := Fraction(bits) as real / TWO52 as real;
    var magnitude := if BiasedExponent(bits) == 0 then Pow(2.0, -1022) * f
        else Pow(2.0, BiasedExponent(bits) - 1023) * (1.0 + f);
    if Negative(bits) then -magnitude else magnitude
  }

  function Mantissa(bits: Bits): (m: int)
    ensures 0 <= m < 2 * TWO52 && (BiasedExponent(bits) > 0 <==> m >= TWO52)
  {
    if BiasedExponent(bits) == 0 then Fraction(bits) else Fraction(bits) + TWO52
  }

  function BinaryExponent(bits: Bits): int {
    if BiasedExponent(bits) == 0 then -1074 else BiasedExponent(bits) - 1075
  }

  /** `doubleToExactBinary`; None is the thrown error on an infinity or NaN. */
  function DoubleToExactBinary(bits: Bits): Option<Scaled> {
    if !Finite(bits) then None
    else Some(Scaled(if Negative(bits) then -Mantissa(bits) else Mantissa(bits), BinaryExponent(bits)))
  }

  /** The finite patterns are those below the pattern of infinity, sign aside; the zeros are the least of each sign. */
  lemma FiniteIsBelowInfinity(bits: Bits)
    ensures Finite(bits) <==> bits % 0x8000_0000_0000_0000 < 0x7ff0_0000_0000_0000
    ensures IsZero(bits) <==> bits % 0x8000_0000_0000_0000 == 0
    ensures Negative(bits) <==> bits >= 0x8000_0000_0000_0000
  {
    var low := bits % 0x8000_0000_0000_0000;
    LowBits(bits);
    assert low == low / TWO52 * TWO52 + low % TWO52;
  }

  lemma LowBits(bits: Bits)
    ensures var low := bits % 0x8000_0000_0000_0000;
            BiasedExponent(bits) == low / TWO52 && Fraction(bits) == low % TWO52
  {
  }

  lemma Pow52()
    ensures Pow(2.0, 52) == TWO52 as real
  {
    hide Pow;
    PowZero(2.0);
    PowStep(2.0, 0);
    PowAdd(2.0, 1, 1);
    PowAdd(2.0, 2, 2);
    PowAdd(2.0, 4, 4);
    PowAdd(2.0, 8, 8);
    PowAdd(2.0, 16, 16);
    PowAdd(2.0, 32, 16);
    PowAdd(2.0, 48, 4);
  }

  /** The decomposition loses nothing: it denotes exactly the pattern's value. */
  lemma DecompositionIsExact(bits: Bits)
    ensures DoubleToExactBinary(bits).Some? <==> Finite(bits)
    ensures Finite(bits) ==> Real(DoubleToExactBinary(bits).value, 2) == DoubleValue(bits)
  {
    hide Pow, BiasedExponent, Fraction, Negative;
    if Finite(bits) {
      var e := if BiasedExponent(bits) == 0 then 1 else BiasedExponent(bits);
      var p := Pow(2.0, e - 1075);
      PowAdd(2.0, e - 1075, 52);
      Pow52();
      ScaleDown(p, Fraction(bits) as real, TWO52 as real);
    }
  }

  lemma ScaleDown(p: real, f: real, t: real)
    requires t > 0.0
    ensures (p * t) * (f / t) == f * p && (p * t) * (1.0 + f / t) == (f + t) * p
  {
    assert t * (f / t) == f;
    assert (p * t) * (f / t) == p * (t * (f / t));
  }

  /** The fields determine the pattern. */
  lemma FieldsDetermineBits(x: Bits, y: Bits)
    requires Negative(x) == Negative(y) && BiasedExponent(x) == BiasedExponent(y) && Fraction(x) == Fraction(y)
    ensures x == y
  {
    assert x / TWO52 == x / 0x8000_0000_0000_0000 * 0x800 + x / TWO52 % 0x800;
    assert y / TWO52 == y / 0x8000_0000_0000_0000 * 0x800 + y / TWO52 % 0x800;
  }

  lemma PowGrows(k: nat)
    ensures k > 0 ==> Pow(2.0, k) >= 2.0
  {
    if k > 1 { PowGrows(k - 1); }
  }

  lemma NotShifted(m: int, m': int, q: real)
    requires m < 2 * TWO52 && m' >= TWO52 && q >= 2.0
    ensures m as real != m' as real * q
  {
    assert m' as real * q >= m' as real * 2.0;
  }

  /** Of two equal magnitudes, the larger exponent not going with a subnormal, the exponents are equal. */
  lemma EqualMagnitudes(m: int, e: int, m': int, e': int)
    requires m < 2 * TWO52 && e <= e' && (e < e' ==> m' >= TWO52)
    requires m as real * Pow(2.0, e) == m' as real * Pow(2.0, e')
    ensures e == e' && m == m'
  {
    hide Pow;
    var p, q := Pow(2.0, e), Pow(2.0, e' - e);
    PowAdd(2.0, e, e' - e);
    Times(m' as real, p, q);
    Cancel(m as real, m' as real * q, p);
    PowGrows(e' - e);
    PowZero(2.0);
    if e < e' { NotShifted(m, m', q); }
  }

  lemma ZeroIsZero(x: Bits)
    requires Finite(x) && IsZero(x)
    ensures DoubleValue(x) == 0.0
  {
    hide Pow, Negative;
  }

  lemma SameValueSameBits(x: Bits, y: Bits)
    requires Finite(x) && Finite(y) && DoubleValue(x) == DoubleValue(y) && !(IsZero(x) && IsZero(y))
    ensures x == y
  {
    hide Pow, BiasedExponent, Fraction, Negative, DoubleValue;
    DecompositionIsExact(x);
    DecompositionIsExact(y);
    var a, b := DoubleToExactBinary(x).value, DoubleToExactBinary(y).value;
    SameSign(a.digits, Pow(2.0, a.exponent), b.digits, Pow(2.0, b.exponent));
    assert Negative(x) == Negative(y);
    MagnitudeDeterminesFields(x, y);
    FieldsDetermineBits(x, y);
  }

  /** Distinct finite patterns have distinct values, the two zeros apart. */
  lemma DecompositionIsInjective(x: Bits, y: Bits)
    requires Finite(x) && Finite(y)
    ensures DoubleValue(x) == DoubleValue(y) <==> x == y || (IsZero(x) && IsZero(y))
  {
    hide BiasedExponent, Fraction, Negative, DoubleValue, IsZero;
    if IsZero(x) && IsZero(y) {
      ZeroIsZero(x);
      ZeroIsZero(y);
    } else if DoubleValue(x) == DoubleValue(y) {
      SameValueSameBits(x, y);
    }
  }

  lemma MagnitudeDeterminesFields(x: Bits, y: Bits)
    requires Mantissa(x) as real * Pow(2.0, BinaryExponent(x)) == Mantissa(y) as real * Pow(2.0, BinaryExponent(y))
    ensures BiasedExponent(x) == BiasedExponent(y) && Fraction(x) == Fraction(y)
  {
    hide Pow, BiasedExponent, Fraction;
    if BinaryExponent(x) <= BinaryExponent(y) {
      EqualMagnitudes(Mantissa(x), BinaryExponent(x), Mantissa(y), BinaryExponent(y));
    } else {
      EqualMagnitudes(Mantissa(y), BinaryExponent(y), Mantissa(x), BinaryExponent(x));
    }
  }

  lemma SameSign(a: int, p: real, b: int, q: real)
    requires p > 0.0 && q > 0.0 && a as real * p == b as real * q
    ensures (a < 0 <==> b < 0) && (a == 0 <==> b == 0)
  {
    PositiveTimes(a, p);
    PositiveTimes(b, q);
  }

  lemma PositiveTimes(a: int, p: real)
    requires p > 0.0
    ensures (a < 0 <==> a as real * p < 0.0) && (a == 0 <==> a as real * p == 0.0)
  {
  }

  /** An odd integer beyond 2^53 in magnitude is no double. */
  lemma OddBeyond53IsNoDouble(n: int, bits: Bits)
    requires n % 2 == 1 && (n > 9007199254740992 || n < -9007199254740992) && Finite(bits)
    ensures DoubleValue(bits) != n as real
  {
    hide Pow, BiasedExponent, Fraction, Negative, DoubleValue;
    DecompositionIsExact(bits);
    var v := DoubleToExactBinary(bits).value;
    AsFraction(v, 2);
    if DoubleValue(bits) == n as real {
      ProductAsReal(n, Denominator(v, 2));
      assert Numerator(v, 2) == n * Denominator(v, 2);
      if v.exponent > 0 {
        var half := EvenPower(v.digits, v.exponent);
      } else {
        Magnifies(n, Denominator(v, 2));
      }
      assert false;
    }
  }

  lemma EvenPower(d: int, e: nat) returns (half: int)
    requires e > 0
    ensures d * IntPow(2, e) == half + half
  {
    var p := IntPow(2, e - 1);
    half := d * p;
    assert IntPow(2, e) == p + p;
    Distribute(d, p);
  }

  lemma Distribute(d: int, p: int)
    ensures d * (p + p) == d * p + d * p
  {
  }

  lemma Magnifies(n: int, d: nat)
    requires d > 0
    ensures n > 0 ==> n * d >= n
    ensures n < 0 ==> n * d <= n
  {
  }

  function Compose(negative: bool, biased: nat, fraction: nat): (bits: Bits)
    requires biased < 0x800 && fraction < TWO52
    ensures Negative(bits) == negative && BiasedExponent(bits) == biased && Fraction(bits) == fraction
  {
    var bits := (if negative then 0x8000_0000_0000_0000 else 0) + biased * TWO52 + fraction;
    assert bits / TWO52 == (if negative then 0x800 else 0) + biased;
    bits
  }

  /** Doubling until the top bit stands at position 52. */
  lemma Normalise(m: nat, k: int) returns (m': nat, k': int)
    requires m < 2 * TWO52 && 0 <= k <= 52 && m >= IntPow(2, k)
    ensures TWO52 <= m' < 2 * TWO52 && 0 <= k' <= 52 && m' as real * Pow(2.0, -k') == m as real * Pow(2.0, -k)
    decreases 52 - k
  {
    hide Pow, IntPow;
    IntPow52();
    if m >= TWO52 {
      m', k' := m, k;
    } else {
      IntPowStep(k);
      PowStep(2.0, -k - 1);
      m', k' := Normalise(2 * m, k + 1);
    }
  }

  lemma IntPow52()
    ensures IntPow(2, 52) == TWO52
  {
    hide Pow, IntPow;
    Pow52();
    PowIsIntPow(2, 52);
  }

  lemma IntPowStep(k: nat)
    ensures IntPow(2, k + 1) == 2 * IntPow(2, k)
  {
  }

  lemma MagnitudeIsDouble(n: nat, negative: bool) returns (bits: Bits)
    requires 0 < n <= 2 * TWO52
    ensures Finite(bits) && DoubleValue(bits) == if negative then -(n as real) else n as real
  {
    hide Pow, BiasedExponent, Fraction, Negative, DoubleValue;
    PowZero(2.0);
    PowStep(2.0, 0);
    var m: nat, e: int := TWO52, 1;
    if n < 2 * TWO52 {
      var m', k := Normalise(n, 0);
      m, e := m', -k;
    }
    assert m as real * Pow(2.0, e) == n as real;
    bits := Compose(negative, e + 1075, m - TWO52);
    DecompositionIsExact(bits);
  }

  /** Every integer up to 2^53 in magnitude is a double, so the bound of `OddBeyond53IsNoDouble` is exact. */
  lemma IntegersTo53AreDoubles(n: int) returns (bits: Bits)
    requires -9007199254740992 <= n <= 9007199254740992
    ensures Finite(bits) && DoubleValue(bits) == n as real
  {
    if n == 0 {
      bits := 0;
    } else {
      bits := MagnitudeIsDouble(if n < 0 then -n else n, n < 0);
    }
  }

  /******** Rounding ********/

  ghost function Distance(x: real, y: real): real { if x < y then y - x else x - y }

  /** No finite double is closer to the number: what every rounding to nearest answers, ties aside. */
  ghost predicate Nearest(bits: Bits, q: real) {
    Finite(bits) && forall other: Bits :: Finite(other) ==>
        Distance(DoubleValue(bits), q) <= Distance(DoubleValue(other), q)
  }

  lemma BelowNextPower(n: nat, p: nat, q: nat)
    requires p > 0 && n * p < q * p
    ensures (n + 1) * p <= q * p
  {
    assert n < q;
  }

  lemma ComplementaryPowers(j: nat, k: nat)
    requires j + k == 53
    ensures IntPow(2, j) * IntPow(2, k) == 2 * TWO52
  {
    hide Pow, IntPow;
    PowIsIntPow(2, j);
    PowIsIntPow(2, k);
    Pow52();
    PowStep(2.0, 52);
    PowAdd(2.0, j, k);
    ProductAsReal(IntPow(2, j), IntPow(2, k));
  }

  lemma InversePowers(k: int)
    requires k >= 0
    ensures Pow(2.0, -k) * IntPow(2, k) as real == 1.0
  {
    hide Pow, IntPow;
    PowIsIntPow(2, k);
    PowAdd(2.0, -k, k);
    PowZero(2.0);
  }

  /** The doubles around an integer lie so close together that `p` steps lead to the next integer. */
  lemma DoubleBelowNext(n: nat) returns (bits: Bits, p: nat)
    requires 0 < n < 2 * TWO52
    ensures p > 0 && n * p >= TWO52
    ensures Finite(bits) && (n as real + 1.0 - DoubleValue(bits)) * p as real == 1.0
  {
    hide Pow, IntPow, BiasedExponent, Fraction, Negative, DoubleValue;
    PowZero(2.0);
    IntPowZero();
    var m, k := Normalise(n, 0);
    p := IntPow(2, k);
    var j: nat := 53 - k;
    ComplementaryPowers(j, k);
    InversePowers(k);
    ScaledBack(n, m, p, Pow(2.0, -k));
    BelowNextPower(n, p, IntPow(2, j));
    DistributeOne(n, p);
    var w := m + p - 1;
    bits := Compose(false, 1075 - k, w - TWO52);
    DecompositionIsExact(bits);
    StepsToNext(n, w, p, Pow(2.0, -k));
  }

  lemma IntPowZero()
    ensures IntPow(2, 0) == 1
  {
  }

  lemma DistributeOne(n: int, p: int)
    ensures (n + 1) * p == n * p + p
  {
  }

  lemma ScaledBack(n: nat, m: nat, p: nat, r: real)
    requires r * p as real == 1.0 && m as real * r == n as real
    ensures m == n * p
  {
    ProductAsReal(n, p);
    assert n as real * p as real == m as real * (r * p as real);
  }

  lemma StepsToNext(n: nat, w: nat, p: nat, r: real)
    requires r * p as real == 1.0 && w == n * p + p - 1
    ensures (n as real + 1.0 - w as real * r) * p as real == 1.0
  {
    ProductAsReal(n, p);
    assert (w as real * r) * p as real == w as real * (r * p as real);
  }

  /** A quotient short of the next integer by no less than `1 / bound` is not rounded up to it. */
  lemma CloserBelow(n: nat, bound: nat, q: real, w: real, p: nat, v: real)
    requires p > 0 && 0 < bound < 2 * p && (n as real + 1.0 - q) * bound as real >= 1.0
    requires (n as real + 1.0 - w) * p as real == 1.0
    requires v >= n as real + 1.0
    ensures Distance(w, q) < Distance(v, q)
  {
    var gap, step := n as real + 1.0 - q, n as real + 1.0 - w;
    OneOver(gap, bound);
    OneOver(step, p);
    if 2.0 * gap <= step {
      HalfStep(gap, step, bound, p);
    }
  }

  lemma OneOver(x: real, n: nat)
    requires n > 0 && x * n as real >= 1.0
    ensures x > 0.0
  {
  }

  lemma HalfStep(gap: real, step: real, bound: nat, p: nat)
    requires p > 0 && 0 < bound < 2 * p && gap > 0.0 && gap * bound as real >= 1.0 && step * p as real == 1.0
    ensures 2.0 * gap > step
  {
    assert gap * bound as real < gap * (2 * p) as real;
    assert gap * (2 * p) as real == (2.0 * gap) * p as real;
  }

  lemma QuotientBetween(space: nat, bound: nat, n: nat, q: real)
    requires bound > 0 && n == space / bound && q * bound as real == space as real
    ensures n as real <= q < n as real + 1.0
    ensures (n as real + 1.0 - q) * bound as real >= 1.0
    ensures q == n as real <==> n * bound == space
  {
    ProductAsReal(n, bound);
    ProductAsReal(n + 1, bound);
    DistributeOne(n, bound);
    Cancels(q - n as real, bound);
    Cancels(n as real + 1.0 - q, bound);
  }

  lemma Cancels(x: real, n: nat)
    requires n > 0
    ensures (x > 0.0 <==> x * n as real > 0.0) && (x == 0.0 <==> x * n as real == 0.0)
  {
  }

  /** Rounding the quotient of 2^53 by an integer to the nearest double and flooring it is the integer division. */
  lemma RoundedQuotientFloors(bound: nat, x: Bits)
    requires 0 < bound <= 2 * TWO52 && Nearest(x, (2 * TWO52) as real / bound as real)
    ensures DoubleValue(x).Floor == 2 * TWO52 / bound
  {
    hide Pow, IntPow, BiasedExponent, Fraction, Negative, DoubleValue, Finite;
    var n, q := 2 * TWO52 / bound, (2 * TWO52) as real / bound as real;
    QuotientBetween(2 * TWO52, bound, n, q);
    QuotientPositive(2 * TWO52, bound);
    var whole := IntegersTo53AreDoubles(n);
    assert Distance(DoubleValue(x), q) <= Distance(DoubleValue(whole), q);
    if n * bound < 2 * TWO52 && DoubleValue(x) >= n as real + 1.0 {
      var below, p := DoubleBelowNext(n);
      FewerSteps(n, bound, p);
      CloserBelow(n, bound, q, DoubleValue(below), p, DoubleValue(x));
    }
  }

  lemma PositiveFactor(q: nat, bound: nat, r: nat)
    requires r < bound <= q * bound + r
    ensures q > 0
  {
  }

  lemma LargeFactor(q: nat, bound: nat)
    requires bound > 1
    ensures q > 0 ==> q < q * bound
  {
    if q > 0 { assert q * bound >= q * 2; }
  }

  lemma QuotientPositive(space: nat, bound: nat)
    requires 0 < bound <= space
    ensures 0 < space / bound && space / bound * bound <= space
    ensures bound > 1 ==> space / bound < space
  {
    var q, r := space / bound, space % bound;
    assert space == q * bound + r;
    PositiveFactor(q, bound, r);
    if bound > 1 {
      LargeFactor(q, bound);
    }
  }

  lemma LessFactor(n: nat, a: int, b: int)
    requires n * a < n * b
    ensures a < b
  {
  }

  lemma FewerSteps(n: nat, bound: nat, p: nat)
    requires n * bound < 2 * TWO52 <= 2 * (n * p)
    ensures bound < 2 * p
  {
    assert n * (2 * p) == 2 * (n * p);
    LessFactor(n, bound, 2 * p);
  }

  /******** Literals ********/

  function Digit(b: Byte): int {
    var code: int := b;
    code - 0x30
  }

  function DigitsValue(ds: seq<Byte>): int {
    if |ds| == 0 then 0 else DigitsValue(ds[..|ds| - 1]) * 10 + Digit(ds[|ds| - 1])
  }

  /** The fraction digits behind the point, most significant first. */
  ghost function FractionValue(ds: seq<Byte>): real {
    if |ds| == 0 then 0.0 else (Digit(ds[0]) as real + FractionValue(ds[1..])) / 10.0
  }

  function ExponentValue(e: Exponent): int {
    if e.sign == Some(0x2d) then -DigitsValue(e.digits) else DigitsValue(e.digits)
  }

  /** The number section 6 of RFC 8259 gives a literal. */
  ghost function LiteralValue(n: Number): real {
    var frac := if n.frac.Some? then FractionValue(n.frac.value) else 0.0;
    var exp := if n.exp.Some? then ExponentValue(n.exp.value) else 0;
    (if n.negative then -1.0 else 1.0) * (DigitsValue(n.whole) as real + frac) * Pow(10.0, exp)
  }

  /** The position of the first byte in a set, or the length. */
  function IndexOf(s: seq<Byte>, wanted: set<Byte>): (i: nat)
    ensures i <= |s| && (i < |s| ==> s[i] in wanted) && forall j :: 0 <= j < i ==> s[j] !in wanted
  {
    if |s| == 0 || s[0] in wanted then 0 else 1 + IndexOf(s[1..], wanted)
  }

  /** `Number.parseInt` on an optional sign and digits. */
  function ParseInt(s: seq<Byte>): int {
    if |s| > 0 && s[0] == 0x2d then -DigitsValue(s[1..])
    else if |s| > 0 && s[0] == 0x2b then DigitsValue(s[1..])
    else DigitsValue(s)
  }

  /** The digits with the point taken out, and the exponent with the point taken in. */
  function BodyToExactDecimal(negative: bool, body: seq<Byte>, exponent: int): Scaled {
    var point := IndexOf(body, {0x2e});
    var digits := if point < |body| then body[..point] + body[point + 1..] else body;
    var shift := if point < |body| then |body| - point - 1 else 0;
    Scaled((if negative then -1 else 1) * DigitsValue(digits), exponent - shift)
  }

  /** `literalToExactDecimal`, on the bytes of the literal. */
  function LiteralToExactDecimal(literal: seq<Byte>): Scaled {
    var negative := |literal| > 0 && literal[0] == 0x2d;
    var rest := if negative then literal[1..] else literal;
    var marker := IndexOf(rest, {0x65, 0x45});
    var exponent := if marker < |rest| then ParseInt(rest[marker + 1..]) else 0;
    BodyToExactDecimal(negative, rest[..marker], exponent)
  }

  lemma IndexAfter(head: seq<Byte>, tail: seq<Byte>, wanted: set<Byte>)
    requires (forall i :: 0 <= i < |head| ==> head[i] !in wanted) && (|tail| == 0 || tail[0] in wanted)
    ensures IndexOf(head + tail, wanted) == |head|
  {
    assert forall i :: 0 <= i < |head| ==> (head + tail)[i] == head[i];
    assert |tail| > 0 ==> (head + tail)[|head|] == tail[0];
  }

  /** What stands before the exponent and what stands behind the sign. */
  ghost function Body(n: Number): seq<Byte> {
    n.whole + (if n.frac.Some? then [0x2e] + n.frac.value else [])
  }

  lemma BodyShape(n: Number)
    requires NumberOk(n)
    ensures IndexOf(Body(n), {0x2e}) == |n.whole|
    ensures forall i :: 0 <= i < |Body(n)| ==> Body(n)[i] !in {0x65, 0x45}
    ensures |n.whole| > 0 && n.whole[0] != 0x2d
    ensures n.frac.Some? ==>
              Body(n)[..|n.whole|] + Body(n)[|n.whole| + 1..] == n.whole + n.frac.value
              && |Body(n)| == |n.whole| + 1 + |n.frac.value|
    ensures n.frac.None? ==> Body(n) == n.whole
  {
    assert IsDigit(n.whole[0]);
    var tail := if n.frac.Some? then [0x2e] + n.frac.value else [];
    IndexAfter(n.whole, tail, {0x2e});
    if n.frac.Some? {
      assert Body(n)[|n.whole| + 1..] == n.frac.value;
    }
  }

  lemma LiteralShape(n: Number)
    requires NumberOk(n)
    ensures var tail := if n.exp.Some? then RenderExponent(n.exp.value) else [];
            var s := RenderNumber(n);
            && |s| > 0 && (s[0] == 0x2d <==> n.negative)
            && (if n.negative then s[1..] else s) == Body(n) + tail
            && IndexOf(Body(n) + tail, {0x65, 0x45}) == |Body(n)|
            && (Body(n) + tail)[..|Body(n)|] == Body(n)
            && (Body(n) + tail)[|Body(n)|..] == tail
  {
    hide IndexOf, AllDigits, RenderExponent;
    BodyShape(n);
    var tail := if n.exp.Some? then RenderExponent(n.exp.value) else [];
    var frac := if n.frac.Some? then [0x2e] + n.frac.value else [];
    assert n.whole + (frac + tail) == Body(n) + tail;
    assert (Body(n) + tail)[0] == n.whole[0];
    ExponentText(n.exp);
    IndexAfter(Body(n), tail, {0x65, 0x45});
  }

  lemma ExponentText(exp: Option<Exponent>)
    requires exp.Some? ==> ExponentOk(exp.value)
    ensures exp.Some? ==>
              var s := RenderExponent(exp.value);
              |s| > 0 && s[0] in {0x65, 0x45} && ParseInt(s[1..]) == ExponentValue(exp.value)
  {
    hide DigitsValue;
    if exp.Some? {
      var e, s := exp.value, RenderExponent(exp.value)[1..];
      if e.sign.Some? {
        assert s[1..] == e.digits;
      } else {
        assert s == e.digits;
        assert IsDigit(e.digits[0]);
      }
    }
  }

  lemma NumberExponent(n: Number)
    requires NumberOk(n)
    ensures n.exp.Some? ==>
              var s := RenderExponent(n.exp.value);
              |s| > 0 && s[0] in {0x65, 0x45} && ParseInt(s[1..]) == ExponentValue(n.exp.value)
  {
    hide ParseInt, ExponentValue, RenderExponent;
    ExponentText(n.exp);
  }

  lemma LiteralSplits(n: Number)
    requires NumberOk(n)
    ensures LiteralToExactDecimal(RenderNumber(n)) ==
            BodyToExactDecimal(n.negative, Body(n), if n.exp.Some? then ExponentValue(n.exp.value) else 0)
  {
    hide DigitsValue, IndexOf, ParseInt, ExponentValue, RenderNumber, RenderExponent, NumberOk, Body,
      BodyToExactDecimal;
    LiteralShape(n);
    NumberExponent(n);
  }

  lemma BodySplits(n: Number, exponent: int)
    requires NumberOk(n)
    ensures var frac := if n.frac.Some? then n.frac.value else [];
            BodyToExactDecimal(n.negative, Body(n), exponent) ==
            Scaled((if n.negative then -1 else 1) * DigitsValue(n.whole + frac), exponent - |frac|)
  {
    hide DigitsValue, IndexOf, NumberOk, Body;
    BodyShape(n);
    assert n.frac.None? ==> n.whole + [] == n.whole;
  }

  /** The sign, digits and exponent the code reads off a literal. */
  lemma LiteralParts(n: Number)
    requires NumberOk(n)
    ensures var frac := if n.frac.Some? then n.frac.value else [];
            LiteralToExactDecimal(RenderNumber(n)) ==
            Scaled((if n.negative then -1 else 1) * DigitsValue(n.whole + frac),
                (if n.exp.Some? then ExponentValue(n.exp.value) else 0) - |frac|)
  {
    hide *;
    LiteralSplits(n);
    BodySplits(n, if n.exp.Some? then ExponentValue(n.exp.value) else 0);
  }

  lemma {:induction false} DigitsAppend(a: seq<Byte>, b: seq<Byte>)
    ensures DigitsValue(a + b) as real == DigitsValue(a) as real * Pow(10.0, |b|) + DigitsValue(b) as real
  {
    hide Pow, DigitsValue;
    PowZero(10.0);
    if |b| == 0 {
      NoDigits();
      assert a + b == a;
    } else {
      var c := b[..|b| - 1];
      assert (a + b)[..|a + b| - 1] == a + c;
      LastDigit(a + b);
      LastDigit(b);
      DigitsAppend(a, c);
      PowStep(10.0, |c|);
      Times(10.0, DigitsValue(a) as real, Pow(10.0, |c|));
    }
  }

  lemma NoDigits()
    ensures DigitsValue([]) == 0
  {
  }

  lemma LastDigit(s: seq<Byte>)
    requires |s| > 0
    ensures DigitsValue(s) == DigitsValue(s[..|s| - 1]) * 10 + Digit(s[|s| - 1])
  {
  }

  lemma {:induction false} FractionIsScaled(f: seq<Byte>)
    ensures FractionValue(f) * Pow(10.0, |f|) == DigitsValue(f) as real
  {
    hide Pow, DigitsValue;
    NoDigits();
    if |f| > 0 {
      FractionIsScaled(f[1..]);
      DigitsAppend(f[..1], f[1..]);
      assert f == f[..1] + f[1..] && f[..1][..0] == [];
      LastDigit(f[..1]);
      PowStep(10.0, |f| - 1);
      Shift(Digit(f[0]) as real, FractionValue(f[1..]), Pow(10.0, |f| - 1));
    }
  }

  lemma Shift(d: real, rest: real, p: real)
    ensures (d + rest) / 10.0 * (10.0 * p) == d * p + rest * p
  {
  }

  lemma ScaleUp(sign: real, w: real, f: real, k: real, p: real)
    ensures (sign * (w * k + f * k)) * p == sign * (w + f) * (k * p)
  {
    assert w * k + f * k == (w + f) * k;
    assert (sign * ((w + f) * k)) * p == (sign * (w + f)) * (k * p);
  }

  /** Reading a literal is exact: the integer and exponent denote the number that is written. */
  lemma LiteralIsExact(n: Number)
    requires NumberOk(n)
    ensures Real(LiteralToExactDecimal(RenderNumber(n)), 10) == LiteralValue(n)
  {
    hide Pow, DigitsValue, FractionValue, ExponentValue, LiteralToExactDecimal, RenderNumber, NumberOk;
    LiteralParts(n);
    var frac := if n.frac.Some? then n.frac.value else [];
    var exp := if n.exp.Some? then ExponentValue(n.exp.value) else 0;
    var k := Pow(10.0, |frac|);
    DigitsAppend(n.whole, frac);
    FractionIsScaled(frac);
    PowAdd(10.0, |frac|, exp - |frac|);
    NoFraction();
    SignedAsReal(n.negative, DigitsValue(n.whole + frac));
    ScaleUp(if n.negative then -1.0 else 1.0, DigitsValue(n.whole) as real, FractionValue(frac), k,
        Pow(10.0, exp - |frac|));
  }

  lemma NoFraction()
    ensures FractionValue([]) == 0.0
  {
  }

  lemma SignedAsReal(negative: bool, d: int)
    ensures ((if negative then -1 else 1) * d) as real == (if negative then -1.0 else 1.0) * d as real
  {
  }

  /** `literalEqualsDouble`; None is the thrown error on an infinity or NaN. */
  function LiteralEqualsDouble(literal: seq<Byte>, bits: Bits): Option<bool> {
    var binary := DoubleToExactBinary(bits);
    if binary.None? then None else Some(SameFraction(LiteralToExactDecimal(literal), 10, binary.value, 2))
  }

  /** The integer comparison answers exactly whether the written number is the double's value. */
  lemma LiteralEqualsDoubleIff(n: Number, bits: Bits)
    requires NumberOk(n)
    ensures LiteralEqualsDouble(RenderNumber(n), bits) == if Finite(bits)
            then Some(LiteralValue(n) == DoubleValue(bits)) else None
  {
    hide LiteralToExactDecimal, RenderNumber, NumberOk, Real, DoubleValue, LiteralValue, SameFraction, Mantissa,
      BinaryExponent, Finite;
    DecompositionIsExact(bits);
    LiteralIsExact(n);
    if Finite(bits) { SameFractionIff(LiteralToExactDecimal(RenderNumber(n)), 10, DoubleToExactBinary(bits).value, 2); }
  }

  /** So a literal that spells an odd integer beyond 2^53 never survives being read as a double. */
  lemma OddLiteralIsInexact(n: Number, bits: Bits)
    requires NumberOk(n) && n.frac.None? && n.exp.None? && DigitsValue(n.whole) % 2 == 1
             && DigitsValue(n.whole) > 9007199254740992 && Finite(bits)
    ensures LiteralEqualsDouble(RenderNumber(n), bits) == Some(false)
  {
    hide LiteralEqualsDouble, RenderNumber, NumberOk, DoubleValue, DigitsValue, Finite, Pow;
    LiteralEqualsDoubleIff(n, bits);
    PowZero(10.0);
    OddBeyond53IsNoDouble(DigitsValue(n.whole), bits);
    OddBeyond53IsNoDouble(-DigitsValue(n.whole), bits);
  }

  const MAX_SPREAD := 4096

  function Abs(x: int): nat { if x < 0 then -x else x }

  /** `sameExactDecimalValue`. */
  predicate SameExactDecimalValue(left: seq<Byte>, right: seq<Byte>) {
    var a, b := LiteralToExactDecimal(left), LiteralToExactDecimal(right);
    if a.digits == 0 || b.digits == 0 then a.digits == b.digits
    else
      var spread := a.exponent - b.exponent;
      if Abs(spread) > MAX_SPREAD then false
      else if spread >= 0 then a.digits * IntPow(10, spread) == b.digits
      else b.digits * IntPow(10, -spread) == a.digits
  }

  lemma Aligned(a: Scaled, b: Scaled)
    requires a.exponent >= b.exponent
    ensures a.digits * IntPow(10, a.exponent - b.exponent) == b.digits <==> Real(a, 10) == Real(b, 10)
  {
    hide Pow, IntPow;
    var spread := a.exponent - b.exponent;
    var p := Pow(10.0, b.exponent);
    PowAdd(10.0, b.exponent, spread);
    PowIsIntPow(10, spread);
    ProductAsReal(a.digits, IntPow(10, spread));
    Times(a.digits as real, p, Pow(10.0, spread));
    if Real(a, 10) == Real(b, 10) { Cancel(a.digits as real * Pow(10.0, spread), b.digits as real, p); }
  }

  lemma ZeroValue(v: Scaled)
    ensures Real(v, 10) == 0.0 <==> v.digits == 0
  {
    hide Pow;
    PositiveTimes(v.digits, Pow(10.0, v.exponent));
  }

  function Quotient(n: nat, d: nat): nat
    requires d > 0
  {
    n / d
  }

  /** `absoluteIntegerValue`: the magnitude truncated towards zero, unless the exponent is extreme. */
  function AbsoluteIntegerValue(v: Scaled): Option<nat> {
    if Abs(v.exponent) > MAX_SPREAD then None else Some(Quotient(Abs(Numerator(v, 10)), Denominator(v, 10)))
  }

  lemma FloorAtLeast(n: nat, d: nat, t: nat)
    requires d > 0
    ensures n / d >= t <==> n >= t * d
  {
    var q := n / d;
    assert n == q * d + n % d;
    if q >= t { ProductGrows(t, q, d); } else { ProductGrows(q + 1, t, d); }
  }

  lemma ProductGrows(x: int, y: int, d: nat)
    requires x <= y
    ensures x * d <= y * d
  {
  }

  lemma RealAtLeast(x: real, n: int, d: nat, t: nat)
    requires d > 0 && d as real * x == n as real
    ensures Abs(n) >= t * d <==> !(-(t as real) < x < t as real)
  {
    ProductAsReal(t, d);
    var c, b := d as real, t as real;
    assert x >= b <==> c * x >= c * b by { Ordered(c, x, b); }
    assert x <= -b <==> c * x <= c * -b by { Ordered(c, -b, x); }
    assert (t * d) as real == c * b;
  }

  lemma Ordered(c: real, x: real, y: real)
    requires c > 0.0
    ensures x >= y <==> c * x >= c * y
  {
  }

  /** The truncated magnitude passes 2^53 - 1 exactly when the value itself reaches 2^53. */
  lemma MagnitudeIsTruncated(v: Scaled)
    ensures AbsoluteIntegerValue(v).Some? <==> -4096 <= v.exponent <= 4096
    ensures AbsoluteIntegerValue(v).Some? ==>
              (AbsoluteIntegerValue(v).value > 9007199254740991 <==>
                  !(-9007199254740992.0 < Real(v, 10) < 9007199254740992.0))
  {
    hide Real, Numerator, Denominator;
    AsFraction(v, 10);
    var n, d := Numerator(v, 10), Denominator(v, 10);
    FloorAtLeast(Abs(n), d, MAX_SAFE_INTEGER + 1);
    RealAtLeast(Real(v, 10), n, d, MAX_SAFE_INTEGER + 1);
  }

  lemma {:induction false} DigitsNotNegative(ds: seq<Byte>)
    requires AllDigits(ds)
    ensures DigitsValue(ds) >= 0
  {
    if |ds| > 0 { DigitsNotNegative(ds[..|ds| - 1]); }
  }

  lemma IntegerLiteralMagnitude(n: Number)
    requires NumberOk(n) && n.frac.None? && n.exp.None?
    ensures DigitsValue(n.whole) >= 0 && AbsoluteIntegerValue(LiteralToExactDecimal(RenderNumber(n))) ==
            Some(DigitsValue(n.whole))
  {
    hide DigitsValue, LiteralToExactDecimal, RenderNumber;
    LiteralParts(n);
    DigitsNotNegative(n.whole);
    assert n.whole + [] == n.whole;
  }

  /** Both literals are non-zero and their exponents lie too far apart for the code to look. */
  predicate SpreadTooWide(left: seq<Byte>, right: seq<Byte>) {
    var a, b := LiteralToExactDecimal(left), LiteralToExactDecimal(right);
    a.digits != 0 && b.digits != 0 && !(-4096 <= a.exponent - b.exponent <= 4096)
  }

  /** The comparison of two literals is exact except beyond the exponent gap, where the answer is always no. */
  lemma SameExactDecimalValueIff(m: Number, n: Number)
    requires NumberOk(m) && NumberOk(n)
    ensures SameExactDecimalValue(RenderNumber(m), RenderNumber(n)) <==>
            LiteralValue(m) == LiteralValue(n) && !SpreadTooWide(RenderNumber(m), RenderNumber(n))
  {
    hide LiteralToExactDecimal, RenderNumber, NumberOk, Real, LiteralValue, IntPow;
    LiteralIsExact(m);
    LiteralIsExact(n);
    var a, b := LiteralToExactDecimal(RenderNumber(m)), LiteralToExactDecimal(RenderNumber(n));
    ZeroValue(a);
    ZeroValue(b);
    if a.exponent >= b.exponent { Aligned(a, b); } else { Aligned(b, a); }
  }

  /** `1` with `k` zeros behind it. */
  ghost function PowerOfTen(k: nat): seq<Byte> {
    if k == 0 then [0x31] else PowerOfTen(k - 1) + [0x30]
  }

  lemma {:induction false} PowerOfTenFacts(k: nat)
    ensures var ds := PowerOfTen(k);
            |ds| == k + 1 && ds[0] == 0x31 && AllDigits(ds) && DigitsValue(ds) as real == Pow(10.0, k)
  {
    if k == 0 {
      assert DigitsValue([0x31]) == 1;
    } else {
      PowerOfTenFacts(k - 1);
      assert PowerOfTen(k)[..k] == PowerOfTen(k - 1);
    }
  }

  lemma FourDigits(ds: seq<Byte>)
    requires |ds| == 4
    ensures DigitsValue(ds) == Digit(ds[0]) * 1000 + Digit(ds[1]) * 100 + Digit(ds[2]) * 10 + Digit(ds[3])
  {
    hide DigitsValue;
    assert ds[..3][..2] == ds[..2] && ds[..2][..1] == ds[..1] && ds[..1][..0] == [];
    NoDigits();
    LastDigit(ds[..1]);
    LastDigit(ds[..2]);
    LastDigit(ds[..3]);
    LastDigit(ds);
  }

  /** 1e4097 and the same number written out are one value, and the comparison says they differ. */
  lemma SpreadExample()
    ensures var short, long := Number(false, [0x31], None, Some(Exponent(0x65, None, [0x34, 0x30, 0x39, 0x37]))),
            Number(false, PowerOfTen(4097), None, None);
            NumberOk(short) && NumberOk(long) && LiteralValue(short) == LiteralValue(long) &&
            !SameExactDecimalValue(RenderNumber(short), RenderNumber(long))
  {
    hide Pow, PowerOfTen, LiteralToExactDecimal, RenderNumber;
    var exp := Exponent(0x65, None, [0x34, 0x30, 0x39, 0x37]);
    var short, long := Number(false, [0x31], None, Some(exp)), Number(false, PowerOfTen(4097), None, None);
    PowerOfTenFacts(4097);
    PowZero(10.0);
    NoDigits();
    LastDigit([0x31]);
    FourDigits(exp.digits);
    LiteralParts(short);
    LiteralParts(long);
    assert [0x31] + [] == [0x31] && PowerOfTen(4097) + [] == PowerOfTen(4097);
  }
}
