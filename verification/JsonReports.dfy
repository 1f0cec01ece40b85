/** What the scanner reports about one string and about one number. */
module JsonReports {
  import opened Prelude
  import opened JsonGrammar
  import opened JsonNames
  import Exact = ExactNumbers

  /**
   * Library functions: `round` is `Number` on a literal, `render` the shortest rendering of a double,
   * and `normal` holds of texts in Normalization Form C.
   */
  datatype Library = Library(round: seq<Byte> -> Exact.Bits, render: Exact.Bits -> seq<Byte>, normal: Text -> bool)

  datatype Finding =
    | InvalidUtf8(pointer: Text, offset: nat)
    | DuplicateMemberName(pointer: Text, offset: nat, firstOffset: nat)
    | LoneSurrogateEscape(pointer: Text, offset: nat)
    | NonNfcString(pointer: Text, offset: nat)
    | OverflowToInfinity(pointer: Text, offset: nat)
    | UnderflowToZero(pointer: Text, offset: nat)
    | NonRoundTripping(pointer: Text, offset: nat, lossyParse: bool)
    | UnsafeMagnitude(pointer: Text, offset: nat)

  /** Members, strings (names included), numbers, inexact numbers and large numbers. */
  datatype Counts = Counts(members: nat, strings: nat, numbers: nat, inexact: nat, large: nat)

  const NOTHING := Counts(0, 0, 0, 0, 0)

  function Plus(a: Counts, b: Counts): Counts {
    Counts(a.members + b.members, a.strings + b.strings, a.numbers + b.numbers, a.inexact + b.inexact,
        a.large + b.large)
  }

  /******** Strings ********/

  predicate IsHigh(p: Piece) requires PieceOk(p) { p.Hex4? && 0xd800 <= UnitOf(p) <= 0xdbff }

  predicate IsLow(p: Piece) requires PieceOk(p) { p.Hex4? && 0xdc00 <= UnitOf(p) <= 0xdfff }

  /** Reading left to right, some surrogate escape has no partner. */
  predicate HasLoneSurrogate(ps: seq<Piece>)
    requires PiecesOk(ps)
  {
    |ps| > 0 &&
    if IsHigh(ps[0]) then (if |ps| > 1 && IsLow(ps[1]) then HasLoneSurrogate(ps[2..]) else true)
    else IsLow(ps[0]) || HasLoneSurrogate(ps[1..])
  }

  /** Escape `i` is a surrogate without a partner right beside it. */
  predicate LoneAt(ps: seq<Piece>, i: int)
    requires PiecesOk(ps)
  {
    && 0 <= i < |ps|
    && ((IsHigh(ps[i]) && !(i + 1 < |ps| && IsLow(ps[i + 1]))) || (IsLow(ps[i]) && !(i > 0 && IsHigh(ps[i - 1]))))
  }

  /** The left-to-right pairing flags exactly the strings with a surrogate escape that has no partner beside it. */
  lemma {:induction false} LoneSurrogateIff(ps: seq<Piece>)
    requires PiecesOk(ps)
    ensures HasLoneSurrogate(ps) <==> exists i :: LoneAt(ps, i)
  {
    hide UnitOf;
    if |ps| > 0 {
      if IsHigh(ps[0]) && !(|ps| > 1 && IsLow(ps[1])) {
        assert LoneAt(ps, 0);
      } else if IsLow(ps[0]) {
        HighIsNotLow(ps[0]);
        assert LoneAt(ps, 0);
      } else {
        var n := if IsHigh(ps[0]) then 2 else 1;
        LoneSurrogateIff(ps[n..]);
        LoneBehind(ps, n);
      }
    }
  }

  lemma HighIsNotLow(p: Piece)
    requires PieceOk(p)
    ensures !(IsHigh(p) && IsLow(p))
  {
  }

  lemma LoneBehind(ps: seq<Piece>, n: nat)
    requires PiecesOk(ps) && 1 <= n <= 2 && n <= |ps|
    requires if n == 1 then !IsHigh(ps[0]) && !IsLow(ps[0]) else IsHigh(ps[0]) && IsLow(ps[1])
    ensures (exists i :: LoneAt(ps, i)) <==> (exists i :: LoneAt(ps[n..], i))
  {
    hide UnitOf, IsHigh, IsLow, PieceOk;
    forall p | PieceOk(p) ensures !(IsHigh(p) && IsLow(p)) { HighIsNotLow(p); }
    assert forall i :: 0 <= i < |ps[n..]| ==> ps[n..][i] == ps[i + n];
    if i :| LoneAt(ps[n..], i) { assert LoneAt(ps, i + n); }
    if i :| LoneAt(ps, i) {
      assert i >= n;
      assert LoneAt(ps[n..], i - n);
    }
  }

  /** The string decodes, and to a text that normalization would change. */
  predicate NotNormal(lib: Library, us: seq<Unit>) {
    var decoded := DecodeUnits(us, TextDecode);
    decoded.Some? && !lib.normal(decoded.value)
  }

  function StringFindings(lib: Library, ps: seq<Piece>, pointer: Text, offset: nat): (fs: seq<Finding>)
    requires PiecesOk(ps)
    ensures forall i :: 0 <= i < |fs| ==> fs[i].pointer == pointer && !fs[i].DuplicateMemberName?
  {
    (if HasLoneSurrogate(ps) then [LoneSurrogateEscape(pointer, offset)] else []) +
    (if NotNormal(lib, Units(ps)) then [NonNfcString(pointer, offset)] else [])
  }

  /**
   * A string is reported for a surrogate escape without a partner beside it and, apart from the two exclusions, for
   * an RFC 8259 value that is not in normal form; a string without a value is not reported for that.
   */
  lemma StringReportsMean(lib: Library, ps: seq<Piece>, pointer: Text, offset: nat)
    requires PiecesOk(ps)
    ensures LoneSurrogateEscape(pointer, offset) in StringFindings(lib, ps, pointer, offset) <==>
            exists i :: LoneAt(ps, i)
    ensures NoByteLikeEscape(ps) && NoDroppedBom(Units(ps)) ==>
              (NonNfcString(pointer, offset) in StringFindings(lib, ps, pointer, offset) <==>
              StringValue(ps).Some? && !lib.normal(StringValue(ps).value))
  {
    hide DecodeUnits, StringValue, Units, NoByteLikeEscape, NoDroppedBom, HasLoneSurrogate, LoneAt, PiecesOk;
    LoneSurrogateIff(ps);
    if NoByteLikeEscape(ps) && NoDroppedBom(Units(ps)) {
      DecodeWithoutBom(Units(ps));
      UnitsDecodeToValue(ps);
    }
  }

  /******** Numbers ********/

  predicate Overflows(lib: Library, literal: seq<Byte>) {
    !Exact.Finite(lib.round(literal))
  }

  predicate Underflows(lib: Library, literal: seq<Byte>) {
    !Overflows(lib, literal) && Exact.IsZero(lib.round(literal)) && Exact.LiteralToExactDecimal(literal).digits != 0
  }

  predicate Compared(lib: Library, literal: seq<Byte>) {
    !Overflows(lib, literal) && !Underflows(lib, literal)
  }

  predicate Inexact(lib: Library, literal: seq<Byte>) {
    Compared(lib, literal) && Exact.LiteralEqualsDouble(literal, lib.round(literal)) == Some(false)
  }

  predicate RoundTrips(lib: Library, literal: seq<Byte>) {
    Exact.SameExactDecimalValue(literal, lib.render(lib.round(literal)))
  }

  predicate Large(lib: Library, literal: seq<Byte>) {
    var magnitude := Exact.AbsoluteIntegerValue(Exact.LiteralToExactDecimal(literal));
    Compared(lib, literal) && magnitude.Some? && magnitude.value > MAX_SAFE_INTEGER
  }

  predicate WrittenAsInteger(n: Number) { n.frac.None? && n.exp.None? }

  function NumberFindings(lib: Library, n: Number, pointer: Text, offset: nat): (fs: seq<Finding>)
    ensures forall i :: 0 <= i < |fs| ==> fs[i].pointer == pointer && !fs[i].DuplicateMemberName?
  {
    var literal := RenderNumber(n);
    if Overflows(lib, literal) then [OverflowToInfinity(pointer, offset)]
    else if Underflows(lib, literal) then [UnderflowToZero(pointer, offset)]
    else
      (if RoundTrips(lib, literal) then [] else [NonRoundTripping(pointer, offset, Inexact(lib, literal))]) +
      (if Large(lib, literal) && WrittenAsInteger(n) then [UnsafeMagnitude(pointer, offset)] else [])
  }

  function NumberCounts(lib: Library, n: Number): (c: Counts)
    ensures c.members == 0 && c.strings == 0 && c.numbers == 1
  {
    Counts(0, 0, 1, if Inexact(lib, RenderNumber(n)) then 1 else 0, if Large(lib, RenderNumber(n)) then 1 else 0)
  }

  /** What the reports on a number say about the value written and the double it is rounded to. */
  lemma NumberReportsMean(lib: Library, n: Number, pointer: Text, offset: nat)
    requires NumberOk(n)
    ensures var fs, counts, bits := NumberFindings(lib, n, pointer, offset), NumberCounts(lib, n),
            lib.round(RenderNumber(n));
            var value := Exact.LiteralValue(n);
            var compared := Exact.Finite(bits) && !(value != 0.0 && Exact.IsZero(bits));
            && (OverflowToInfinity(pointer, offset) in fs <==> !Exact.Finite(bits))
            && (UnderflowToZero(pointer, offset) in fs <==> Exact.Finite(bits) && Exact.IsZero(bits) && value != 0.0)
            && (counts.inexact == 1 <==> compared && value != Exact.DoubleValue(bits))
            && (counts.large == 1 <==>
                compared && -4096 <= Exact.LiteralToExactDecimal(RenderNumber(n)).exponent <= 4096
                && !(-9007199254740992.0 < value < 9007199254740992.0))
            && (UnsafeMagnitude(pointer, offset) in fs <==>
                compared && WrittenAsInteger(n) && Exact.DigitsValue(n.whole) > 9007199254740991)
            && (NonRoundTripping(pointer, offset, true) in fs <==>
                  compared && !RoundTrips(lib, RenderNumber(n)) && value != Exact.DoubleValue(bits))
            && (NonRoundTripping(pointer, offset, false) in fs <==>
                  compared && !RoundTrips(lib, RenderNumber(n)) && value == Exact.DoubleValue(bits))
  {
    hide Exact.LiteralToExactDecimal, Exact.LiteralValue, Exact.DoubleValue, RenderNumber, NumberOk,
      Exact.LiteralEqualsDouble, RoundTrips,
      Exact.AbsoluteIntegerValue, Exact.DigitsValue, Exact.Finite, Exact.IsZero;
    var literal := RenderNumber(n);
    Exact.LiteralIsExact(n);
    Exact.ZeroValue(Exact.LiteralToExactDecimal(literal));
    Exact.LiteralEqualsDoubleIff(n, lib.round(literal));
    Exact.MagnitudeIsTruncated(Exact.LiteralToExactDecimal(literal));
    if WrittenAsInteger(n) { Exact.IntegerLiteralMagnitude(n); }
  }

  /**
   * If doubles are rendered as literals, a round trip keeps the written value, unless the exponents lie too far apart.
   */
  lemma RoundTripsIff(lib: Library, n: Number, m: Number)
    requires NumberOk(n) && NumberOk(m) && lib.render(lib.round(RenderNumber(n))) == RenderNumber(m)
    ensures RoundTrips(lib, RenderNumber(n)) <==>
            Exact.LiteralValue(n) == Exact.LiteralValue(m) && !Exact.SpreadTooWide(RenderNumber(n), RenderNumber(m))
  {
    hide RenderNumber, NumberOk, Exact.LiteralValue, Exact.SpreadTooWide, Exact.SameExactDecimalValue;
    Exact.SameExactDecimalValueIff(n, m);
  }
}
