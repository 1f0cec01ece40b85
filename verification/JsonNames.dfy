/** String values and decoded member names: where the decoder agrees with RFC 8259, and where it does not. */
module JsonNames {
  import opened Prelude
  import opened JsonGrammar

  /** A UTF-16 code unit, and a JavaScript string. */
  type Unit = u: int | 0 <= u < 0x10000

  type Text = seq<Unit>

  /******** Decoding strings ********/

  function ShortUnit(b: Byte): Unit {
    match b
    case 0x62 => 0x08
    case 0x66 => 0x0c
    case 0x6e => 0x0a
    case 0x72 => 0x0d
    case 0x74 => 0x09
    case _ => b
  }

  /** The unit the scanner pushes for a piece: a raw byte stays a byte. */
  function UnitOf(p: Piece): Unit
    requires PieceOk(p)
  {
    match p
    case Raw(b) => b
    case Short(b) => ShortUnit(b)
    case Hex4(a, b, c, d) => ((HexValue(a) * 16 + HexValue(b)) * 16 + HexValue(c)) * 16 + HexValue(d)
  }

  function Units(ps: seq<Piece>): (us: seq<Unit>)
    requires PiecesOk(ps)
    ensures |us| == |ps|
  {
    if |ps| == 0 then [] else [UnitOf(ps[0])] + Units(ps[1..])
  }

  predicate Continues(b: int, low: int, high: int) { low <= b <= high }

  /** The length of the well-formed UTF-8 sequence at the start, or 0. */
  function SequenceLength(s: seq<Unit>): (n: nat)
    ensures n <= 4 && n <= |s|
  {
    if |s| == 0 then 0
    else if s[0] < 0x80 then 1
    else if 0xc2 <= s[0] <= 0xdf then (if |s| >= 2 && Continues(s[1], 0x80, 0xbf) then 2 else 0)
    else if 0xe0 <= s[0] <= 0xef then
      var low, high := if s[0] == 0xe0 then 0xa0 else 0x80, if s[0] == 0xed then 0x9f else 0xbf;
      if |s| >= 3 && Continues(s[1], low, high) && Continues(s[2], 0x80, 0xbf) then 3 else 0
    else if 0xf0 <= s[0] <= 0xf4 then
      var low, high := if s[0] == 0xf0 then 0x90 else 0x80, if s[0] == 0xf4 then 0x8f else 0xbf;
      if |s| >= 4 && Continues(s[1], low, high) && Continues(s[2], 0x80, 0xbf)
          && Continues(s[3], 0x80, 0xbf) then 4 else 0
    else 0
  }

  /** The UTF-16 units of the character at the start. */
  function FirstCharacter(s: seq<Unit>): Text
    requires SequenceLength(s) > 0
  {
    match SequenceLength(s)
    case 1 => [s[0]]
    case 2 => [(s[0] - 0xc0) * 64 + (s[1] - 0x80)]
    case 3 => [(s[0] - 0xe0) * 4096 + (s[1] - 0x80) * 64 + (s[2] - 0x80)]
    case _ =>
      var a: int, b: int, c: int, d: int := s[0], s[1], s[2], s[3];
      var offset := (a - 0xf0) * 262144 + (b - 0x80) * 4096 + (c - 0x80) * 64 + (d - 0x80) - 0x10000;
      [0xd800 + offset / 1024, 0xdc00 + offset % 1024]
  }

  /** Strict UTF-8. */
  function Utf8(s: seq<Unit>): Option<Text> {
    if |s| == 0 then Some([])
    else
      var n := SequenceLength(s);
      if n == 0 then None
      else
        Prepend(FirstCharacter(s), Utf8(s[n..]))
  }

  function Prepend(x: Text, rest: Option<Text>): Option<Text> {
    if rest.None? then None else Some(x + rest.value)
  }

  predicate StartsWithBom(s: seq<Unit>) { |s| >= 3 && s[0] == 0xef && s[1] == 0xbb && s[2] == 0xbf }

  /** A fatal TextDecoder: strict UTF-8, but it drops a byte-order mark at the start. */
  function TextDecode(s: seq<Unit>): Option<Text> {
    if StartsWithBom(s) then Utf8(s[3..]) else Utf8(s)
  }

  /** Dropping the mark does not change what is well formed. */
  lemma TextDecodeIsStrict(s: seq<Unit>)
    ensures TextDecode(s).Some? <==> Utf8(s).Some?
  {
    hide FirstCharacter;
    if StartsWithBom(s) { assert SequenceLength(s) == 3; }
  }

  const BOM: seq<Unit> := [0xef, 0xbb, 0xbf]

  /** Exactly one mark is dropped, and only at the start. */
  lemma OneMarkIsDropped(s: seq<Unit>)
    ensures TextDecode(BOM + s) == Utf8(s) && (!(BOM <= s) ==> TextDecode(s) == Utf8(s))
  {
    hide Utf8;
    assert (BOM + s)[3..] == s;
    assert StartsWithBom(s) ==> s[..3] == BOM;
  }

  /** The number of leading units that fit a byte. */
  function LowLength(us: seq<Unit>): (n: nat)
    ensures n <= |us| && (n < |us| ==> us[n] > 0xff) && forall i :: 0 <= i < n ==> us[i] <= 0xff
  {
    if |us| > 0 && us[0] <= 0xff then 1 + LowLength(us[1..]) else 0
  }

  function Join(left: Option<Text>, unit: Unit, right: Option<Text>): Option<Text> {
    if left.Some? && right.Some? then Some(left.value + [unit] + right.value) else None
  }

  /** Runs of small units are decoded as UTF-8 bytes; larger units are spliced in as they are. */
  function DecodeUnits(us: seq<Unit>, decode: seq<Unit> -> Option<Text>): Option<Text> {
    var n := LowLength(us);
    if n == |us| then decode(us) else Join(decode(us[..n]), us[n], DecodeUnits(us[n + 1..], decode))
  }

  /** The name the scanner compares: the decoded string, or the raw span if it does not decode. */
  function NameOfUnits(us: seq<Unit>, span: seq<Byte>): Text {
    var decoded := DecodeUnits(us, TextDecode);
    if decoded.Some? then decoded.value else span
  }

  function Name(ps: seq<Piece>): Text
    requires PiecesOk(ps)
  {
    NameOfUnits(Units(ps), RenderString(ps))
  }

  /******** Agreement with the string values of RFC 8259 ********/

  function RawLength(ps: seq<Piece>): (n: nat)
    ensures n <= |ps| && (n < |ps| ==> !ps[n].Raw?) && forall i :: 0 <= i < n ==> ps[i].Raw?
  {
    if |ps| > 0 && ps[0].Raw? then 1 + RawLength(ps[1..]) else 0
  }

  /** Section 7 of RFC 8259: raw bytes are UTF-8, every escape is its own code unit. */
  function StringValue(ps: seq<Piece>): Option<Text>
    requires PiecesOk(ps)
  {
    var n := RawLength(ps);
    if n == |ps| then Utf8(Units(ps))
    else Join(Utf8(Units(ps[..n])), UnitOf(ps[n]), StringValue(ps[n + 1..]))
  }

  /** No escape for U+0080 to U+00FF, which the scanner would take for a raw byte. */
  predicate NoByteLikeEscape(ps: seq<Piece>)
    requires PiecesOk(ps)
  {
    forall i :: 0 <= i < |ps| && ps[i].Hex4? ==> !(0x80 <= UnitOf(ps[i]) <= 0xff)
  }

  /** No run of small units starts with a byte-order mark, which the decoder would drop. */
  predicate NoDroppedBom(us: seq<Unit>) {
    var n := LowLength(us);
    !StartsWithBom(us[..n]) && (n < |us| ==> NoDroppedBom(us[n + 1..]))
  }

  lemma ShortUnitIsAscii(b: Byte)
    requires IsShortEscape(b)
    ensures ShortUnit(b) < 0x80
  {
  }

  lemma CharacterIsLocal(a: seq<Unit>, c: Unit, b: seq<Unit>)
    requires c < 0x80 && |a| > 0
    ensures SequenceLength(a + ([c] + b)) == SequenceLength(a)
    ensures SequenceLength(a) > 0 ==> FirstCharacter(a + ([c] + b)) == FirstCharacter(a)
  {
    var s := a + ([c] + b);
    assert s[0] == a[0];
    assert |a| > 1 ==> s[1] == a[1];
    assert |a| > 2 ==> s[2] == a[2];
    assert |a| > 3 ==> s[3] == a[3];
    assert s[|a|] == c;
  }

  lemma JoinPrefix(x: Text, l: Option<Text>, u: Unit, r: Option<Text>)
    ensures Prepend(x, Join(l, u, r)) == Join(Prepend(x, l), u, r)
  {
    if l.Some? && r.Some? { assert x + (l.value + [u] + r.value) == (x + l.value) + [u] + r.value; }
  }

  lemma Utf8Step(s: seq<Unit>)
    requires |s| > 0
    ensures Utf8(s) == if SequenceLength(s) == 0 then None else Prepend(FirstCharacter(s), Utf8(s[SequenceLength(s)..]))
  {
  }

  lemma AsciiCharacter(c: Unit, b: seq<Unit>)
    requires c < 0x80
    ensures SequenceLength([c] + b) == 1 && FirstCharacter([c] + b) == [c]
  {
  }

  lemma NothingIsUtf8()
    ensures Utf8([]) == Some([])
  {
  }

  lemma AsciiFirst(c: Unit, b: seq<Unit>)
    requires c < 0x80
    ensures Utf8([] + ([c] + b)) == Join(Utf8([]), c, Utf8(b))
  {
    hide Utf8, SequenceLength, FirstCharacter;
    var s := [] + ([c] + b);
    assert s == [c] + b && s[1..] == b;
    AsciiCharacter(c, b);
    Utf8Step(s);
    NothingIsUtf8();
    if Utf8(b).Some? { assert [] + [c] + Utf8(b).value == [c] + Utf8(b).value; }
  }

  /** An ASCII unit separates UTF-8 text: what stands on its two sides decodes by itself. */
  lemma {:induction false} Utf8SplitsAtAscii(a: seq<Unit>, c: Unit, b: seq<Unit>)
    requires c < 0x80
    ensures Utf8(a + ([c] + b)) == Join(Utf8(a), c, Utf8(b))
  {
    hide Utf8, SequenceLength, FirstCharacter, Prepend;
    if |a| == 0 {
      AsciiFirst(c, b);
    } else {
      var s, n := a + ([c] + b), SequenceLength(a);
      CharacterIsLocal(a, c, b);
      Utf8Step(a);
      Utf8Step(s);
      if n > 0 {
        assert s[n..] == a[n..] + ([c] + b);
        Utf8SplitsAtAscii(a[n..], c, b);
        JoinPrefix(FirstCharacter(a), Utf8(a[n..]), c, Utf8(b));
      }
    }
  }

  lemma {:induction false} DecodeWithoutBom(us: seq<Unit>)
    requires NoDroppedBom(us)
    ensures DecodeUnits(us, TextDecode) == DecodeUnits(us, Utf8)
  {
    hide Utf8, SequenceLength, FirstCharacter;
    var n := LowLength(us);
    assert us[..|us|] == us;
    if n < |us| {
      DecodeWithoutBom(us[n + 1..]);
    }
  }

  lemma {:induction false} UnitsAt(ps: seq<Piece>, i: nat)
    requires PiecesOk(ps) && i < |ps|
    ensures Units(ps)[i] == UnitOf(ps[i])
  {
    if i > 0 { UnitsAt(ps[1..], i - 1); }
  }

  lemma PartsOk(ps: seq<Piece>, n: nat)
    requires PiecesOk(ps) && n < |ps|
    ensures PieceOk(ps[n]) && PiecesOk(ps[..n]) && PiecesOk(ps[n + 1..])
  {
  }

  lemma {:induction false} UnitsCut(ps: seq<Piece>, n: nat)
    requires PiecesOk(ps) && n < |ps|
    ensures Units(ps) == Units(ps[..n]) + ([UnitOf(ps[n])] + Units(ps[n + 1..]))
  {
    hide UnitOf, PiecesOk;
    PartsOk(ps, n);
    if n > 0 {
      PartsOk(ps, 0);
      PartsOk(ps[1..], n - 1);
      assert ps[..n][1..] == ps[1..][..n - 1] && ps[n + 1..] == ps[1..][n..] && ps[..n][0] == ps[0];
      UnitsCut(ps[1..], n - 1);
      Nest([UnitOf(ps[0])], Units(ps[1..][..n - 1]), [UnitOf(ps[n])] + Units(ps[n + 1..]));
    } else {
      assert [] + ([UnitOf(ps[0])] + Units(ps[1..])) == [UnitOf(ps[0])] + Units(ps[1..]);
    }
  }

  lemma LowPrefix(a: seq<Unit>, rest: seq<Unit>)
    requires forall i :: 0 <= i < |a| ==> a[i] <= 0xff
    ensures LowLength(a + rest) == |a| + LowLength(rest)
  {
    if |a| == 0 {
      assert a + rest == rest;
    } else {
      assert (a + rest)[1..] == a[1..] + rest;
      LowPrefix(a[1..], rest);
    }
  }

  lemma LowFirst(u: Unit, rest: seq<Unit>)
    ensures LowLength([u] + rest) == if u <= 0xff then 1 + LowLength(rest) else 0
  {
    assert ([u] + rest)[1..] == rest;
  }

  /** Splitting a decode at a small ASCII unit or at a large unit gives the same. */
  lemma DecodeSplits(a: seq<Unit>, u: Unit, rest: seq<Unit>)
    requires (forall i :: 0 <= i < |a| ==> a[i] <= 0xff) && (u < 0x80 || u > 0xff)
    ensures DecodeUnits(a + ([u] + rest), Utf8) == Join(Utf8(a), u, DecodeUnits(rest, Utf8))
  {
    hide Utf8, DecodeUnits, LowLength, Join;
    var us := a + ([u] + rest);
    LowPrefix(a, [u] + rest);
    LowFirst(u, rest);
    DecodeStep(us);
    if u > 0xff {
      assert us[..|a|] == a && us[|a| + 1..] == rest;
    } else {
      DecodeStep(rest);
      DecodeAcrossAscii(a, u, rest, LowLength(rest));
    }
  }

  lemma DecodeStep(us: seq<Unit>)
    ensures var n := LowLength(us);
            DecodeUnits(us, Utf8) == if n == |us| then Utf8(us)
                else Join(Utf8(us[..n]), us[n], DecodeUnits(us[n + 1..], Utf8))
  {
    hide Utf8, Join, LowLength;
  }

  lemma DecodeAcrossAscii(a: seq<Unit>, u: Unit, rest: seq<Unit>, m: nat)
    requires u < 0x80 && m <= |rest|
    ensures var us, n := a + ([u] + rest), |a| + 1 + m;
            (if n == |us| then Utf8(us) else Join(Utf8(us[..n]), us[n], DecodeUnits(us[n + 1..], Utf8))) ==
            Join(Utf8(a), u, if m == |rest| then Utf8(rest) else Join(Utf8(rest[..m]), rest[m],
                DecodeUnits(rest[m + 1..], Utf8)))
  {
    hide Utf8, DecodeUnits, Join;
    var us, n := a + ([u] + rest), |a| + 1 + m;
    Utf8SplitsAtAscii(a, u, rest[..m]);
    assert us[..n] == a + ([u] + rest[..m]);
    if m < |rest| {
      assert us[n + 1..] == rest[m + 1..] && us[n] == rest[m];
      JoinAssociates(Utf8(a), u, Utf8(rest[..m]), rest[m], DecodeUnits(rest[m + 1..], Utf8));
    } else {
      assert rest[..m] == rest && us[..n] == us;
    }
  }

  lemma JoinAssociates(x: Option<Text>, u: Unit, y: Option<Text>, v: Unit, z: Option<Text>)
    ensures Join(Join(x, u, y), v, z) == Join(x, u, Join(y, v, z))
  {
    if x.Some? && y.Some? && z.Some? {
      assert (x.value + [u] + y.value) + [v] + z.value == x.value + [u] + (y.value + [v] + z.value);
    }
  }

  lemma StringValueStep(ps: seq<Piece>)
    requires PiecesOk(ps)
    ensures var n := RawLength(ps);
            StringValue(ps) == if n == |ps| then Utf8(Units(ps))
                else Join(Utf8(Units(ps[..n])), UnitOf(ps[n]), StringValue(ps[n + 1..]))
  {
    hide Utf8, Units, UnitOf, RawLength;
  }

  lemma RawUnitsAreLow(ps: seq<Piece>)
    requires PiecesOk(ps) && forall i :: 0 <= i < |ps| ==> ps[i].Raw?
    ensures LowLength(Units(ps)) == |ps| && forall i :: 0 <= i < |ps| ==> Units(ps)[i] <= 0xff
  {
    hide Units, LowLength;
    forall i | 0 <= i < |ps| ensures Units(ps)[i] <= 0xff { UnitsAt(ps, i); }
    LowPrefix(Units(ps), []);
    assert Units(ps) + [] == Units(ps);
    NothingLow();
  }

  lemma NothingLow()
    ensures LowLength([]) == 0
  {
  }

  lemma EscapedUnit(p: Piece)
    requires PieceOk(p) && !p.Raw?
    ensures p.Short? ==> UnitOf(p) < 0x80
  {
    if p.Short? { ShortUnitIsAscii(p.b); }
  }

  lemma {:induction false} UnitsDecodeToValue(ps: seq<Piece>)
    requires PiecesOk(ps) && NoByteLikeEscape(ps)
    ensures DecodeUnits(Units(ps), Utf8) == StringValue(ps)
  {
    hide Utf8, DecodeUnits, StringValue, Units, UnitOf;
    var n := RawLength(ps);
    StringValueStep(ps);
    if n == |ps| {
      RawUnitsAreLow(ps);
      DecodeStep(Units(ps));
    } else {
      RawUnitsAreLow(ps[..n]);
      UnitsCut(ps, n);
      EscapedUnit(ps[n]);
      UnitsDecodeToValue(ps[n + 1..]);
      DecodeSplits(Units(ps[..n]), UnitOf(ps[n]), Units(ps[n + 1..]));
    }
  }

  /** Apart from the two exclusions, the scanner's name of a valid string is its RFC 8259 value. */
  lemma NameIsStringValue(ps: seq<Piece>)
    requires PiecesOk(ps) && NoByteLikeEscape(ps) && NoDroppedBom(Units(ps)) && StringValue(ps).Some?
    ensures Name(ps) == StringValue(ps).value
  {
    DecodeWithoutBom(Units(ps));
    UnitsDecodeToValue(ps);
  }

  /******** Exactly when the name is the value ********/

  function Sum(us: seq<Unit>, f: Unit -> int): int {
    if |us| == 0 then 0 else f(us[0]) + Sum(us[1..], f)
  }

  lemma {:induction false} SumAppend(a: seq<Unit>, b: seq<Unit>, f: Unit -> int)
    ensures Sum(a + b, f) == Sum(a, f) + Sum(b, f)
  {
    if |a| == 0 {
      assert a + b == b;
    } else {
      assert (a + b)[1..] == a[1..] + b;
      SumAppend(a[1..], b, f);
    }
  }

  /** How many UTF-16 units a byte of well-formed UTF-8 accounts for; a larger unit is itself. */
  function Weight(u: Unit): int {
    if u < 0x80 then 1 else if u < 0xc0 then 0 else if u < 0xf0 then 1 else if u <= 0xff then 2 else 1
  }

  /** How many continuation bytes a byte asks for; a continuation byte supplies one. */
  function Balance(u: Unit): int {
    if u < 0x80 || u > 0xff then 0 else if u < 0xc0 then -1 else if u < 0xe0 then 1 else if u < 0xf0 then 2 else 3
  }

  lemma NothingSummed()
    ensures Sum([], Weight) == 0 && Sum([], Balance) == 0
  {
  }

  lemma CharacterSums(s: seq<Unit>)
    requires SequenceLength(s) > 0
    ensures var head := s[..SequenceLength(s)];
            Sum(head, Weight) == |FirstCharacter(s)| && Sum(head, Balance) == 0 && |FirstCharacter(s)| <= |head|
  {
    var n := SequenceLength(s);
    SumOfFour(s[..n], Weight);
    SumOfFour(s[..n], Balance);
  }

  lemma SumOfFour(s: seq<Unit>, f: Unit -> int)
    requires 1 <= |s| <= 4
    ensures Sum(s, f) == f(s[0]) + (if |s| > 1 then f(s[1]) else 0) + (if |s| > 2 then f(s[2]) else 0) +
            (if |s| > 3 then f(s[3]) else 0)
  {
    assert |s| > 1 ==> s[1..][0] == s[1];
    assert |s| > 2 ==> s[1..][1..] == s[2..] && s[2..][0] == s[2];
    assert |s| > 3 ==> s[2..][1..] == s[3..] && s[3..][0] == s[3];
    assert |s| == 1 ==> s[1..] == [];
    assert |s| == 2 ==> s[2..] == [];
    assert |s| == 3 ==> s[2..][1..] == [];
    assert |s| == 4 ==> s[3..][1..] == [];
  }

  /** Well-formed UTF-8 is balanced, and its weight is the length of the decoded text. */
  lemma {:induction false} Utf8Sums(s: seq<Unit>)
    requires Utf8(s).Some?
    ensures |Utf8(s).value| == Sum(s, Weight) && Sum(s, Balance) == 0 && |Utf8(s).value| <= |s|
  {
    hide SequenceLength, FirstCharacter, Weight, Balance, Utf8, Sum;
    NothingSummed();
    NothingIsUtf8();
    if |s| > 0 {
      var n := SequenceLength(s);
      Utf8Step(s);
      CharacterSums(s);
      Utf8Sums(s[n..]);
      assert s == s[..n] + s[n..];
      SumAppend(s[..n], s[n..], Weight);
      SumAppend(s[..n], s[n..], Balance);
    }
  }

  /** A dropped byte-order mark is balanced and costs one unit. */
  lemma TextDecodeSums(s: seq<Unit>)
    requires TextDecode(s).Some?
    ensures |TextDecode(s).value| == Sum(s, Weight) - (if StartsWithBom(s) then 1 else 0) && Sum(s, Balance) == 0
  {
    hide Utf8, Sum;
    if StartsWithBom(s) {
      Utf8Sums(s[3..]);
      assert s == s[..3] + s[3..];
      SumAppend(s[..3], s[3..], Weight);
      SumAppend(s[..3], s[3..], Balance);
      SumOfFour(s[..3], Weight);
      SumOfFour(s[..3], Balance);
    } else {
      Utf8Sums(s);
    }
  }

  /** How many runs lose a byte-order mark. */
  function DroppedBoms(us: seq<Unit>): (n: nat)
    ensures n == 0 <==> NoDroppedBom(us)
  {
    var n := LowLength(us);
    (if StartsWithBom(us[..n]) then 1 else 0) + (if n < |us| then DroppedBoms(us[n + 1..]) else 0)
  }

  lemma CutAround<T>(s: seq<T>, n: nat)
    requires n <= |s|
    ensures s[..|s|] == s && (n < |s| ==> s == s[..n] + ([s[n]] + s[n + 1..]))
  {
  }

  lemma DecodeTextStep(us: seq<Unit>)
    ensures var n := LowLength(us);
            DecodeUnits(us, TextDecode) ==
            if n == |us| then TextDecode(us) else Join(TextDecode(us[..n]), us[n], DecodeUnits(us[n + 1..], TextDecode))
  {
    hide TextDecode, LowLength, Join;
  }

  lemma DroppedBomsStep(us: seq<Unit>)
    ensures var n := LowLength(us);
            DroppedBoms(us) == (if StartsWithBom(us[..n]) then 1 else 0) +
                (if n < |us| then DroppedBoms(us[n + 1..]) else 0)
  {
    hide StartsWithBom, LowLength, NoDroppedBom;
  }

  lemma SumAround(a: seq<Unit>, u: Unit, b: seq<Unit>, f: Unit -> int)
    ensures Sum(a + ([u] + b), f) == Sum(a, f) + f(u) + Sum(b, f)
  {
    hide Sum;
    SumAppend(a, [u] + b, f);
    SumAppend([u], b, f);
    SumOfFour([u], f);
  }

  lemma {:induction false} DecodeSums(us: seq<Unit>)
    requires DecodeUnits(us, TextDecode).Some?
    ensures |DecodeUnits(us, TextDecode).value| == Sum(us, Weight) - DroppedBoms(us) && Sum(us, Balance) == 0
  {
    hide TextDecode, Sum, StartsWithBom, DecodeUnits, DroppedBoms, LowLength;
    var n := LowLength(us);
    CutAround(us, n);
    DecodeTextStep(us);
    DroppedBomsStep(us);
    TextDecodeSums(us[..n]);
    if n < |us| {
      DecodeSums(us[n + 1..]);
      SumAround(us[..n], us[n], us[n + 1..], Weight);
      SumAround(us[..n], us[n], us[n + 1..], Balance);
    }
  }

  predicate ByteLike(p: Piece)
    requires PieceOk(p)
  {
    p.Hex4? && 0x80 <= UnitOf(p) <= 0xff
  }

  /** A sum over the byte-like escapes alone. */
  function EscapeSum(ps: seq<Piece>, f: Unit -> int): int
    requires PiecesOk(ps)
  {
    if |ps| == 0 then 0 else (if ByteLike(ps[0]) then f(UnitOf(ps[0])) else 0) + EscapeSum(ps[1..], f)
  }

  lemma {:induction false} EscapeSumCut(ps: seq<Piece>, n: nat, f: Unit -> int)
    requires PiecesOk(ps) && n < |ps| && forall i :: 0 <= i < n ==> ps[i].Raw?
    ensures EscapeSum(ps, f) == (if ByteLike(ps[n]) then f(UnitOf(ps[n])) else 0) + EscapeSum(ps[n + 1..], f)
  {
    if n > 0 {
      EscapeSumCut(ps[1..], n - 1, f);
      assert ps[1..][n..] == ps[n + 1..];
    }
  }

  lemma {:induction false} NoEscapeSum(ps: seq<Piece>, f: Unit -> int)
    requires PiecesOk(ps) && forall i :: 0 <= i < |ps| ==> ps[i].Raw?
    ensures EscapeSum(ps, f) == 0
  {
    if |ps| > 0 { NoEscapeSum(ps[1..], f); }
  }

  /** The units an escape has beyond its weight as a byte. */
  function Deficit(u: Unit): int { 1 - Weight(u) }

  lemma UnitsSum(ps: seq<Piece>, n: nat, f: Unit -> int)
    requires PiecesOk(ps) && n < |ps|
    ensures Sum(Units(ps), f) == Sum(Units(ps[..n]), f) + f(UnitOf(ps[n])) + Sum(Units(ps[n + 1..]), f)
  {
    hide Sum, UnitOf, Units;
    UnitsCut(ps, n);
    SumAround(Units(ps[..n]), UnitOf(ps[n]), Units(ps[n + 1..]), f);
  }

  lemma EscapeAddsUp(p: Piece)
    requires PieceOk(p) && !p.Raw?
    ensures Weight(UnitOf(p)) + (if ByteLike(p) then Deficit(UnitOf(p)) else 0) == 1
    ensures Balance(UnitOf(p)) == if ByteLike(p) then Balance(UnitOf(p)) else 0
  {
    if p.Short? { ShortUnitIsAscii(p.b); }
  }

  /** The value is longer than the bytes weigh by the deficit of the byte-like escapes; only they can be unbalanced. */
  lemma {:induction false} ValueSums(ps: seq<Piece>)
    requires PiecesOk(ps) && StringValue(ps).Some?
    ensures |StringValue(ps).value| == Sum(Units(ps), Weight) + EscapeSum(ps, Deficit)
    ensures Sum(Units(ps), Balance) == EscapeSum(ps, Balance) && |StringValue(ps).value| <= |ps|
  {
    hide Sum, Utf8, UnitOf, Units, EscapeSum, Weight, Balance, Deficit, ByteLike;
    var n := RawLength(ps);
    if n == |ps| {
      Utf8Sums(Units(ps));
      NoEscapeSum(ps, Deficit);
      NoEscapeSum(ps, Balance);
    } else {
      Utf8Sums(Units(ps[..n]));
      ValueSums(ps[n + 1..]);
      UnitsSum(ps, n, Weight);
      UnitsSum(ps, n, Balance);
      EscapeSumCut(ps, n, Deficit);
      EscapeSumCut(ps, n, Balance);
      EscapeAddsUp(ps[n]);
    }
  }

  /** Balanced byte-like escapes lose units, unless there are none. */
  lemma {:induction false} EscapesLose(ps: seq<Piece>)
    requires PiecesOk(ps)
    ensures EscapeSum(ps, Deficit) + EscapeSum(ps, Balance) >= 0
    ensures EscapeSum(ps, Deficit) + EscapeSum(ps, Balance) == 0 ==> EscapeSum(ps, Balance) <= 0
    ensures EscapeSum(ps, Deficit) + EscapeSum(ps, Balance) == 0 && EscapeSum(ps, Balance) == 0 ==> NoByteLikeEscape(ps)
  {
    hide UnitOf;
    if |ps| > 0 {
      EscapesLose(ps[1..]);
      assert forall i :: 0 < i < |ps| ==> ps[i] == ps[1..][i - 1];
    }
  }

  lemma {:induction false} RenderedLength(ps: seq<Piece>)
    ensures |RenderPieces(ps)| >= |ps|
  {
    if |ps| > 0 { RenderedLength(ps[1..]); }
  }

  /**
   * The scanner's name of a valid string is its RFC 8259 value exactly when no escape denotes U+0080
   * to U+00FF and no run of small units starts with a byte-order mark.
   */
  lemma NameIsStringValueIff(ps: seq<Piece>)
    requires PiecesOk(ps) && StringValue(ps).Some?
    ensures Name(ps) == StringValue(ps).value <==> NoByteLikeEscape(ps) && NoDroppedBom(Units(ps))
  {
    hide DecodeUnits, StringValue, Units, RenderPieces, NoByteLikeEscape, NoDroppedBom, Sum, EscapeSum, PiecesOk;
    if NoByteLikeEscape(ps) && NoDroppedBom(Units(ps)) {
      NameIsStringValue(ps);
    } else {
      ValueSums(ps);
      RenderedLength(ps);
      if DecodeUnits(Units(ps), TextDecode).Some? {
        DecodeSums(Units(ps));
        EscapesLose(ps);
        assert |Name(ps)| < |StringValue(ps).value|;
      } else {
        assert |Name(ps)| > |StringValue(ps).value|;
      }
    }
  }

  /** Both exclusions are needed: these two names have different values and the same decoded name. */
  lemma ExclusionsAreNeeded()
    ensures var bom, plain := [Raw(0xef), Raw(0xbb), Raw(0xbf), Raw(0x61)], [Raw(0x61)];
            PiecesOk(bom) && PiecesOk(plain) && Name(bom) == Name(plain) && StringValue(bom) != StringValue(plain)
    ensures var escaped, raw := [Hex4(0x30, 0x30, 0x63, 0x33), Hex4(0x30, 0x30, 0x61, 0x39)], [Raw(0xc3), Raw(0xa9)];
            PiecesOk(escaped) && PiecesOk(raw) && Name(escaped) == Name(raw) && StringValue(escaped) != StringValue(raw)
  {
    ExclusionBom();
    ExclusionEscape();
  }

  lemma BomUnits()
    ensures var us: seq<Unit>, vs: seq<Unit> := [0xef, 0xbb, 0xbf, 0x61], [0x61];
            && Utf8(vs) == Some(vs) && Utf8(us) == Some([0xfeff] + vs) && Utf8(vs) != Utf8(us)
            && TextDecode(us) == TextDecode(vs) == Some(vs)
  {
    var us: seq<Unit>, vs: seq<Unit> := [0xef, 0xbb, 0xbf, 0x61], [0x61];
    assert us[3..] == vs && vs[1..] == [] && vs + [] == vs;
    assert Utf8(vs) == Some(vs + []);
    assert SequenceLength(us) == 3 && FirstCharacter(us) == [0xfeff];
    Utf8First(us);
    assert |[0xfeff] + vs| != |vs|;
  }

  lemma BomPieces()
    ensures var bom, plain := [Raw(0xef), Raw(0xbb), Raw(0xbf), Raw(0x61)], [Raw(0x61)];
            && PiecesOk(bom) && PiecesOk(plain)
            && Units(bom) == [0xef, 0xbb, 0xbf, 0x61] && Units(plain) == [0x61]
  {
    hide Units;
    var bom, plain := [Raw(0xef), Raw(0xbb), Raw(0xbf), Raw(0x61)], [Raw(0x61)];
    UnitsAt(plain, 0);
    UnitsAt(bom, 0);
    UnitsAt(bom, 1);
    UnitsAt(bom, 2);
    UnitsAt(bom, 3);
  }

  lemma ExclusionBom()
    ensures var bom, plain := [Raw(0xef), Raw(0xbb), Raw(0xbf), Raw(0x61)], [Raw(0x61)];
            PiecesOk(bom) && PiecesOk(plain) && Name(bom) == Name(plain) && StringValue(bom) != StringValue(plain)
  {
    hide Units, UnitOf, PiecesOk, Utf8, TextDecode, StringValue, DecodeUnits;
    BomPieces();
    BomUnits();
    RawPieces([Raw(0xef), Raw(0xbb), Raw(0xbf), Raw(0x61)]);
    RawPieces([Raw(0x61)]);
  }

  lemma Utf8First(s: seq<Unit>)
    requires SequenceLength(s) > 0 && Utf8(s[SequenceLength(s)..]).Some?
    ensures Utf8(s) == Some(FirstCharacter(s) + Utf8(s[SequenceLength(s)..]).value)
  {
  }

  /** A string without escapes: the scanner decodes all of it at once. */
  lemma RawPieces(ps: seq<Piece>)
    requires PiecesOk(ps) && forall i :: 0 <= i < |ps| ==> ps[i].Raw?
    ensures StringValue(ps) == Utf8(Units(ps)) && DecodeUnits(Units(ps), TextDecode) == TextDecode(Units(ps))
  {
    hide Utf8, TextDecode;
    assert RawLength(ps) == |ps|;
    forall i | 0 <= i < |ps| ensures Units(ps)[i] <= 0xff { UnitsAt(ps, i); }
    LowPrefix(Units(ps), []);
    assert Units(ps) + [] == Units(ps);
  }

  lemma TwoUnits()
    ensures PieceOk(Hex4(0x30, 0x30, 0x63, 0x33)) && UnitOf(Hex4(0x30, 0x30, 0x63, 0x33)) == UnitOf(Raw(0xc3)) == 0xc3
    ensures PieceOk(Hex4(0x30, 0x30, 0x61, 0x39)) && UnitOf(Hex4(0x30, 0x30, 0x61, 0x39)) == UnitOf(Raw(0xa9)) == 0xa9
  {
  }

  lemma TwoBytesDecode()
    ensures Utf8([0xc3, 0xa9]) == Some([0xe9])
  {
    var us: seq<Unit> := [0xc3, 0xa9];
    assert us[2..] == [] && FirstCharacter(us) == [0xe9] && [0xe9] + [] == [0xe9];
  }

  lemma ExclusionEscape()
    ensures var escaped, raw := [Hex4(0x30, 0x30, 0x63, 0x33), Hex4(0x30, 0x30, 0x61, 0x39)], [Raw(0xc3), Raw(0xa9)];
            PiecesOk(escaped) && PiecesOk(raw) && Name(escaped) == Name(raw) && StringValue(escaped) != StringValue(raw)
  {
    hide Units, UnitOf, Utf8, StringValue, DecodeUnits;
    var escaped, raw := [Hex4(0x30, 0x30, 0x63, 0x33), Hex4(0x30, 0x30, 0x61, 0x39)], [Raw(0xc3), Raw(0xa9)];
    TwoUnits();
    UnitsAt(escaped, 0);
    UnitsAt(escaped, 1);
    UnitsAt(raw, 0);
    UnitsAt(raw, 1);
    var us: seq<Unit> := [0xc3, 0xa9];
    assert Units(escaped) == us && Units(raw) == us;
    RawPieces(raw);
    TwoBytesDecode();
    ValueOfTwoEscapes(escaped[0], escaped[1]);
  }

  lemma ValueOfTwoEscapes(p: Piece, q: Piece)
    requires PieceOk(p) && PieceOk(q) && p.Hex4? && q.Hex4?
    ensures StringValue([p, q]) == Some([UnitOf(p), UnitOf(q)])
  {
    hide UnitOf;
    assert [p, q][..0] == [] && [p, q][1..] == [q] && [q][..0] == [] && [q][1..] == [];
    assert StringValue([]) == Some([]);
    assert StringValue([q]) == Some([] + [UnitOf(q)] + []);
    assert [] + [UnitOf(q)] + [] == [UnitOf(q)];
    assert StringValue([p, q]) == Some([] + [UnitOf(p)] + [UnitOf(q)]);
    assert [] + [UnitOf(p)] + [UnitOf(q)] == [UnitOf(p), UnitOf(q)];
  }
}
