/** The strict UTF-8 decoder against the encoding of RFC 3629, character by character. */
module JsonUtf8 {
  import opened Prelude
  import opened JsonGrammar
  import opened JsonNames
  import opened JsonReports

  /** A Unicode scalar value. */
  type Scalar = c: int | 0 <= c < 0xd800 || 0xe000 <= c < 0x110000

  /** Section 3 of RFC 3629: one to four bytes, of seven, eleven, sixteen and twenty-one bits. */
  function Encoded(c: Scalar): (s: seq<Unit>)
    ensures |s| > 0
  {
    var n: int := c;
    if n < 0x80 then [n]
    else if n < 0x800 then [0xc0 + n / 64, 0x80 + n % 64]
    else if n < 0x10000 then [0xe0 + n / 4096, 0x80 + n / 64 % 64, 0x80 + n % 64]
    else [0xf0 + n / 262144, 0x80 + n / 4096 % 64, 0x80 + n / 64 % 64, 0x80 + n % 64]
  }

  /** Section 2.1 of RFC 2781: one unit, or a surrogate pair. */
  function InUtf16(c: Scalar): Text {
    var n: int := c;
    if n < 0x10000 then [n] else [0xd800 + (n - 0x10000) / 1024, 0xdc00 + (n - 0x10000) % 1024]
  }

  function Encode(cs: seq<Scalar>): seq<Unit> {
    if |cs| == 0 then [] else Encoded(cs[0]) + Encode(cs[1..])
  }

  function Utf16(cs: seq<Scalar>): Text {
    if |cs| == 0 then [] else InUtf16(cs[0]) + Utf16(cs[1..])
  }

  /** The bytes of one character are recognised whatever follows them. */
  lemma FirstIsEncoded(c: Scalar, rest: seq<Unit>)
    ensures var s := Encoded(c) + rest;
            SequenceLength(s) == |Encoded(c)| && FirstCharacter(s) == InUtf16(c) && s[SequenceLength(s)..] == rest
  {
    var s, n := Encoded(c) + rest, |Encoded(c)|;
    assert s[n..] == rest;
    assert forall i :: 0 <= i < n ==> s[i] == Encoded(c)[i];
    if n == 4 { FourBytes(c); }
    if n == 3 { ThreeBytes(c); }
  }

  lemma ThreeBytes(c: int)
    requires 0x800 <= c < 0x10000
    ensures (c / 4096) * 4096 + (c / 64 % 64) * 64 + c % 64 == c
    ensures c / 4096 == 0 ==> c / 64 % 64 >= 0x20
    ensures c / 4096 == 13 && c < 0xd800 ==> c / 64 % 64 < 0x20
    ensures c >= 0xe000 ==> c / 4096 >= 14
  {
  }

  lemma FourBytes(c: int)
    requires 0x10000 <= c < 0x110000
    ensures (c / 262144) * 262144 + (c / 4096 % 64) * 4096 + (c / 64 % 64) * 64 + c % 64 == c
    ensures 0 <= c / 262144 <= 4 && (c / 262144 == 0 ==> c / 4096 % 64 >= 0x10)
    ensures c / 262144 == 4 ==> c / 4096 % 64 < 0x10
  {
  }

  /** The bits of the bytes are the bits of the number. */
  lemma Joined(a: int, b: int, c: int, d: int)
    requires 0 <= a && 0 <= b < 64 && 0 <= c < 64 && 0 <= d < 64
    ensures (a * 64 + b) / 64 == a && (a * 64 + b) % 64 == b
    ensures var n := a * 4096 + b * 64 + c; n / 4096 == a && n / 64 % 64 == b && n % 64 == c
    ensures var n := a * 262144 + b * 4096 + c * 64 + d;
            n / 262144 == a && n / 4096 % 64 == b && n / 64 % 64 == c && n % 64 == d
  {
  }

  lemma TwoDecode(s: seq<Unit>) returns (c: Scalar)
    requires SequenceLength(s) == 2
    ensures s[..2] == Encoded(c) && FirstCharacter(s) == InUtf16(c)
  {
    var a, b: int := s[0], s[1];
    Joined(a - 0xc0, b - 0x80, 0, 0);
    c := (a - 0xc0) * 64 + (b - 0x80);
  }

  lemma ThreeDecode(s: seq<Unit>) returns (c: Scalar)
    requires SequenceLength(s) == 3
    ensures s[..3] == Encoded(c) && FirstCharacter(s) == InUtf16(c)
  {
    var a: int, b: int, d: int := s[0], s[1], s[2];
    Joined(a - 0xe0, b - 0x80, d - 0x80, 0);
    c := (a - 0xe0) * 4096 + (b - 0x80) * 64 + (d - 0x80);
  }

  lemma FourDecode(s: seq<Unit>) returns (c: Scalar)
    requires SequenceLength(s) == 4
    ensures s[..4] == Encoded(c) && FirstCharacter(s) == InUtf16(c)
  {
    var a: int, b: int, d: int, e: int := s[0], s[1], s[2], s[3];
    Joined(a - 0xf0, b - 0x80, d - 0x80, e - 0x80);
    c := (a - 0xf0) * 262144 + (b - 0x80) * 4096 + (d - 0x80) * 64 + (e - 0x80);
  }

  /** Every recognised sequence is the encoding of one scalar value. */
  lemma FirstDecodes(s: seq<Unit>) returns (c: Scalar)
    requires SequenceLength(s) > 0
    ensures s[..SequenceLength(s)] == Encoded(c) && FirstCharacter(s) == InUtf16(c)
  {
    var n := SequenceLength(s);
    if n == 1 {
      c := s[0];
    } else if n == 2 {
      c := TwoDecode(s);
    } else if n == 3 {
      c := ThreeDecode(s);
    } else {
      c := FourDecode(s);
    }
  }

  lemma {:induction false} DecodesEncoded(cs: seq<Scalar>)
    ensures Utf8(Encode(cs)) == Some(Utf16(cs))
  {
    hide Encoded, InUtf16, SequenceLength, FirstCharacter;
    if |cs| > 0 {
      FirstIsEncoded(cs[0], Encode(cs[1..]));
      DecodesEncoded(cs[1..]);
    }
  }

  lemma {:induction false} EncodesDecoded(s: seq<Unit>) returns (cs: seq<Scalar>)
    requires Utf8(s).Some?
    ensures s == Encode(cs)
  {
    hide Encoded, InUtf16, FirstCharacter, SequenceLength;
    if |s| == 0 {
      cs := [];
    } else {
      var n := SequenceLength(s);
      var c := FirstDecodes(s);
      var rest := EncodesDecoded(s[n..]);
      cs := [c] + rest;
      assert s == s[..n] + s[n..];
    }
  }

  /** Bytes decode exactly when they are the encoding of scalar values, and to the UTF-16 form of those. */
  lemma DecodesExactlyUtf8(s: seq<Unit>, t: Text)
    ensures Utf8(s) == Some(t) <==> exists cs :: s == Encode(cs) && t == Utf16(cs)
  {
    hide Encode, Utf16, Utf8;
    if Utf8(s) == Some(t) {
      var cs := EncodesDecoded(s);
      DecodesEncoded(cs);
    }
    if cs :| s == Encode(cs) && t == Utf16(cs) {
      DecodesEncoded(cs);
    }
  }

  /** A high and a low surrogate escape in this order are exactly the two halves of one character beyond U+FFFF. */
  lemma SurrogatesPairUp(p: Piece, q: Piece)
    requires PieceOk(p) && PieceOk(q) && p.Hex4? && q.Hex4?
    ensures IsHigh(p) && IsLow(q) <==> exists c: Scalar :: c >= 0x10000 && InUtf16(c) == [UnitOf(p), UnitOf(q)]
    ensures IsHigh(p) || IsLow(p) <==> !exists c: Scalar :: InUtf16(c) == [UnitOf(p)]
  {
    hide UnitOf;
    var u: int, v: int := UnitOf(p), UnitOf(q);
    if IsHigh(p) && IsLow(q) {
      var c: Scalar := 0x10000 + (u - 0xd800) * 1024 + (v - 0xdc00);
      assert InUtf16(c) == [UnitOf(p), UnitOf(q)];
    }
    if !IsHigh(p) && !IsLow(p) {
      var c: Scalar := u;
      assert InUtf16(c) == [UnitOf(p)];
    }
  }

  /******** Escapes ********/

  /** What the eight short escapes and the digits of a long one stand for, in characters. */
  lemma EscapesMean()
    ensures forall b: Byte :: IsShortEscape(b) <==> (b as char) in {'"', '\\', '/', 'b', 'f', 'n', 'r', 't'}
    ensures UnitOf(Short('"' as int)) == '"' as int && UnitOf(Short('\\' as int)) == '\\' as int
    ensures UnitOf(Short('/' as int)) == '/' as int
    ensures UnitOf(Short('n' as int)) == '\n' as int && UnitOf(Short('r' as int)) == '\r' as int
    ensures UnitOf(Short('t' as int)) == '\t' as int
    ensures UnitOf(Short('b' as int)) == 8 && UnitOf(Short('f' as int)) == 12
    ensures forall k :: 0 <= k < 16 ==>
              HexValue("0123456789abcdef"[k] as int) == k && HexValue("0123456789ABCDEF"[k] as int) == k
    ensures forall b: Byte :: HexValue(b) >= 0 <==>
              '0' <= b as char <= '9' || 'a' <= b as char <= 'f' || 'A' <= b as char <= 'F'
  {
  }

  lemma Nibble(n: int)
    ensures n == n / 16 * 16 + n % 16
  {
  }

  lemma Nibbles(n: int)
    requires 0 <= n < 0x10000
    ensures n / 4096 < 16 && (n / 4096) * 4096 + (n / 256 % 16) * 256 + (n / 16 % 16) * 16 + n % 16 == n
  {
    Nibble(n);
    Nibble(n / 16);
    Nibble(n / 256);
    assert n / 16 / 16 == n / 256 && n / 256 / 16 == n / 4096;
  }

  /** Four hexadecimal digits are read most significant first. */
  lemma LongEscapeMeans(u: Unit) returns (p: Piece)
    ensures p.Hex4? && PieceOk(p) && UnitOf(p) == u
    ensures HexValue(p.h1) == u / 4096 && HexValue(p.h2) == u / 256 % 16
    ensures HexValue(p.h3) == u / 16 % 16 && HexValue(p.h4) == u % 16
  {
    hide HexValue, HexByte;
    var n: int := u;
    Nibbles(n);
    p := Hex4(HexByte(n / 4096), HexByte(n / 256 % 16), HexByte(n / 16 % 16), HexByte(n % 16));
  }

  function HexByte(k: int): (b: Byte)
    requires 0 <= k < 16
    ensures HexValue(b) == k
  {
    if k < 10 then 0x30 + k else 0x61 + k - 10
  }

  /** The four whitespace characters and the spellings of the three literals. */
  lemma TerminalsMean()
    ensures forall b: Byte :: IsWs(b) <==> (b as char) in {' ', '\t', '\n', '\r'}
    ensures forall b: Byte :: IsDigit(b) <==> (b as char) in {'0', '1', '2', '3', '4', '5', '6', '7', '8', '9'}
    ensures Spells(True, "true") && Spells(False, "false") && Spells(Null, "null")
  {
  }

  ghost predicate Spells(k: Keyword, word: string) {
    |Spelling(k)| == |word| && forall i :: 0 <= i < |word| ==> Spelling(k)[i] as char == word[i]
  }
}
