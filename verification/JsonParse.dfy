/** The scanner's reading of a byte string as a function; JsonAgreement ties it to the grammar. */
module JsonParse {
  import opened Prelude
  import opened JsonGrammar

  datatype Parse<T> = Parsed(tree: T, rest: seq<Byte>) | Malformed

  /** Does the input start with this byte? The end of input starts with none. */
  predicate At(s: seq<Byte>, b: Byte) { |s| > 0 && s[0] == b }

  predicate AtDigit(s: seq<Byte>) { |s| > 0 && IsDigit(s[0]) }

  predicate AtWs(s: seq<Byte>) { |s| > 0 && IsWs(s[0]) }

  function WsLen(s: seq<Byte>): (n: nat)
    ensures n <= |s| && AllWs(s[..n]) && !AtWs(s[n..])
  {
    if AtWs(s) then 1 + WsLen(s[1..]) else 0
  }

  function DigitLen(s: seq<Byte>): (n: nat)
    ensures n <= |s| && AllDigits(s[..n]) && !AtDigit(s[n..]) && (n > 0 <==> AtDigit(s))
  {
    if AtDigit(s) then 1 + DigitLen(s[1..]) else 0
  }

  function ParsePieces(s: seq<Byte>): (r: Parse<seq<Piece>>)
    ensures r.Parsed? ==> |r.rest| < |s|
  {
    if |s| == 0 then Malformed
    else if s[0] == 0x22 then Parsed([], s[1..])
    else if s[0] < 0x20 then Malformed
    else if s[0] != 0x5c then Push(Raw(s[0]), ParsePieces(s[1..]))
    else if |s| < 2 then Malformed
    else if IsShortEscape(s[1]) then Push(Short(s[1]), ParsePieces(s[2..]))
    else if s[1] == 0x75 && |s| >= 6 && PieceOk(Hex4(s[2], s[3], s[4], s[5]))
        then Push(Hex4(s[2], s[3], s[4], s[5]), ParsePieces(s[6..]))
    else Malformed
  }

  function Push(p: Piece, r: Parse<seq<Piece>>): Parse<seq<Piece>> {
    if r.Parsed? then Parsed([p] + r.tree, r.rest) else Malformed
  }

  function ParseWhole(s: seq<Byte>): (r: Parse<seq<Byte>>)
    ensures r.Parsed? ==> |r.rest| < |s|
  {
    if At(s, 0x30) then (if AtDigit(s[1..]) then Malformed else Parsed(s[..1], s[1..]))
    else if AtDigit(s) then Parsed(s[..DigitLen(s)], s[DigitLen(s)..])
    else Malformed
  }

  function ParseFrac(s: seq<Byte>): (r: Parse<Option<seq<Byte>>>)
    ensures r.Parsed? ==> |r.rest| <= |s|
  {
    if !At(s, 0x2e) then Parsed(None, s)
    else
      var n := DigitLen(s[1..]);
      if n == 0 then Malformed else Parsed(Some(s[1..][..n]), s[1..][n..])
  }

  function ParseExp(s: seq<Byte>): (r: Parse<Option<Exponent>>)
    ensures r.Parsed? ==> |r.rest| <= |s|
  {
    if !(At(s, 0x65) || At(s, 0x45)) then Parsed(None, s)
    else
      var t := s[1..];
      var sign := if At(t, 0x2b) || At(t, 0x2d) then Some(t[0]) else None;
      var u := if sign.Some? then t[1..] else t;
      var n := DigitLen(u);
      if n == 0 then Malformed else Parsed(Some(Exponent(s[0], sign, u[..n])), u[n..])
  }

  function ParseNumber(s: seq<Byte>): (r: Parse<Number>)
    ensures r.Parsed? ==> |r.rest| < |s|
  {
    var t := if At(s, 0x2d) then s[1..] else s;
    var whole := ParseWhole(t);
    if whole.Malformed? then Malformed
    else
      var frac := ParseFrac(whole.rest);
      if frac.Malformed? then Malformed
      else
        var exp := ParseExp(frac.rest);
        if exp.Malformed? then Malformed
        else Parsed(Number(At(s, 0x2d), whole.tree, frac.tree, exp.tree), exp.rest)
  }

  function ParseKeyword(s: seq<Byte>, k: Keyword): Parse<Value> {
    if Spelling(k) <= s then Parsed(Word(k), s[|Spelling(k)|..]) else Malformed
  }

  /** `depth` is how many levels of nesting are still allowed, this value included. */
  function ParseValue(s: seq<Byte>, depth: nat): (r: Parse<Value>)
    ensures r.Parsed? ==> |r.rest| < |s|
    decreases |s|, 1
  {
    if depth == 0 || |s| == 0 then Malformed
    else if s[0] == 0x7b then
      var n := WsLen(s[1..]);
      var t := s[1..][n..];
      if At(t, 0x7d) then Parsed(EmptyObject(s[1..][..n]), t[1..])
      else
        var ms := ParseMembers(s[1..], depth - 1);
        if ms.Parsed? then Parsed(Object(ms.tree), ms.rest) else Malformed
    else if s[0] == 0x5b then
      var n := WsLen(s[1..]);
      var t := s[1..][n..];
      if At(t, 0x5d) then Parsed(EmptyArray(s[1..][..n]), t[1..])
      else
        var es := ParseElements(s[1..], depth - 1);
        if es.Parsed? then Parsed(Array(es.tree), es.rest) else Malformed
    else if s[0] == 0x22 then
      var ps := ParsePieces(s[1..]);
      if ps.Parsed? then Parsed(Str(ps.tree), ps.rest) else Malformed
    else if s[0] == 0x74 then ParseKeyword(s, True)
    else if s[0] == 0x66 then ParseKeyword(s, False)
    else if s[0] == 0x6e then ParseKeyword(s, Null)
    else if s[0] == 0x2d || IsDigit(s[0]) then
      var n := ParseNumber(s);
      if n.Parsed? then Parsed(Num(n.tree), n.rest) else Malformed
    else Malformed
  }

  function ParseMember(s: seq<Byte>, depth: nat): (r: Parse<Member>)
    ensures r.Parsed? ==> |r.rest| < |s|
    decreases |s|, 0
  {
    var n := WsLen(s);
    if !At(s[n..], 0x22) then Malformed
    else
      var name := ParsePieces(s[n..][1..]);
      if name.Malformed? then Malformed
      else
        var m := WsLen(name.rest);
        if !At(name.rest[m..], 0x3a) then Malformed
        else
          var t := name.rest[m..][1..];
          var k := WsLen(t);
          var v := ParseValue(t[k..], depth);
          if v.Malformed? then Malformed
          else
            var l := WsLen(v.rest);
            Parsed(Member(s[..n], name.tree, name.rest[..m], t[..k], v.tree, v.rest[..l]), v.rest[l..])
  }

  function ParseMembers(s: seq<Byte>, depth: nat): (r: Parse<Members>)
    ensures r.Parsed? ==> |r.rest| < |s|
    decreases |s|, 1
  {
    var m := ParseMember(s, depth);
    if m.Malformed? then Malformed
    else if At(m.rest, 0x2c) then
      var rest := ParseMembers(m.rest[1..], depth);
      if rest.Parsed? then Parsed(MoreMembers(m.tree, rest.tree), rest.rest) else Malformed
    else if At(m.rest, 0x7d) then Parsed(LastMember(m.tree), m.rest[1..])
    else Malformed
  }

  function ParseElement(s: seq<Byte>, depth: nat): (r: Parse<Element>)
    ensures r.Parsed? ==> |r.rest| < |s|
    decreases |s|, 2
  {
    var n := WsLen(s);
    var v := ParseValue(s[n..], depth);
    if v.Malformed? then Malformed
    else
      var l := WsLen(v.rest);
      Parsed(Element(s[..n], v.tree, v.rest[..l]), v.rest[l..])
  }

  function ParseElements(s: seq<Byte>, depth: nat): (r: Parse<Elements>)
    ensures r.Parsed? ==> |r.rest| < |s|
    decreases |s|, 3
  {
    var e := ParseElement(s, depth);
    if e.Malformed? then Malformed
    else if At(e.rest, 0x2c) then
      var rest := ParseElements(e.rest[1..], depth);
      if rest.Parsed? then Parsed(MoreElements(e.tree, rest.tree), rest.rest) else Malformed
    else if At(e.rest, 0x5d) then Parsed(LastElement(e.tree), e.rest[1..])
    else Malformed
  }

  const MAX_DEPTH: nat := 512

  function ParseDocument(s: seq<Byte>): Option<Document> {
    var n := WsLen(s);
    var v := ParseValue(s[n..], MAX_DEPTH);
    if v.Malformed? then None
    else
      var l := WsLen(v.rest);
      if |v.rest[l..]| > 0 then None else Some(Document(s[..n], v.tree, v.rest[..l]))
  }
}
