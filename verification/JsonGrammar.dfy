/** The grammar of RFC 8259 over bytes (sections 2 to 7, UTF-8 validity aside), as concrete syntax trees. */
module JsonGrammar {
  import opened Prelude

  type Byte = b: int | 0 <= b < 256

  predicate IsWs(b: Byte) { b == 0x20 || b == 0x09 || b == 0x0a || b == 0x0d }

  predicate IsDigit(b: Byte) { 0x30 <= b <= 0x39 }

  /** The value of a hexadecimal digit, or -1. */
  function HexValue(b: Byte): (v: int)
    ensures -1 <= v < 16
  {
    if 0x30 <= b <= 0x39 then b - 0x30
    else if 0x61 <= b <= 0x66 then b - 0x61 + 10
    else if 0x41 <= b <= 0x46 then b - 0x41 + 10
    else -1
  }

  predicate AllWs(s: seq<Byte>) { forall i :: 0 <= i < |s| ==> IsWs(s[i]) }

  predicate AllDigits(s: seq<Byte>) { forall i :: 0 <= i < |s| ==> IsDigit(s[i]) }

  datatype Keyword = True | False | Null

  function Spelling(k: Keyword): seq<Byte> {
    match k
    case True => [0x74, 0x72, 0x75, 0x65]
    case False => [0x66, 0x61, 0x6c, 0x73, 0x65]
    case Null => [0x6e, 0x75, 0x6c, 0x6c]
  }

  /** exp = e [ minus / plus ] 1*DIGIT */
  datatype Exponent = Exponent(marker: Byte, sign: Option<Byte>, digits: seq<Byte>)

  /** number = [ minus ] int [ frac ] [ exp ] */
  datatype Number = Number(negative: bool, whole: seq<Byte>, frac: Option<seq<Byte>>, exp: Option<Exponent>)

  /** char = unescaped / escape */
  datatype Piece = Raw(b: Byte) | Short(b: Byte) | Hex4(h1: Byte, h2: Byte, h3: Byte, h4: Byte)

  datatype Value =
    | EmptyObject(ws: seq<Byte>)
    | Object(members: Members)
    | EmptyArray(ws: seq<Byte>)
    | Array(elements: Elements)
    | Str(pieces: seq<Piece>)
    | Num(number: Number)
    | Word(keyword: Keyword)

  /** ws string ws ":" ws value ws */
  datatype Member = Member(before: seq<Byte>, name: seq<Piece>, beforeColon: seq<Byte>, afterColon: seq<Byte>,
      value: Value, after: seq<Byte>)

  datatype Members = LastMember(m: Member) | MoreMembers(m: Member, rest: Members)

  datatype Element = Element(before: seq<Byte>, value: Value, after: seq<Byte>)

  datatype Elements = LastElement(e: Element) | MoreElements(e: Element, rest: Elements)

  /** JSON-text = ws value ws */
  datatype Document = Document(before: seq<Byte>, value: Value, after: seq<Byte>)

  /******** Well-formed trees ********/

  predicate ExponentOk(e: Exponent) {
    && (e.marker == 0x65 || e.marker == 0x45)
    && (e.sign.Some? ==> e.sign.value == 0x2b || e.sign.value == 0x2d)
    && |e.digits| > 0 && AllDigits(e.digits)
  }

  predicate NumberOk(n: Number) {
    && |n.whole| > 0 && AllDigits(n.whole) && (n.whole[0] == 0x30 ==> |n.whole| == 1)
    && (n.frac.Some? ==> |n.frac.value| > 0 && AllDigits(n.frac.value))
    && (n.exp.Some? ==> ExponentOk(n.exp.value))
  }

  predicate IsShortEscape(b: Byte) {
    b in {0x22, 0x5c, 0x2f, 0x62, 0x66, 0x6e, 0x72, 0x74}
  }

  predicate PieceOk(p: Piece) {
    match p
    case Raw(b) => b >= 0x20 && b != 0x22 && b != 0x5c
    case Short(b) => IsShortEscape(b)
    case Hex4(a, b, c, d) => HexValue(a) >= 0 && HexValue(b) >= 0 && HexValue(c) >= 0 && HexValue(d) >= 0
  }

  predicate PiecesOk(ps: seq<Piece>) { forall i :: 0 <= i < |ps| ==> PieceOk(ps[i]) }

  predicate ValueOk(v: Value) {
    match v
    case EmptyObject(ws) => AllWs(ws)
    case Object(ms) => MembersOk(ms)
    case EmptyArray(ws) => AllWs(ws)
    case Array(es) => ElementsOk(es)
    case Str(ps) => PiecesOk(ps)
    case Num(n) => NumberOk(n)
    case Word(_) => true
  }

  predicate MemberOk(m: Member) {
    AllWs(m.before) && PiecesOk(m.name) && AllWs(m.beforeColon) && AllWs(m.afterColon)
        && ValueOk(m.value) && AllWs(m.after)
  }

  predicate MembersOk(ms: Members) {
    match ms
    case LastMember(m) => MemberOk(m)
    case MoreMembers(m, rest) => MemberOk(m) && MembersOk(rest)
  }

  predicate ElementOk(e: Element) { AllWs(e.before) && ValueOk(e.value) && AllWs(e.after) }

  predicate ElementsOk(es: Elements) {
    match es
    case LastElement(e) => ElementOk(e)
    case MoreElements(e, rest) => ElementOk(e) && ElementsOk(rest)
  }

  predicate DocumentOk(d: Document) { AllWs(d.before) && ValueOk(d.value) && AllWs(d.after) }

  /******** The bytes of a tree ********/

  function RenderExponent(e: Exponent): seq<Byte> {
    [e.marker] + ((if e.sign.Some? then [e.sign.value] else []) + e.digits)
  }

  function RenderNumber(n: Number): seq<Byte> {
    (if n.negative then [0x2d] else []) +
    (n.whole +
     ((if n.frac.Some? then [0x2e] + n.frac.value else []) +
      (if n.exp.Some? then RenderExponent(n.exp.value) else [])))
  }

  function RenderPiece(p: Piece): seq<Byte> {
    match p
    case Raw(b) => [b]
    case Short(b) => [0x5c, b]
    case Hex4(a, b, c, d) => [0x5c, 0x75, a, b, c, d]
  }

  function RenderPieces(ps: seq<Piece>): seq<Byte> {
    if |ps| == 0 then [] else RenderPiece(ps[0]) + RenderPieces(ps[1..])
  }

  function RenderString(ps: seq<Piece>): seq<Byte> {
    [0x22] + (RenderPieces(ps) + [0x22])
  }

  function Render(v: Value): seq<Byte> {
    match v
    case EmptyObject(ws) => [0x7b] + (ws + [0x7d])
    case Object(ms) => [0x7b] + RenderMembers(ms)
    case EmptyArray(ws) => [0x5b] + (ws + [0x5d])
    case Array(es) => [0x5b] + RenderElements(es)
    case Str(ps) => RenderString(ps)
    case Num(n) => RenderNumber(n)
    case Word(k) => Spelling(k)
  }

  function RenderMember(m: Member): seq<Byte> {
    m.before + (RenderString(m.name) + (m.beforeColon + ([0x3a] + (m.afterColon + (Render(m.value) + m.after)))))
  }

  /** The members with their separators and the closing brace. */
  function RenderMembers(ms: Members): seq<Byte> {
    match ms
    case LastMember(m) => RenderMember(m) + [0x7d]
    case MoreMembers(m, rest) => RenderMember(m) + ([0x2c] + RenderMembers(rest))
  }

  function RenderElement(e: Element): seq<Byte> {
    e.before + (Render(e.value) + e.after)
  }

  /** The elements with their separators and the closing bracket. */
  function RenderElements(es: Elements): seq<Byte> {
    match es
    case LastElement(e) => RenderElement(e) + [0x5d]
    case MoreElements(e, rest) => RenderElement(e) + ([0x2c] + RenderElements(rest))
  }

  function RenderDocument(d: Document): seq<Byte> {
    d.before + (Render(d.value) + d.after)
  }

  /******** Measures of a tree ********/

  /** How deeply values nest; a scalar counts one. */
  function Depth(v: Value): (n: nat)
    ensures n > 0
  {
    match v
    case Object(ms) => 1 + MembersDepth(ms)
    case Array(es) => 1 + ElementsDepth(es)
    case _ => 1
  }

  function MembersDepth(ms: Members): nat {
    match ms
    case LastMember(m) => Depth(m.value)
    case MoreMembers(m, rest) => Max(Depth(m.value), MembersDepth(rest))
  }

  function ElementsDepth(es: Elements): nat {
    match es
    case LastElement(e) => Depth(e.value)
    case MoreElements(e, rest) => Max(Depth(e.value), ElementsDepth(rest))
  }
}
