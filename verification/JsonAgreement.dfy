/** The scanner's reading and the grammar describe the same texts and the same trees. */
module JsonAgreement {
  import opened Prelude
  import opened JsonGrammar
  import opened JsonParse

  /******** What is read was written that way ********/

  lemma Cut(s: seq<Byte>, n: nat)
    requires n <= |s|
    ensures s == s[..n] + s[n..]
  {
  }

  /** A rendered number followed by anything, part by part. */
  lemma NumberParts(n: Number, r: seq<Byte>)
    ensures var sign, frac := if n.negative then [0x2d] else [], if n.frac.Some? then [0x2e] + n.frac.value else [];
            var exp := if n.exp.Some? then RenderExponent(n.exp.value) else [];
            RenderNumber(n) + r == sign + (n.whole + (frac + (exp + r)))
  {
    hide RenderExponent;
    var sign, frac := if n.negative then [0x2d] else [], if n.frac.Some? then [0x2e] + n.frac.value else [];
    var exp := if n.exp.Some? then RenderExponent(n.exp.value) else [];
    Nest(sign, n.whole + (frac + exp), r);
    Nest(n.whole, frac + exp, r);
    Nest(frac, exp, r);
  }

  lemma ExponentParts(e: Exponent, r: seq<Byte>)
    ensures RenderExponent(e) + r == [e.marker] + ((if e.sign.Some? then [e.sign.value] else []) + (e.digits + r))
  {
    var sign := if e.sign.Some? then [e.sign.value] else [];
    Nest([e.marker], sign + e.digits, r);
    Nest(sign, e.digits, r);
  }

  /** A rendered member followed by anything, part by part. */
  lemma MemberParts(m: Member, r: seq<Byte>)
    ensures RenderMember(m) + r ==
            m.before + ([0x22] + (RenderPieces(m.name) + ([0x22] +
                (m.beforeColon + ([0x3a] + (m.afterColon + (Render(m.value) + (m.after + r))))))))
  {
    hide RenderPieces, Render;
    var v := Render(m.value);
    Nest(m.before, RenderString(m.name) + (m.beforeColon + ([0x3a] + (m.afterColon + (v + m.after)))), r);
    Nest(RenderString(m.name), m.beforeColon + ([0x3a] + (m.afterColon + (v + m.after))), r);
    Nest(m.beforeColon, [0x3a] + (m.afterColon + (v + m.after)), r);
    Nest([0x3a], m.afterColon + (v + m.after), r);
    Nest(m.afterColon, v + m.after, r);
    Nest(v, m.after, r);
    StringParts(m.name, m.beforeColon + ([0x3a] + (m.afterColon + (v + (m.after + r)))));
  }

  lemma StringParts(ps: seq<Piece>, r: seq<Byte>)
    ensures RenderString(ps) + r == [0x22] + (RenderPieces(ps) + ([0x22] + r))
  {
    hide RenderPieces;
    Nest([0x22], RenderPieces(ps) + [0x22], r);
    Nest(RenderPieces(ps), [0x22], r);
  }

  lemma FirstPiece(s: seq<Byte>) returns (p: Piece, n: nat)
    requires ParsePieces(s).Parsed? && s[0] != 0x22
    ensures 0 < n <= |s| && PieceOk(p) && ParsePieces(s[n..]).Parsed? && ParsePieces(s) == Push(p, ParsePieces(s[n..]))
            && s[..n] == RenderPiece(p)
  {
    hide HexValue;
    if s[0] != 0x5c {
      p, n := Raw(s[0]), 1;
    } else if IsShortEscape(s[1]) {
      p, n := Short(s[1]), 2;
    } else {
      p, n := Hex4(s[2], s[3], s[4], s[5]), 6;
    }
  }

  lemma OnePieceMore(p: Piece, ps: seq<Piece>)
    ensures RenderPieces([p] + ps) == RenderPiece(p) + RenderPieces(ps)
    ensures PieceOk(p) && PiecesOk(ps) ==> PiecesOk([p] + ps)
  {
    hide RenderPiece, PieceOk;
    assert ([p] + ps)[1..] == ps;
  }

  lemma Glue(s: seq<Byte>, n: nat, head: seq<Byte>, tail: seq<Byte>, end: seq<Byte>)
    requires n <= |s| && s[..n] == head && s[n..] == tail + end
    ensures s == (head + tail) + end
  {
    Cut(s, n);
    Nest(head, tail, end);
  }

  lemma NoPieces(s: seq<Byte>)
    requires At(s, 0x22)
    ensures ParsePieces(s) == Parsed([], s[1..]) && PiecesOk([]) && s == RenderPieces([]) + ([0x22] + s[1..])
  {
    assert s == [0x22] + s[1..];
  }

  lemma {:induction false} PiecesSound(s: seq<Byte>)
    requires ParsePieces(s).Parsed?
    ensures PiecesOk(ParsePieces(s).tree) && s == RenderPieces(ParsePieces(s).tree) + ([0x22] + ParsePieces(s).rest)
  {
    hide ParsePieces, PieceOk, PiecesOk, RenderPiece, RenderPieces;
    if s[0] == 0x22 {
      NoPieces(s);
    } else {
      var p, n := FirstPiece(s);
      PiecesSound(s[n..]);
      var rest := ParsePieces(s[n..]);
      OnePieceMore(p, rest.tree);
      Glue(s, n, RenderPiece(p), RenderPieces(rest.tree), [0x22] + rest.rest);
    }
  }

  lemma SignSplit(s: seq<Byte>)
    ensures s == (if At(s, 0x2d) then [0x2d] else []) + (if At(s, 0x2d) then s[1..] else s)
  {
  }

  lemma NumberSound(s: seq<Byte>)
    requires ParseNumber(s).Parsed?
    ensures NumberOk(ParseNumber(s).tree) && s == RenderNumber(ParseNumber(s).tree) + ParseNumber(s).rest
  {
    hide ParseWhole, ParseFrac, ParseExp, RenderNumber, RenderExponent, AllDigits, ExponentOk;
    var t := if At(s, 0x2d) then s[1..] else s;
    var whole := ParseWhole(t);
    var n := ParseNumber(s);
    SignSplit(s);
    WholeSound(t);
    FracSound(whole.rest);
    ExpSound(ParseFrac(whole.rest).rest);
    NumberParts(n.tree, n.rest);
  }

  lemma WholeSound(s: seq<Byte>)
    requires ParseWhole(s).Parsed?
    ensures var w := ParseWhole(s);
            |w.tree| > 0 && AllDigits(w.tree) && (w.tree[0] == 0x30 ==> |w.tree| == 1) && s == w.tree + w.rest
  {
  }

  lemma FracSound(s: seq<Byte>)
    requires ParseFrac(s).Parsed?
    ensures var f := ParseFrac(s);
            (f.tree.Some? ==> |f.tree.value| > 0 && AllDigits(f.tree.value)) &&
            s == (if f.tree.Some? then [0x2e] + f.tree.value else []) + f.rest
  {
    if At(s, 0x2e) {
      Cut(s[1..], DigitLen(s[1..]));
      assert s == [0x2e] + s[1..];
    }
  }

  lemma ExpSound(s: seq<Byte>)
    requires ParseExp(s).Parsed?
    ensures var e := ParseExp(s);
            (e.tree.Some? ==> ExponentOk(e.tree.value)) &&
            s == (if e.tree.Some? then RenderExponent(e.tree.value) else []) + e.rest
  {
    hide RenderExponent, DigitLen, AllDigits, AtDigit;
    var e := ParseExp(s);
    if e.tree.Some? {
      var t := s[1..];
      var signed := At(t, 0x2b) || At(t, 0x2d);
      var u := if signed then t[1..] else t;
      ExponentParts(e.tree.value, e.rest);
      DigitFacts(u);
      Cut(u, DigitLen(u));
      Cut(s, 1);
      Cut(t, if signed then 1 else 0);
      assert (if signed then [t[0]] else []) == t[..if signed then 1 else 0];
    }
  }

  lemma DigitFacts(u: seq<Byte>)
    ensures DigitLen(u) <= |u| && AllDigits(u[..DigitLen(u)])
  {
  }

  lemma KeywordSound(s: seq<Byte>, k: Keyword)
    requires ParseKeyword(s, k).Parsed?
    ensures ParseKeyword(s, k).tree == Word(k) && s == Spelling(k) + ParseKeyword(s, k).rest
  {
  }

  /** A successfully read value is a well-formed tree within the allowed depth, and its bytes are those read. */
  lemma {:induction false} ValueSound(s: seq<Byte>, depth: nat)
    requires ParseValue(s, depth).Parsed?
    ensures var r := ParseValue(s, depth); ValueOk(r.tree) && Depth(r.tree) <= depth && s == Render(r.tree) + r.rest
    decreases |s|, 1
  {
    hide WsLen, AllWs, PiecesOk, NumberOk, RenderNumber, RenderPieces, ParsePieces, ParseNumber,
      ParseMembers, ParseElements,
      RenderMembers, RenderElements, MembersDepth, ElementsDepth, ParseKeyword, Spelling;
    assert s == [s[0]] + s[1..];
    var r := ParseValue(s, depth);
    if s[0] == 0x7b {
      BracketSound(s[1..], 0x7d);
      if r.tree.Object? {
        MembersSound(s[1..], depth - 1);
        Nest([0x7b], RenderMembers(r.tree.members), r.rest);
      } else {
        Nest([0x7b], r.tree.ws + [0x7d], r.rest);
      }
    } else if s[0] == 0x5b {
      BracketSound(s[1..], 0x5d);
      if r.tree.Array? {
        ElementsSound(s[1..], depth - 1);
        Nest([0x5b], RenderElements(r.tree.elements), r.rest);
      } else {
        Nest([0x5b], r.tree.ws + [0x5d], r.rest);
      }
    } else if s[0] == 0x22 {
      PiecesSound(s[1..]);
      StringParts(ParsePieces(s[1..]).tree, ParsePieces(s[1..]).rest);
    } else if s[0] == 0x74 {
      KeywordSound(s, True);
    } else if s[0] == 0x66 {
      KeywordSound(s, False);
    } else if s[0] == 0x6e {
      KeywordSound(s, Null);
    } else {
      NumberSound(s);
    }
  }

  lemma BracketSound(s: seq<Byte>, close: Byte)
    ensures WsLen(s) <= |s| && AllWs(s[..WsLen(s)])
    ensures At(s[WsLen(s)..], close) ==> s == (s[..WsLen(s)] + [close]) + s[WsLen(s)..][1..]
  {
    hide WsLen, AllWs;
    var n := WsLen(s);
    WsFacts(s);
    Cut(s, n);
    if At(s[n..], close) {
      Cut(s[n..], 1);
      Nest(s[..n], [close], s[n..][1..]);
    }
  }

  lemma WsFacts(s: seq<Byte>)
    ensures WsLen(s) <= |s| && AllWs(s[..WsLen(s)]) && !AtWs(s[WsLen(s)..])
  {
  }

  lemma {:induction false} MemberSound(s: seq<Byte>, depth: nat)
    requires ParseMember(s, depth).Parsed?
    ensures var r := ParseMember(s, depth);
            MemberOk(r.tree) && Depth(r.tree.value) <= depth && s == RenderMember(r.tree) + r.rest
    decreases |s|, 0
  {
    hide WsLen, AllWs, PiecesOk, ParsePieces, RenderPieces, ParseValue, Render, ValueOk, Depth;
    var n := WsLen(s);
    WsFacts(s);
    Cut(s, n);
    var name := ParsePieces(s[n..][1..]);
    PiecesSound(s[n..][1..]);
    var m := WsLen(name.rest);
    WsFacts(name.rest);
    Cut(name.rest, m);
    var t := name.rest[m..][1..];
    assert name.rest[m..] == [0x3a] + t;
    assert s[n..] == [0x22] + s[n..][1..];
    var k := WsLen(t);
    WsFacts(t);
    Cut(t, k);
    var v := ParseValue(t[k..], depth);
    ValueSound(t[k..], depth);
    var l := WsLen(v.rest);
    WsFacts(v.rest);
    Cut(v.rest, l);
    var r := ParseMember(s, depth);
    MemberParts(r.tree, r.rest);
    hide RenderMember;
  }

  lemma {:induction false} MembersSound(s: seq<Byte>, depth: nat)
    requires ParseMembers(s, depth).Parsed?
    ensures var r := ParseMembers(s, depth);
            MembersOk(r.tree) && MembersDepth(r.tree) <= depth && s == RenderMembers(r.tree) + r.rest
    decreases |s|, 1
  {
    hide ParseMember, RenderMember, MemberOk, Depth;
    MemberSound(s, depth);
    var m := ParseMember(s, depth);
    assert m.rest == [m.rest[0]] + m.rest[1..];
    if At(m.rest, 0x2c) {
      MembersSound(m.rest[1..], depth);
    }
  }

  lemma {:induction false} ElementSound(s: seq<Byte>, depth: nat)
    requires ParseElement(s, depth).Parsed?
    ensures var r := ParseElement(s, depth);
            ElementOk(r.tree) && Depth(r.tree.value) <= depth && s == RenderElement(r.tree) + r.rest
    decreases |s|, 2
  {
    hide WsLen, AllWs, ParseValue, Render, ValueOk, Depth;
    var n := WsLen(s);
    WsFacts(s);
    Cut(s, n);
    ValueSound(s[n..], depth);
    var v := ParseValue(s[n..], depth);
    WsFacts(v.rest);
    Cut(v.rest, WsLen(v.rest));
  }

  lemma {:induction false} ElementsSound(s: seq<Byte>, depth: nat)
    requires ParseElements(s, depth).Parsed?
    ensures var r := ParseElements(s, depth);
            ElementsOk(r.tree) && ElementsDepth(r.tree) <= depth && s == RenderElements(r.tree) + r.rest
    decreases |s|, 3
  {
    hide ParseElement, RenderElement, ElementOk, Depth;
    ElementSound(s, depth);
    var e := ParseElement(s, depth);
    assert e.rest == [e.rest[0]] + e.rest[1..];
    if At(e.rest, 0x2c) {
      ElementsSound(e.rest[1..], depth);
    }
  }

  /******** What is written that way is read back ********/

  /** What may come after a value: nothing, whitespace, a separator or a closing bracket. */
  predicate Follows(rest: seq<Byte>) {
    |rest| == 0 || IsWs(rest[0]) || rest[0] == 0x2c || rest[0] == 0x5d || rest[0] == 0x7d
  }

  lemma {:induction false} WsRead(w: seq<Byte>, t: seq<Byte>)
    requires AllWs(w) && !AtWs(t)
    ensures WsLen(w + t) == |w| && (w + t)[..|w|] == w && (w + t)[|w|..] == t
  {
    if |w| > 0 {
      assert (w + t)[1..] == w[1..] + t;
      WsRead(w[1..], t);
    }
  }

  lemma {:induction false} DigitsRead(d: seq<Byte>, t: seq<Byte>)
    requires AllDigits(d) && !AtDigit(t)
    ensures DigitLen(d + t) == |d| && (d + t)[..|d|] == d && (d + t)[|d|..] == t
  {
    if |d| > 0 {
      assert (d + t)[1..] == d[1..] + t;
      DigitsRead(d[1..], t);
    }
  }

  lemma PieceRead(p: Piece, tail: seq<Byte>)
    requires PieceOk(p)
    ensures ParsePieces(RenderPiece(p) + tail) == Push(p, ParsePieces(tail))
  {
    hide HexValue;
    var s := RenderPiece(p) + tail;
    assert s[|RenderPiece(p)|..] == tail;
  }

  lemma {:induction false} PiecesRead(ps: seq<Piece>, rest: seq<Byte>)
    requires PiecesOk(ps)
    ensures ParsePieces(RenderPieces(ps) + ([0x22] + rest)) == Parsed(ps, rest)
  {
    hide ParsePieces, RenderPiece, PieceOk;
    var s := RenderPieces(ps) + ([0x22] + rest);
    if |ps| == 0 {
      assert s == [0x22] + rest && s[1..] == rest;
      NoPieces(s);
    } else {
      var tail := RenderPieces(ps[1..]) + ([0x22] + rest);
      Nest(RenderPiece(ps[0]), RenderPieces(ps[1..]), [0x22] + rest);
      PieceRead(ps[0], tail);
      PiecesRead(ps[1..], rest);
      assert ps == [ps[0]] + ps[1..];
    }
  }

  /** After a number's part comes something that cannot extend it. */
  predicate Ends(rest: seq<Byte>) {
    !AtDigit(rest) && !At(rest, 0x2e) && !At(rest, 0x65) && !At(rest, 0x45)
  }

  lemma WholeRead(d: seq<Byte>, t: seq<Byte>)
    requires |d| > 0 && AllDigits(d) && (d[0] == 0x30 ==> |d| == 1) && !AtDigit(t)
    ensures ParseWhole(d + t) == Parsed(d, t)
  {
    DigitsRead(d, t);
    if d[0] == 0x30 { assert (d + t)[1..] == t && (d + t)[..1] == d; }
  }

  lemma FracRead(f: Option<seq<Byte>>, t: seq<Byte>)
    requires f.Some? ==> |f.value| > 0 && AllDigits(f.value)
    requires !AtDigit(t) && !At(t, 0x2e)
    ensures ParseFrac((if f.Some? then [0x2e] + f.value else []) + t) == Parsed(f, t)
  {
    if f.Some? {
      DigitsRead(f.value, t);
      assert (([0x2e] + f.value) + t)[1..] == f.value + t;
    } else {
      assert [] + t == t;
    }
  }

  lemma ExpRead(e: Option<Exponent>, t: seq<Byte>)
    requires (e.Some? ==> ExponentOk(e.value)) && Ends(t)
    ensures ParseExp((if e.Some? then RenderExponent(e.value) else []) + t) == Parsed(e, t)
  {
    if e.Some? {
      var x := e.value;
      DigitsRead(x.digits, t);
      ExponentParts(x, t);
      var s := RenderExponent(x) + t;
      var signed := (if x.sign.Some? then [x.sign.value] else []) + (x.digits + t);
      assert s[1..] == signed;
      assert IsDigit(x.digits[0]);
      hide RenderExponent, DigitLen, AllDigits;
      if x.sign.Some? {
        assert signed[1..] == x.digits + t;
      } else {
        assert signed == x.digits + t && signed[0] == x.digits[0];
      }
    } else {
      assert [] + t == t;
    }
  }

  lemma ExpHead(e: Option<Exponent>, t: seq<Byte>)
    requires (e.Some? ==> ExponentOk(e.value)) && Ends(t)
    ensures !AtDigit((if e.Some? then RenderExponent(e.value) else []) + t)
            && !At((if e.Some? then RenderExponent(e.value) else []) + t, 0x2e)
  {
    if e.None? { assert [] + t == t; }
  }

  lemma FracHead(f: Option<seq<Byte>>, t: seq<Byte>)
    requires !AtDigit(t)
    ensures !AtDigit((if f.Some? then [0x2e] + f.value else []) + t)
  {
    if f.None? { assert [] + t == t; }
  }

  lemma SignRead(negative: bool, t: seq<Byte>)
    requires AtDigit(t)
    ensures var s := (if negative then [0x2d] else []) + t;
            (At(s, 0x2d) <==> negative) && (if negative then s[1..] else s) == t
  {
  }

  lemma NumberRead(n: Number, rest: seq<Byte>)
    requires NumberOk(n) && Ends(rest)
    ensures ParseNumber(RenderNumber(n) + rest) == Parsed(n, rest)
  {
    hide AllDigits, ParseWhole, ParseFrac, ParseExp, RenderExponent, ExponentOk, RenderNumber;
    var expText := (if n.exp.Some? then RenderExponent(n.exp.value) else []) + rest;
    var fracText := (if n.frac.Some? then [0x2e] + n.frac.value else []) + expText;
    ExpHead(n.exp, rest);
    FracHead(n.frac, expText);
    ExpRead(n.exp, rest);
    FracRead(n.frac, expText);
    WholeRead(n.whole, fracText);
    NumberParts(n, rest);
    WholeHead(n);
    SignRead(n.negative, n.whole + fracText);
  }

  lemma WholeHead(n: Number)
    requires NumberOk(n)
    ensures |n.whole| > 0 && IsDigit(n.whole[0])
  {
  }

  /** The first byte of a value decides how it is read. */
  lemma RenderHead(v: Value)
    requires ValueOk(v)
    ensures |Render(v)| > 0 && !IsWs(Render(v)[0]) && Render(v)[0] != 0x5d
    ensures v.Num? ==> Render(v)[0] == 0x2d || IsDigit(Render(v)[0])
  {
    if v.Num? {
      WholeHead(v.number);
      if !v.number.negative { assert Render(v)[0] == v.number.whole[0]; }
    }
  }

  lemma EndsAfterNumber(rest: seq<Byte>)
    requires Follows(rest)
    ensures Ends(rest)
  {
  }

  /** Whitespace before a separator or a closing bracket, or nothing at all, may follow a value. */
  lemma FollowsWs(w: seq<Byte>, rest: seq<Byte>)
    requires AllWs(w) && Follows(rest)
    ensures Follows(w + rest)
  {
    if |w| > 0 { assert (w + rest)[0] == w[0]; } else { assert w + rest == rest; }
  }

  lemma EmptyText(open: Byte, ws: seq<Byte>, rest: seq<Byte>)
    requires open == 0x7b || open == 0x5b
    ensures var s := [open] + (ws + [open + 2]) + rest; |s| > 0 && s[0] == open && s[1..] == ws + ([open + 2] + rest)
  {
    Nest([open], ws + [open + 2], rest);
    Nest(ws, [open + 2], rest);
  }

  lemma ReadEmpty(open: Byte, ws: seq<Byte>, rest: seq<Byte>, depth: nat)
    requires AllWs(ws) && depth > 0 && (open == 0x7b || open == 0x5b)
    ensures ParseValue([open] + (ws + [open + 2]) + rest, depth) == Parsed(if open == 0x7b then EmptyObject(ws)
            else EmptyArray(ws), rest)
  {
    hide WsLen, AllWs, ParseMembers, ParseElements, ParsePieces, ParseNumber, ParseKeyword;
    var s := [open] + (ws + [open + 2]) + rest;
    EmptyRead(ws, open + 2, rest);
    EmptyText(open, ws, rest);
  }

  lemma ReadObject(t: seq<Byte>, depth: nat)
    requires depth > 0 && WsLen(t) <= |t| && !At(t[WsLen(t)..], 0x7d)
    ensures var ms := ParseMembers(t, depth - 1);
            ParseValue([0x7b] + t, depth) == if ms.Parsed? then Parsed(Object(ms.tree), ms.rest) else Malformed
  {
    hide WsLen, ParseMembers, ParseElements;
    assert ([0x7b] + t)[1..] == t;
  }

  lemma ReadArray(t: seq<Byte>, depth: nat)
    requires depth > 0 && WsLen(t) <= |t| && !At(t[WsLen(t)..], 0x5d)
    ensures var es := ParseElements(t, depth - 1);
            ParseValue([0x5b] + t, depth) == if es.Parsed? then Parsed(Array(es.tree), es.rest) else Malformed
  {
    hide WsLen, ParseMembers, ParseElements;
    assert ([0x5b] + t)[1..] == t;
  }

  lemma ReadString(ps: seq<Piece>, rest: seq<Byte>, depth: nat)
    requires PiecesOk(ps) && depth > 0
    ensures ParseValue(RenderString(ps) + rest, depth) == Parsed(Str(ps), rest)
  {
    hide PiecesOk, RenderPieces, ParsePieces, ParseMembers, ParseElements, WsLen;
    StringParts(ps, rest);
    var s := RenderString(ps) + rest;
    hide RenderString;
    assert s[1..] == RenderPieces(ps) + ([0x22] + rest);
    PiecesRead(ps, rest);
  }

  lemma NumberHead(n: Number)
    requires NumberOk(n)
    ensures |RenderNumber(n)| > 0 && (RenderNumber(n)[0] == 0x2d || IsDigit(RenderNumber(n)[0]))
  {
    hide RenderNumber, NumberOk;
    RenderHead(Num(n));
  }

  lemma ReadNumber(n: Number, rest: seq<Byte>, depth: nat)
    requires NumberOk(n) && depth > 0 && Follows(rest)
    ensures ParseValue(RenderNumber(n) + rest, depth) == Parsed(Num(n), rest)
  {
    hide NumberOk, RenderNumber, ParseNumber, ParseMembers, ParseElements, WsLen, ParsePieces,
      ParseKeyword, Follows, Ends;
    NumberHead(n);
    EndsAfterNumber(rest);
    NumberRead(n, rest);
    var s := RenderNumber(n) + rest;
    assert s[0] == RenderNumber(n)[0];
  }

  lemma ReadWord(k: Keyword, rest: seq<Byte>, depth: nat)
    requires depth > 0
    ensures ParseValue(Spelling(k) + rest, depth) == Parsed(Word(k), rest)
  {
    hide ParseNumber, ParseMembers, ParseElements, WsLen, ParsePieces;
    var s := Spelling(k) + rest;
    assert s[|Spelling(k)|..] == rest;
    assert ParseKeyword(s, k) == Parsed(Word(k), rest);
    assert s[0] == Spelling(k)[0];
    hide ParseKeyword;
  }

  /** A well-formed tree within the allowed depth is read back from its bytes. */
  lemma {:induction false} ValueRead(v: Value, rest: seq<Byte>, depth: nat)
    requires ValueOk(v) && Depth(v) <= depth && Follows(rest)
    ensures ParseValue(Render(v) + rest, depth) == Parsed(v, rest)
    decreases v
  {
    hide WsLen, AllWs, PiecesOk, NumberOk, RenderString, RenderNumber, ParseValue, ParseMembers,
      ParseElements, Spelling,
      RenderMembers, RenderElements, MembersDepth, ElementsDepth, MembersOk, ElementsOk;
    match v
    case EmptyObject(ws) => ReadEmpty(0x7b, ws, rest, depth);
    case EmptyArray(ws) => ReadEmpty(0x5b, ws, rest, depth);
    case Object(ms) =>
      Nest([0x7b], RenderMembers(ms), rest);
      MembersRead(ms, rest, depth - 1);
      MembersNotEmpty(ms, rest);
      ReadObject(RenderMembers(ms) + rest, depth);
    case Array(es) =>
      Nest([0x5b], RenderElements(es), rest);
      ElementsRead(es, rest, depth - 1);
      ElementsNotEmpty(es, rest);
      ReadArray(RenderElements(es) + rest, depth);
    case Str(ps) => ReadString(ps, rest, depth);
    case Num(n) => ReadNumber(n, rest, depth);
    case Word(k) => ReadWord(k, rest, depth);
  }

  lemma EmptyRead(ws: seq<Byte>, close: Byte, rest: seq<Byte>)
    requires AllWs(ws) && (close == 0x7d || close == 0x5d)
    ensures var s := ws + ([close] + rest);
            WsLen(s) == |ws| && s[..|ws|] == ws && At(s[|ws|..], close) && s[|ws|..][1..] == rest
  {
    WsRead(ws, [close] + rest);
  }

  lemma MembersNotEmpty(ms: Members, rest: seq<Byte>)
    requires MembersOk(ms)
    ensures var s := RenderMembers(ms) + rest; WsLen(s) <= |s| && !At(s[WsLen(s)..], 0x7d)
  {
    var tail := (match ms case LastMember(m) => [0x7d] case MoreMembers(m, more) => [0x2c] + RenderMembers(more)) +
        rest;
    hide RenderPieces, Render, PiecesOk, ValueOk;
    var separated := match ms case LastMember(m) => [0x7d] case MoreMembers(m, more) => [0x2c] + RenderMembers(more);
    Nest(RenderMember(ms.m), separated, rest);
    MemberParts(ms.m, tail);
    var x := [0x22] + (RenderPieces(ms.m.name) +
        ([0x22] + (ms.m.beforeColon + ([0x3a] + (ms.m.afterColon + (Render(ms.m.value) + (ms.m.after + tail)))))));
    hide RenderMember;
    WsRead(ms.m.before, x);
  }

  lemma ElementsNotEmpty(es: Elements, rest: seq<Byte>)
    requires ElementsOk(es)
    ensures var s := RenderElements(es) + rest; WsLen(s) <= |s| && !At(s[WsLen(s)..], 0x5d)
  {
    var sep := match es case LastElement(e) => [0x5d] case MoreElements(e, more) => [0x2c] + RenderElements(more);
    RenderHead(es.e.value);
    hide Render, ValueOk;
    Nest(RenderElement(es.e), sep, rest);
    ElementParts(es.e, sep + rest);
    hide RenderElement;
    var x := Render(es.e.value) + (es.e.after + (sep + rest));
    assert x[0] == Render(es.e.value)[0];
    WsRead(es.e.before, x);
  }

  lemma ElementParts(e: Element, r: seq<Byte>)
    ensures RenderElement(e) + r == e.before + (Render(e.value) + (e.after + r))
  {
    hide Render;
    Nest(e.before, Render(e.value) + e.after, r);
    Nest(Render(e.value), e.after, r);
  }

  lemma {:induction false} MemberRead(m: Member, rest: seq<Byte>, depth: nat)
    requires MemberOk(m) && Depth(m.value) <= depth && Follows(rest) && !AtWs(rest)
    ensures ParseMember(RenderMember(m) + rest, depth) == Parsed(m, rest)
    decreases m
  {
    RenderHead(m.value);
    hide WsLen, AllWs, PiecesOk, ParsePieces, RenderPieces, ParseValue, Render, ValueOk, Depth;
    var s6 := m.after + rest;
    var s5 := Render(m.value) + s6;
    var s4 := m.afterColon + s5;
    var s3 := m.beforeColon + ([0x3a] + s4);
    var s2 := RenderPieces(m.name) + ([0x22] + s3);
    var s1 := [0x22] + s2;
    MemberParts(m, rest);
    hide RenderMember;
    var s := m.before + s1;
    WsRead(m.before, s1);
    assert s1[1..] == s2;
    PiecesRead(m.name, s3);
    WsRead(m.beforeColon, [0x3a] + s4);
    assert ([0x3a] + s4)[1..] == s4;
    assert s5[0] == Render(m.value)[0];
    WsRead(m.afterColon, s5);
    FollowsWs(m.after, rest);
    ValueRead(m.value, s6, depth);
    WsRead(m.after, rest);
  }

  lemma {:induction false} MembersRead(ms: Members, rest: seq<Byte>, depth: nat)
    requires MembersOk(ms) && MembersDepth(ms) <= depth
    ensures ParseMembers(RenderMembers(ms) + rest, depth) == Parsed(ms, rest)
    decreases ms
  {
    hide ParseMember, RenderMember, MemberOk, Depth;
    match ms
    case LastMember(m) =>
      var t := [0x7d] + rest;
      Nest(RenderMember(m), [0x7d], rest);
      MemberRead(m, t, depth);
      assert t[1..] == rest;
    case MoreMembers(m, more) =>
      var t := [0x2c] + (RenderMembers(more) + rest);
      Nest(RenderMember(m), [0x2c] + RenderMembers(more), rest);
      Nest([0x2c], RenderMembers(more), rest);
      MemberRead(m, t, depth);
      assert t[1..] == RenderMembers(more) + rest;
      MembersRead(more, rest, depth);
  }

  lemma {:induction false} ElementRead(e: Element, rest: seq<Byte>, depth: nat)
    requires ElementOk(e) && Depth(e.value) <= depth && Follows(rest) && !AtWs(rest)
    ensures ParseElement(RenderElement(e) + rest, depth) == Parsed(e, rest)
    decreases e
  {
    RenderHead(e.value);
    hide WsLen, AllWs, ParseValue, Render, ValueOk, Depth;
    var s2 := e.after + rest;
    var s1 := Render(e.value) + s2;
    ElementParts(e, rest);
    hide RenderElement;
    assert s1[0] == Render(e.value)[0];
    WsRead(e.before, s1);
    FollowsWs(e.after, rest);
    ValueRead(e.value, s2, depth);
    WsRead(e.after, rest);
  }

  lemma {:induction false} ElementsRead(es: Elements, rest: seq<Byte>, depth: nat)
    requires ElementsOk(es) && ElementsDepth(es) <= depth
    ensures ParseElements(RenderElements(es) + rest, depth) == Parsed(es, rest)
    decreases es
  {
    hide ParseElement, RenderElement, ElementOk, Depth;
    match es
    case LastElement(e) =>
      var t := [0x5d] + rest;
      Nest(RenderElement(e), [0x5d], rest);
      ElementRead(e, t, depth);
      assert t[1..] == rest;
    case MoreElements(e, more) =>
      var t := [0x2c] + (RenderElements(more) + rest);
      Nest(RenderElement(e), [0x2c] + RenderElements(more), rest);
      Nest([0x2c], RenderElements(more), rest);
      ElementRead(e, t, depth);
      assert t[1..] == RenderElements(more) + rest;
      ElementsRead(more, rest, depth);
  }

  /**
   * A byte string is read as a document exactly when it is a JSON text of the grammar whose values
   * nest at most 512 deep, and then the tree read is the only one with these bytes.
   */
  lemma ReadsExactlyTheGrammar(s: seq<Byte>, d: Document)
    ensures ParseDocument(s) == Some(d) <==> DocumentOk(d) && Depth(d.value) <= 512 && RenderDocument(d) == s
  {
    hide WsLen, AllWs, ParseValue, Render, ValueOk, Depth;
    if ParseDocument(s) == Some(d) {
      var n := WsLen(s);
      WsFacts(s);
      Cut(s, n);
      ValueSound(s[n..], MAX_DEPTH);
      var v := ParseValue(s[n..], MAX_DEPTH);
      WsFacts(v.rest);
      Cut(v.rest, WsLen(v.rest));
      assert v.rest == d.after;
    }
    if DocumentOk(d) && Depth(d.value) <= MAX_DEPTH && RenderDocument(d) == s {
      RenderHead(d.value);
      var t := Render(d.value) + d.after;
      assert t[0] == Render(d.value)[0];
      WsRead(d.before, t);
      NoWsLeft(d.after);
      ValueRead(d.value, d.after, MAX_DEPTH);
      assert d.after[..|d.after|] == d.after;
    }
  }

  lemma NoWsLeft(w: seq<Byte>)
    requires AllWs(w)
    ensures WsLen(w) == |w| && Follows(w)
  {
    assert w + [] == w;
    WsRead(w, []);
  }
}
