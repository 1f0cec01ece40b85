/** The raw-byte scanner: index, depth, counters and findings moved along by mutually recursive methods. */
module RawScanner {
  import opened Prelude
  import opened JsonGrammar
  import opened JsonParse
  import opened JsonAgreement
  import opened JsonNames
  import opened JsonReports
  import opened JsonFindings
  import Exact = ExactNumbers

  /** The scanner's fields, as a value. */
  datatype State = State(index: nat, depth: nat, maxDepth: nat, counts: Counts, findings: seq<Finding>)

  function SkipWs(s: seq<Byte>): (t: seq<Byte>)
    ensures |t| == |s| - WsLen(s)
  {
    s[WsLen(s)..]
  }

  /** What follows the first byte. */
  function Behind(s: seq<Byte>): (t: seq<Byte>)
    ensures |s| > 0 ==> |t| == |s| - 1
  {
    if |s| > 0 then s[1..] else []
  }

  /******** Strings ********/

  /** What the string loop will have collected once it has read the pieces still ahead. */
  ghost function StringOutcome(r: Parse<seq<Piece>>, units: seq<Unit>, sawLone: bool)
    : Option<(seq<Unit>, bool, seq<Byte>)>
  {
    if r.Parsed? && PiecesOk(r.tree) then Some((units + Units(r.tree), sawLone || HasLoneSurrogate(r.tree), r.rest))
        else None
  }

  ghost predicate NextIsLow(r: Parse<seq<Piece>>) {
    r.Parsed? && |r.tree| > 0 && PieceOk(r.tree[0]) && IsLow(r.tree[0])
  }

  lemma PushedPieces(p: Piece, r: Parse<seq<Piece>>, units: seq<Unit>)
    requires PieceOk(p) && r.Parsed?
    ensures Push(p, r).tree[0] == p && Push(p, r).tree[1..] == r.tree
            && (PiecesOk(Push(p, r).tree) <==> PiecesOk(r.tree))
    ensures PiecesOk(r.tree) ==> units + Units(Push(p, r).tree) == (units + [UnitOf(p)]) + Units(r.tree)
  {
    hide UnitOf;
    var ps := Push(p, r).tree;
    assert ps[1..] == r.tree;
    assert forall i :: 0 <= i < |r.tree| ==> r.tree[i] == ps[i + 1];
    if PiecesOk(r.tree) {
      assert units + ([UnitOf(p)] + Units(r.tree)) == (units + [UnitOf(p)]) + Units(r.tree);
    }
  }

  lemma OnePiece(p: Piece, r: Parse<seq<Piece>>, units: seq<Unit>, sawLone: bool)
    requires PieceOk(p) && !IsHigh(p)
    ensures StringOutcome(Push(p, r), units, sawLone) == StringOutcome(r, units + [UnitOf(p)], sawLone || IsLow(p))
  {
    hide UnitOf, PiecesOk, Units;
    if r.Parsed? { PushedPieces(p, r, units); }
  }

  lemma LoneHigh(p: Piece, r: Parse<seq<Piece>>, units: seq<Unit>, sawLone: bool)
    requires PieceOk(p) && IsHigh(p) && !NextIsLow(r)
    ensures StringOutcome(Push(p, r), units, sawLone) == StringOutcome(r, units + [UnitOf(p)], true)
  {
    hide UnitOf, Units;
    if r.Parsed? {
      PushedPieces(p, r, units);
      var ps := Push(p, r).tree;
      assert |r.tree| > 0 ==> ps[1] == r.tree[0];
    }
  }

  lemma SurrogatePair(p: Piece, q: Piece, r: Parse<seq<Piece>>, units: seq<Unit>, sawLone: bool)
    requires PieceOk(p) && IsHigh(p) && PieceOk(q) && IsLow(q)
    ensures StringOutcome(Push(p, Push(q, r)), units, sawLone) == StringOutcome(r,
            (units + [UnitOf(p)]) + [UnitOf(q)], sawLone)
  {
    hide UnitOf, Units, PiecesOk;
    if r.Parsed? {
      var rq := Push(q, r);
      PushedPieces(p, rq, units);
      PushedPieces(q, r, units + [UnitOf(p)]);
      var ps := Push(p, rq).tree;
      assert ps[1] == q && ps[2..] == r.tree;
    }
  }

  lemma NothingMore(s: seq<Byte>, units: seq<Unit>, sawLone: bool)
    requires At(s, 0x22)
    ensures StringOutcome(ParsePieces(s), units, sawLone) == Some((units, sawLone, s[1..]))
  {
    assert units + [] == units;
  }

  lemma NoOutcome(r: Parse<seq<Piece>>, units: seq<Unit>, sawLone: bool)
    ensures r.Malformed? ==> StringOutcome(r, units, sawLone).None?
  {
  }

  lemma StringClosed(r: Parse<seq<Piece>>, units: seq<Unit>, sawLone: bool, rest: seq<Byte>)
    requires StringOutcome(r, [], false) == Some((units, sawLone, rest))
    ensures r.Parsed? && PiecesOk(r.tree) && Units(r.tree) == units
            && (HasLoneSurrogate(r.tree) <==> sawLone) && r.rest == rest
  {
    hide PiecesOk, Units, HasLoneSurrogate;
    assert [] + Units(r.tree) == Units(r.tree);
  }

  lemma BehindFirst(s: seq<Byte>)
    requires |s| > 0
    ensures Behind(s) == s[1..]
  {
  }

  /** The literal is read once all its bytes agree, and never once one does not. */
  lemma KeywordSoFar(s: seq<Byte>, k: Keyword, n: nat)
    requires n <= |Spelling(k)| && n <= |s| && s[..n] == Spelling(k)[..n]
    ensures n == |Spelling(k)| ==> ParseKeyword(s, k) == Parsed(Word(k), s[n..])
    ensures n < |Spelling(k)| && |s| > n && s[n] == Spelling(k)[n] ==> s[..n + 1] == Spelling(k)[..n + 1]
    ensures n < |Spelling(k)| && !(|s| > n && s[n] == Spelling(k)[n]) ==> ParseKeyword(s, k).Malformed?
  {
    hide Spelling;
    if n == |Spelling(k)| { assert Spelling(k)[..n] == Spelling(k); }
  }

  lemma NumberShape(s: seq<Byte>)
    ensures var whole := ParseWhole(if At(s, 0x2d) then Behind(s) else s);
            var frac := if whole.Parsed? then ParseFrac(whole.rest) else Malformed;
            var exp := if frac.Parsed? then ParseExp(frac.rest) else Malformed;
            var r := ParseNumber(s);
            && (r.Parsed? <==> exp.Parsed?)
            && (r.Parsed? ==> r.rest == exp.rest && (WrittenAsInteger(r.tree) <==> frac.tree.None? && exp.tree.None?))
  {
    hide ParseWhole, ParseFrac, ParseExp;
  }

  /** The raw span of a string is the rendering of its pieces. */
  lemma SpanIsRendered(s: seq<Byte>, r: Parse<seq<Piece>>)
    requires At(s, 0x22) && r == ParsePieces(s[1..]) && r.Parsed?
    ensures PiecesOk(r.tree) && s[..|s| - |r.rest|] == RenderString(r.tree)
  {
    hide ParsePieces, RenderPieces, PiecesOk;
    PiecesSound(s[1..]);
    StringParts(r.tree, r.rest);
    assert s == RenderString(r.tree) + r.rest;
  }

  /******** Values and their parts ********/

  /** Where the scanner is after reading something, and what it has gathered; Fails if it threw. */
  datatype Outcome = Fails | Leaves(rest: seq<Byte>, maxDepth: nat, counts: Counts, findings: seq<Finding>)

  ghost function ValueOutcome(lib: Library, r: Parse<Value>, s: State, pointer: Text): Outcome {
    if r.Parsed? && ValueOk(r.tree) then
      Leaves(r.rest, Max(s.maxDepth, s.depth + Depth(r.tree)), Plus(s.counts, CountsOf(lib, r.tree)),
          s.findings + Findings(lib, r.tree, pointer, s.index))
    else Fails
  }

  ghost function MemberOutcome(lib: Library, r: Parse<Member>, s: State, pointer: Text, seen: Seen): Outcome {
    if r.Parsed? && MemberOk(r.tree) then
      Leaves(r.rest, Max(s.maxDepth, s.depth + Depth(r.tree.value)), Plus(s.counts, MemberCounts(lib, r.tree)),
             s.findings + MemberFindings(lib, r.tree, pointer, s.index, seen))
    else Fails
  }

  ghost function MembersOutcome(lib: Library, r: Parse<Members>, s: State, pointer: Text, seen: Seen): Outcome {
    if r.Parsed? && MembersOk(r.tree) then
      Leaves(r.rest, Max(s.maxDepth, s.depth + MembersDepth(r.tree)), Plus(s.counts, MembersCounts(lib, r.tree)),
             s.findings + MembersFindings(lib, r.tree, pointer, s.index, seen))
    else Fails
  }

  ghost function ElementsOutcome(lib: Library, r: Parse<Elements>, s: State, pointer: Text, position: nat): Outcome {
    if r.Parsed? && ElementsOk(r.tree) then
      Leaves(r.rest, Max(s.maxDepth, s.depth + ElementsDepth(r.tree)), Plus(s.counts, ElementsCounts(lib, r.tree)),
             s.findings + ElementsFindings(lib, r.tree, pointer, s.index, position))
    else Fails
  }

  /** The parts of a member in the scanner's order, where they start, and what is left behind it. */
  lemma MemberShape(s: seq<Byte>, d: nat)
    ensures var a := SkipWs(s);
            var name := ParsePieces(Behind(a));
            var b := if name.Parsed? then SkipWs(name.rest) else [];
            var c := SkipWs(Behind(b));
            var v := ParseValue(c, d);
            && (ParseMember(s, d).Parsed? <==> At(a, 0x22) && name.Parsed? && At(b, 0x3a) && v.Parsed?)
            && (ParseMember(s, d).Parsed? ==>
                  var r := ParseMember(s, d);
                  && MemberOk(r.tree) && ValueOk(v.tree) && r.rest == SkipWs(v.rest)
                  && r.tree.name == name.tree && r.tree.value == v.tree && |r.tree.before| == |s| - |a|
                  && forall offset: nat :: ValueOffset(r.tree, offset) == offset + |s| - |c|)
  {
    hide WsLen, AllWs, AtWs, PiecesOk, ParsePieces, RenderPieces, ParseValue, Render, Depth, ValueOk;
    if ParseMember(s, d).Parsed? {
      MemberSound(s, d);
      PiecesSound(Behind(SkipWs(s)));
    }
  }

  lemma MemberFindingsGrouped(lib: Library, m: Member, pointer: Text, offset: nat, seen: Seen, fs: seq<Finding>)
    requires MemberOk(m)
    ensures fs + MemberFindings(lib, m, pointer, offset, seen) ==
            ((fs + StringFindings(lib, m.name, pointer, offset + |m.before|)) +
                NameFindings(Name(m.name), pointer, offset + |m.before|, seen)) +
            Findings(lib, m.value, Extend(pointer, Name(m.name)), ValueOffset(m, offset))
  {
    hide Findings, Name, Extend, StringFindings, NameFindings, ValueOffset;
  }

  lemma MemberCountsGrouped(lib: Library, m: Member, counts: Counts)
    ensures Plus(counts, MemberCounts(lib, m)) == Plus(Plus(counts, Counts(1, 1, 0, 0, 0)), CountsOf(lib, m.value))
  {
    hide CountsOf;
  }

  /** The scanner's state when it has read a member and stands behind the separator. */
  ghost function AfterMember(lib: Library, m: Member, s: State, pointer: Text, seen: Seen): State
    requires MemberOk(m)
  {
    State(s.index + |RenderMember(m)| + 1, s.depth, Max(s.maxDepth, s.depth + Depth(m.value)),
        Plus(s.counts, MemberCounts(lib, m)),
          s.findings + MemberFindings(lib, m, pointer, s.index, seen))
  }

  ghost function SeenAfterMember(m: Member, offset: nat, seen: Seen): Seen
    requires MemberOk(m)
  {
    SeenAfter(Name(m.name), offset + |m.before|, seen)
  }

  lemma MaxNests(a: nat, d: nat, x: nat, y: nat)
    ensures Max(a, d + Max(x, y)) == Max(Max(a, d + x), d + y)
  {
  }

  lemma MembersMeasures(lib: Library, m: Member, rest: Members)
    requires MemberOk(m) && MembersOk(rest)
    ensures var ms := MoreMembers(m, rest);
            MembersOk(ms) && MembersDepth(ms) == Max(Depth(m.value), MembersDepth(rest))
                && MembersCounts(lib, ms) == Plus(MemberCounts(lib, m), MembersCounts(lib, rest))
  {
    hide MemberOk, Depth, MemberCounts;
  }

  lemma ElementsMeasures(lib: Library, e: Element, rest: Elements)
    requires ElementOk(e) && ElementsOk(rest)
    ensures var es := MoreElements(e, rest);
            ElementsOk(es) && ElementsDepth(es) == Max(Depth(e.value), ElementsDepth(rest))
                && ElementsCounts(lib, es) == Plus(CountsOf(lib, e.value), ElementsCounts(lib, rest))
  {
    hide ElementOk, Depth, CountsOf;
  }

  lemma FirstElement(lib: Library, es: Elements, pointer: Text, offset: nat, position: nat)
    requires ElementsOk(es) && es.MoreElements?
    ensures ElementOk(es.e) && ValueOk(es.e.value) && ElementsOk(es.rest)
    ensures ElementsFindings(lib, es, pointer, offset, position) ==
            Findings(lib, es.e.value, Extend(pointer, Decimal(position)), offset + |es.e.before|) +
            ElementsFindings(lib, es.rest, pointer, offset + |RenderElement(es.e)| + 1, position + 1)
  {
    hide Findings, Extend, Decimal, RenderElement, ValueOk, AllWs;
  }

  lemma MemberIsRendered(s: seq<Byte>, d: nat)
    ensures ParseMember(s, d).Parsed? ==>
              var r := ParseMember(s, d); MemberOk(r.tree) && |s| == |RenderMember(r.tree)| + |r.rest|
  {
    hide ParseMember, RenderMember, MemberOk;
    if ParseMember(s, d).Parsed? { MemberSound(s, d); }
  }

  lemma ElementIsRendered(s: seq<Byte>, d: nat)
    ensures ParseElement(s, d).Parsed? ==>
              var r := ParseElement(s, d); ElementOk(r.tree) && |s| == |RenderElement(r.tree)| + |r.rest|
  {
    hide ParseElement, RenderElement, ElementOk;
    if ParseElement(s, d).Parsed? { ElementSound(s, d); }
  }

  /** What the state behind the last separator settles: nothing of the list is left to read. */
  ghost function Settled(after: State, rest: seq<Byte>): Outcome {
    Leaves(Behind(rest), after.maxDepth, after.counts, after.findings)
  }

  lemma LastMemberOutcome(lib: Library, st: State, m: Member, rest: seq<Byte>, pointer: Text, seen: Seen)
    requires MemberOk(m) && |rest| > 0
    ensures MembersOutcome(lib, Parsed(LastMember(m), rest[1..]), st, pointer, seen) ==
            Settled(AfterMember(lib, m, st, pointer, seen), rest)
  {
    hide MemberOk, Depth, MemberCounts, MemberFindings, RenderMember;
  }

  lemma MoreMembersOutcome(lib: Library, st: State, m: Member, rest: Members, left: seq<Byte>,
      pointer: Text, seen: Seen)
    requires MemberOk(m) && MembersOk(rest)
    ensures MembersOutcome(lib, Parsed(MoreMembers(m, rest), left), st, pointer, seen) ==
            MembersOutcome(lib, Parsed(rest, left), AfterMember(lib, m, st, pointer, seen), pointer,
                SeenAfterMember(m, st.index, seen))
  {
    hide Max, MembersDepth, MembersCounts, MembersOk, MemberFindings, MembersFindings, MemberCounts, Depth, Name,
      SeenAfter, RenderMember, MemberOk;
    MembersMeasures(lib, m, rest);
    FirstMember(lib, MoreMembers(m, rest), pointer, st.index, seen);
    MaxNests(st.maxDepth, st.depth, Depth(m.value), MembersDepth(rest));
    var x := MemberFindings(lib, m, pointer, st.index, seen);
    var y := MembersFindings(lib, rest, pointer, st.index + |RenderMember(m)| + 1, SeenAfterMember(m, st.index, seen));
    Nest(st.findings, x, y);
  }

  lemma MembersOutcomeAhead(lib: Library, st: State, m: Member, left: seq<Byte>, d: nat, pointer: Text, seen: Seen)
    requires MemberOk(m)
    ensures var more := ParseMembers(left, d);
            MembersOutcome(lib, if more.Parsed? then Parsed(MoreMembers(m, more.tree), more.rest)
                else Malformed, st, pointer, seen) ==
            MembersOutcome(lib, more, AfterMember(lib, m, st, pointer, seen), pointer,
                SeenAfterMember(m, st.index, seen))
  {
    hide ParseMembers, MembersOk, AfterMember, SeenAfterMember, MembersDepth, MembersCounts, MembersFindings, MemberOk;
    var more := ParseMembers(left, d);
    if more.Parsed? {
      MembersSound(left, d);
      MoreMembersOutcome(lib, st, m, more.tree, more.rest, pointer, seen);
    }
  }

  lemma MembersInSteps(lib: Library, st: State, s: seq<Byte>, d: nat, pointer: Text, seen: Seen)
    ensures ParseMember(s, d).Malformed? ==> ParseMembers(s, d).Malformed?
    ensures ParseMember(s, d).Parsed? ==>
              var r, all := ParseMember(s, d), MembersOutcome(lib, ParseMembers(s, d), st, pointer, seen);
              && MemberOk(r.tree) && |s| == |RenderMember(r.tree)| + |r.rest|
              && (At(r.rest, 0x2c) ==>
                    && (ParseMembers(s, d).Parsed? <==> ParseMembers(Behind(r.rest), d).Parsed?)
                    && all == MembersOutcome(lib, ParseMembers(Behind(r.rest), d),
                        AfterMember(lib, r.tree, st, pointer, seen), pointer, SeenAfterMember(r.tree, st.index, seen)))
              && (At(r.rest, 0x7d) ==>
                    ParseMembers(s, d).Parsed? && all == Settled(AfterMember(lib, r.tree, st, pointer, seen), r.rest))
              && (!At(r.rest, 0x2c) && !At(r.rest, 0x7d) ==> ParseMembers(s, d).Malformed?)
  {
    hide ParseMember, RenderMember, MemberOk, AfterMember, SeenAfterMember, MembersOutcome, Settled;
    if ParseMember(s, d).Parsed? {
      MemberIsRendered(s, d);
      var r := ParseMember(s, d);
      if At(r.rest, 0x2c) {
        MembersOutcomeAhead(lib, st, r.tree, Behind(r.rest), d, pointer, seen);
      } else if At(r.rest, 0x7d) {
        LastMemberOutcome(lib, st, r.tree, r.rest, pointer, seen);
      }
    }
  }

  ghost function ElementOutcome(lib: Library, e: Element, rest: seq<Byte>, s: State, pointer: Text,
      position: nat): Outcome
    requires ElementOk(e)
  {
    Leaves(rest, Max(s.maxDepth, s.depth + Depth(e.value)), Plus(s.counts, CountsOf(lib, e.value)),
           s.findings + Findings(lib, e.value, Extend(pointer, Decimal(position)), s.index + |e.before|))
  }

  ghost function AfterElement(lib: Library, e: Element, s: State, pointer: Text, position: nat): State
    requires ElementOk(e)
  {
    State(s.index + |RenderElement(e)| + 1, s.depth, Max(s.maxDepth, s.depth + Depth(e.value)),
        Plus(s.counts, CountsOf(lib, e.value)),
          s.findings + Findings(lib, e.value, Extend(pointer, Decimal(position)), s.index + |e.before|))
  }

  lemma LastElementOutcome(lib: Library, st: State, e: Element, rest: seq<Byte>, pointer: Text, position: nat)
    requires ElementOk(e) && |rest| > 0
    ensures ElementsOutcome(lib, Parsed(LastElement(e), rest[1..]), st, pointer, position) ==
            Settled(AfterElement(lib, e, st, pointer, position), rest)
  {
    hide ElementOk, Depth, CountsOf, Findings, RenderElement, Extend, Decimal;
  }

  lemma MoreElementsOutcome(lib: Library, st: State, e: Element, rest: Elements, left: seq<Byte>,
      pointer: Text, position: nat)
    requires ElementOk(e) && ElementsOk(rest)
    ensures ElementsOutcome(lib, Parsed(MoreElements(e, rest), left), st, pointer, position) ==
            ElementsOutcome(lib, Parsed(rest, left), AfterElement(lib, e, st, pointer, position), pointer, position + 1)
  {
    hide Max, ElementsDepth, ElementsCounts, ElementsOk, ElementsFindings, Findings, CountsOf, Depth, RenderElement,
      Extend, Decimal, ElementOk;
    ElementsMeasures(lib, e, rest);
    FirstElement(lib, MoreElements(e, rest), pointer, st.index, position);
    MaxNests(st.maxDepth, st.depth, Depth(e.value), ElementsDepth(rest));
    var x := Findings(lib, e.value, Extend(pointer, Decimal(position)), st.index + |e.before|);
    var y := ElementsFindings(lib, rest, pointer, st.index + |RenderElement(e)| + 1, position + 1);
    Nest(st.findings, x, y);
  }

  lemma ElementsOutcomeAhead(lib: Library, st: State, e: Element, left: seq<Byte>, d: nat, pointer: Text, position: nat)
    requires ElementOk(e)
    ensures var more := ParseElements(left, d);
            ElementsOutcome(lib, if more.Parsed? then Parsed(MoreElements(e, more.tree), more.rest)
                else Malformed, st, pointer, position) ==
            ElementsOutcome(lib, more, AfterElement(lib, e, st, pointer, position), pointer, position + 1)
  {
    hide ParseElements, ElementsOk, AfterElement, ElementsDepth, ElementsCounts, ElementsFindings, ElementOk;
    var more := ParseElements(left, d);
    if more.Parsed? {
      ElementsSound(left, d);
      MoreElementsOutcome(lib, st, e, more.tree, more.rest, pointer, position);
    }
  }

  lemma ElementsInSteps(lib: Library, st: State, s: seq<Byte>, d: nat, pointer: Text, position: nat)
    ensures ParseElement(s, d).Malformed? ==> ParseElements(s, d).Malformed?
    ensures ParseElement(s, d).Parsed? ==>
              var r, all := ParseElement(s, d), ElementsOutcome(lib, ParseElements(s, d), st, pointer, position);
              && ElementOk(r.tree) && |s| == |RenderElement(r.tree)| + |r.rest|
              && (At(r.rest, 0x2c) ==>
                    && (ParseElements(s, d).Parsed? <==> ParseElements(Behind(r.rest), d).Parsed?)
                    && all == ElementsOutcome(lib, ParseElements(Behind(r.rest), d),
                        AfterElement(lib, r.tree, st, pointer, position), pointer, position + 1))
              && (At(r.rest, 0x5d) ==>
                    ParseElements(s, d).Parsed? &&
                    all == Settled(AfterElement(lib, r.tree, st, pointer, position), r.rest))
              && (!At(r.rest, 0x2c) && !At(r.rest, 0x5d) ==> ParseElements(s, d).Malformed?)
  {
    hide ParseElement, RenderElement, ElementOk, AfterElement, ElementsOutcome, Settled;
    if ParseElement(s, d).Parsed? {
      ElementIsRendered(s, d);
      var r := ParseElement(s, d);
      if At(r.rest, 0x2c) {
        ElementsOutcomeAhead(lib, st, r.tree, Behind(r.rest), d, pointer, position);
      } else if At(r.rest, 0x5d) {
        LastElementOutcome(lib, st, r.tree, r.rest, pointer, position);
      }
    }
  }

  lemma AfterMemberIsItsOutcome(lib: Library, r: Parse<Member>, st: State, pointer: Text, seen: Seen)
    requires r.Parsed? && MemberOk(r.tree)
    ensures var o, after := MemberOutcome(lib, r, st, pointer, seen), AfterMember(lib, r.tree, st, pointer, seen);
            && o == Leaves(r.rest, after.maxDepth, after.counts, after.findings)
            && after.index == st.index + |RenderMember(r.tree)| + 1 && after.depth == st.depth
  {
    hide MemberFindings, MemberCounts, Depth, RenderMember, MemberOk;
  }

  lemma AfterElementIsItsOutcome(lib: Library, e: Element, rest: seq<Byte>, st: State, pointer: Text, position: nat)
    requires ElementOk(e)
    ensures var o, after := ElementOutcome(lib, e, rest, st, pointer, position),
            AfterElement(lib, e, st, pointer, position);
            && o == Leaves(rest, after.maxDepth, after.counts, after.findings)
            && after.index == st.index + |RenderElement(e)| + 1 && after.depth == st.depth
  {
    hide Findings, CountsOf, Depth, RenderElement, Extend, Decimal;
  }

  lemma ElementShape(s: seq<Byte>, d: nat)
    ensures var v := ParseValue(SkipWs(s), d);
            && (ParseElement(s, d).Parsed? <==> v.Parsed?)
            && (v.Parsed? ==>
                  var r := ParseElement(s, d);
                  ElementOk(r.tree) && ValueOk(v.tree) && r.rest == SkipWs(v.rest) && r.tree.value == v.tree
                      && |r.tree.before| == |s| - |SkipWs(s)|)
  {
    hide WsLen, AllWs, AtWs, ParseValue, ValueOk, Depth, Render;
    if ParseElement(s, d).Parsed? { ElementSound(s, d); }
  }

  /******** Scalars ********/

  lemma StringValueOutcome(lib: Library, s: seq<Byte>, d: nat, st: State, pointer: Text)
    requires At(s, 0x22)
    ensures var ps := ParsePieces(Behind(s));
            && (ParseValue(s, d + 1).Parsed? <==> ps.Parsed?)
            && (ps.Parsed? ==>
                  && PiecesOk(ps.tree)
                  && ValueOutcome(lib, ParseValue(s, d + 1), st, pointer) ==
                     Leaves(ps.rest, Max(st.maxDepth, st.depth + 1), Plus(st.counts, Counts(0, 1, 0, 0, 0)),
                         st.findings + StringFindings(lib, ps.tree, pointer, st.index)))
  {
    hide ParsePieces, ParseMembers, ParseElements, ParseNumber, PiecesOk, StringFindings, WsLen;
    if ParsePieces(Behind(s)).Parsed? { PiecesSound(Behind(s)); }
  }

  lemma NumberValueOutcome(lib: Library, s: seq<Byte>, d: nat, st: State, pointer: Text)
    requires |s| > 0 && (s[0] == 0x2d || IsDigit(s[0]))
    ensures var n := ParseNumber(s);
            && (ParseValue(s, d + 1).Parsed? <==> n.Parsed?)
            && (n.Parsed? ==>
                  ValueOutcome(lib, ParseValue(s, d + 1), st, pointer) ==
                  Leaves(n.rest, Max(st.maxDepth, st.depth + 1), Plus(st.counts, NumberCounts(lib, n.tree)),
                         st.findings + NumberFindings(lib, n.tree, pointer, st.index)))
  {
    hide ParsePieces, ParseMembers, ParseElements, ParseNumber, NumberOk, NumberFindings, NumberCounts, WsLen;
    if ParseNumber(s).Parsed? { NumberSound(s); }
  }

  lemma WordValueOutcome(lib: Library, s: seq<Byte>, k: Keyword, d: nat, st: State, pointer: Text)
    requires At(s, Spelling(k)[0])
    ensures var w := ParseKeyword(s, k);
            && (ParseValue(s, d + 1).Parsed? <==> w.Parsed?)
            && (w.Parsed? ==>
                  && |w.rest| < |s|
                  && ValueOutcome(lib, ParseValue(s, d + 1), st, pointer) == Leaves(w.rest,
                      Max(st.maxDepth, st.depth + 1), st.counts, st.findings))
  {
    hide ParsePieces, ParseMembers, ParseElements, ParseNumber, WsLen;
    assert st.findings + [] == st.findings;
  }

  lemma NoValueOutcome(s: seq<Byte>, d: nat)
    requires d == 0 || |s| == 0 ||
             !(s[0] in {0x7b, 0x5b, 0x22, 0x74, 0x66, 0x6e, 0x2d} || IsDigit(s[0]))
    ensures ParseValue(s, d).Malformed?
  {
  }

  /** Going down a level early does not change the deepest level reached. */
  lemma OuterOutcome(lib: Library, r: Parse<Value>, st: State, pointer: Text)
    ensures ValueOutcome(lib, r, st.(maxDepth := Max(st.maxDepth, st.depth + 1)), pointer) ==
            ValueOutcome(lib, r, st, pointer)
  {
    hide Findings, CountsOf, ValueOk;
  }

  /** Skipping whitespace again changes nothing. */
  lemma SkipTwice(from: seq<Byte>)
    ensures SkipWs(SkipWs(from)) == SkipWs(from)
  {
  }

  lemma EmptyOutcome(lib: Library, s: seq<Byte>, d: nat, st: State, pointer: Text)
    requires d > 0 && |s| > 0 && (s[0] == 0x7b || s[0] == 0x5b) && At(SkipWs(Behind(s)), s[0] + 2)
    ensures ParseValue(s, d).Parsed?
    ensures ValueOutcome(lib, ParseValue(s, d), st, pointer) == Leaves(Behind(SkipWs(Behind(s))),
            Max(st.maxDepth, st.depth + 1), st.counts, st.findings)
  {
    hide WsLen, AllWs, ParseMembers, ParseElements, ParsePieces, ParseNumber;
    WsFacts(s[1..]);
    assert st.findings + [] == st.findings;
  }

  lemma ObjectOutcome(lib: Library, s: seq<Byte>, d: nat, st: State, pointer: Text)
    requires At(s, 0x7b) && !At(SkipWs(Behind(s)), 0x7d)
    ensures var ms := ParseMembers(Behind(s), d);
            && (ParseValue(s, d + 1).Parsed? <==> ms.Parsed?)
            && ValueOutcome(lib, ParseValue(s, d + 1), st, pointer) == MembersOutcome(lib, ms,
                st.(index := st.index + 1, depth := st.depth + 1), pointer, map[])
  {
    hide WsLen, ParseMembers, ParseElements, ParsePieces, ParseNumber, MembersFindings, MembersCounts,
      MembersDepth, MembersOk;
  }

  lemma ArrayOutcome(lib: Library, s: seq<Byte>, d: nat, st: State, pointer: Text)
    requires At(s, 0x5b) && !At(SkipWs(Behind(s)), 0x5d)
    ensures var es := ParseElements(Behind(s), d);
            && (ParseValue(s, d + 1).Parsed? <==> es.Parsed?)
            && ValueOutcome(lib, ParseValue(s, d + 1), st, pointer) == ElementsOutcome(lib, es,
                st.(index := st.index + 1, depth := st.depth + 1), pointer, 0)
  {
    hide WsLen, ParseMembers, ParseElements, ParsePieces, ParseNumber, ElementsFindings, ElementsCounts,
      ElementsDepth, ElementsOk;
  }

  /******** Documents ********/

  /** The bytes are this document's text, and it stays within the depth limit. */
  ghost predicate Spells(d: Document, bytes: seq<Byte>) {
    DocumentOk(d) && Depth(d.value) <= 512 && RenderDocument(d) == bytes
  }

  /** What a scan of a document reports: deepest level, counts and findings. */
  ghost function Summary(lib: Library, d: Document): (nat, Counts, seq<Finding>)
    requires DocumentOk(d)
  {
    (Depth(d.value), CountsOf(lib, d.value), Findings(lib, d.value, [], |d.before|))
  }

  lemma DocumentOutcome(lib: Library, s: seq<Byte>)
    ensures var v := ParseValue(SkipWs(s), MAX_DEPTH);
            && (v.Parsed? && |SkipWs(v.rest)| == 0 ==> exists d: Document :: Spells(d, s))
            && forall d: Document :: Spells(d, s) ==>
                 && v.Parsed? && |SkipWs(v.rest)| == 0
                 && ValueOutcome(lib, v, State(|s| - |SkipWs(s)|, 0, 0, NOTHING, []), []) == Leaves(v.rest,
                     Summary(lib, d).0, Summary(lib, d).1, Summary(lib, d).2)
  {
    hide ParseValue, WsLen, Findings, CountsOf, Depth, ValueOk, AllWs;
    var v := ParseValue(SkipWs(s), MAX_DEPTH);
    if v.Parsed? && |SkipWs(v.rest)| == 0 {
      var d := Document(s[..WsLen(s)], v.tree, v.rest[..WsLen(v.rest)]);
      ReadsExactlyTheGrammar(s, d);
      assert Spells(d, s);
    }
    forall d: Document | Spells(d, s)
      ensures v.Parsed? && |SkipWs(v.rest)| == 0
      ensures ValueOutcome(lib, v, State(|s| - |SkipWs(s)|, 0, 0, NOTHING, []), []) == Leaves(v.rest, Summary(lib, d).0,
              Summary(lib, d).1, Summary(lib, d).2)
    {
      ReadsExactlyTheGrammar(s, d);
      var fs := Findings(lib, v.tree, [], WsLen(s));
      assert [] + fs == fs;
    }
  }

  class Scanner {
    const bytes: seq<Byte>
    const lib: Library
    var index: nat
    var depth: nat
    var maxDepth: nat
    var memberCount: nat
    var stringCount: nat
    var numberCount: nat
    var inexactNumberCount: nat
    var largeMagnitudeNumberCount: nat
    var findings: seq<Finding>

    constructor (lib: Library, bytes: seq<Byte>)
      ensures this.lib == lib && this.bytes == bytes && Now() == State(0, 0, 0, NOTHING, [])
    {
      this.lib, this.bytes := lib, bytes;
      index, depth, maxDepth, memberCount, stringCount, numberCount, findings := 0, 0, 0, 0, 0, 0, [];
      inexactNumberCount, largeMagnitudeNumberCount := 0, 0;
    }

    function Tally(): Counts
      reads this
    {
      Counts(memberCount, stringCount, numberCount, inexactNumberCount, largeMagnitudeNumberCount)
    }

    function Now(): State
      reads this
    {
      State(index, depth, maxDepth, Tally(), findings)
    }

    function Rest(): (s: seq<Byte>)
      reads this`index
      ensures index <= |bytes| ==> |s| == |bytes| - index
    {
      if index <= |bytes| then bytes[index..] else []
    }

    /** The scanner stands where this parse ends. */
    predicate Reached<T>(r: Parse<T>)
      reads this`index
    {
      r.Parsed? && index <= |bytes| && Rest() == r.rest
    }

    /** The byte at the index, or -1 at the end. */
    function Peek(): (b: int)
      reads this`index
      ensures b == if |Rest()| > 0 then Rest()[0] else -1
    {
      if index < |bytes| then bytes[index] else -1
    }

    method SkipWhitespace()
      requires index <= |bytes|
      modifies `index
      ensures old(index) <= index <= |bytes| && Rest() == SkipWs(old(Rest()))
    {
      while index < |bytes| && IsWs(bytes[index])
        invariant old(index) <= index <= |bytes|
        invariant WsLen(bytes[old(index)..]) == index - old(index) + WsLen(bytes[index..])
      {
        assert bytes[index..][1..] == bytes[index + 1..];
        index := index + 1;
      }
      assert bytes[old(index)..][index - old(index)..] == bytes[index..];
    }

    method SkipDigits()
      requires index <= |bytes|
      modifies `index
      ensures index == old(index) + DigitLen(old(Rest())) && index <= |bytes|
              && Rest() == old(Rest())[DigitLen(old(Rest()))..]
    {
      hide DigitLen, AllDigits;
      while 0x30 <= Peek() <= 0x39
        invariant old(index) <= index <= |bytes|
        invariant DigitLen(bytes[old(index)..]) == index - old(index) + DigitLen(bytes[index..])
        decreases |bytes| - index
      {
        DigitStep(bytes[index..]);
        assert bytes[index..][1..] == bytes[index + 1..];
        index := index + 1;
      }
      DigitStep(bytes[index..]);
      assert bytes[old(index)..][index - old(index)..] == bytes[index..];
    }

    method Expect(b: Byte) returns (ok: bool)
      requires index <= |bytes|
      modifies `index
      ensures ok <==> At(old(Rest()), b)
      ensures ok ==> index == old(index) + 1 && index <= |bytes| && Rest() == Behind(old(Rest()))
    {
      if Peek() != b {
        return false;
      }
      assert bytes[index..][1..] == bytes[index + 1..];
      index := index + 1;
      ok := true;
    }

    method ScanKeyword(k: Keyword) returns (ok: bool)
      requires index <= |bytes|
      modifies `index
      ensures ok <==> ParseKeyword(old(Rest()), k).Parsed?
      ensures ok ==> Reached(ParseKeyword(old(Rest()), k))
    {
      hide Spelling, ParseKeyword;
      ghost var s := bytes[index..];
      for i := 0 to |Spelling(k)|
        invariant index == old(index) + i && index <= |bytes| && s[..i] == Spelling(k)[..i]
      {
        KeywordSoFar(s, k, i);
        assert bytes[index..] == s[i..];
        if Peek() != Spelling(k)[i] {
          return false;
        }
        index := index + 1;
      }
      KeywordSoFar(s, k, |Spelling(k)|);
      assert s[|Spelling(k)|..] == bytes[index..];
      ok := true;
    }

    method SkipWhole() returns (ok: bool)
      requires index <= |bytes|
      modifies `index
      ensures ok <==> ParseWhole(old(Rest())).Parsed?
      ensures ok ==> Reached(ParseWhole(old(Rest())))
    {
      hide DigitLen, AllDigits;
      if Peek() == 0x30 {
        var _ := Expect(0x30);
        return !(0x30 <= Peek() <= 0x39);
      }
      ok := 0x30 <= Peek() <= 0x39;
      if ok {
        SkipDigits();
      }
    }

    method SkipFraction() returns (ok: bool)
      requires index <= |bytes|
      modifies `index
      ensures ok <==> ParseFrac(old(Rest())).Parsed?
      ensures ok ==> Reached(ParseFrac(old(Rest())))
    {
      if Peek() != 0x2e {
        return true;
      }
      var _ := Expect(0x2e);
      DigitsPresent(Rest());
      hide DigitLen, AllDigits;
      ok := 0x30 <= Peek() <= 0x39;
      if ok {
        SkipDigits();
      }
    }

    method SkipExponent() returns (ok: bool)
      requires index <= |bytes|
      modifies `index
      ensures ok <==> ParseExp(old(Rest())).Parsed?
      ensures ok ==> Reached(ParseExp(old(Rest())))
    {
      if Peek() != 0x65 && Peek() != 0x45 {
        return true;
      }
      var _ := Expect(Peek());
      if Peek() == 0x2b || Peek() == 0x2d {
        var _ := Expect(Peek());
      }
      DigitsPresent(Rest());
      hide DigitLen, AllDigits;
      ok := 0x30 <= Peek() <= 0x39;
      if ok {
        SkipDigits();
      }
    }

    /** A number's literal, and whether it is written without point and exponent. */
    method SkipNumber() returns (ok: bool, isInteger: bool)
      requires index <= |bytes|
      modifies `index
      ensures ok <==> ParseNumber(old(Rest())).Parsed?
      ensures ok ==> Reached(ParseNumber(old(Rest()))) && (isInteger <==>
              WrittenAsInteger(ParseNumber(old(Rest())).tree))
    {
      hide ParseWhole, ParseFrac, ParseExp, ParseNumber, WrittenAsInteger, Behind, Rest;
      NumberShape(Rest());
      isInteger := true;
      if Peek() == 0x2d {
        var _ := Expect(0x2d);
      }
      ok := SkipWhole();
      if !ok {
        return;
      }
      FractionShown(Rest());
      if Peek() == 0x2e {
        isInteger := false;
      }
      ok := SkipFraction();
      if !ok {
        return;
      }
      ExponentShown(Rest());
      if Peek() == 0x65 || Peek() == 0x45 {
        isInteger := false;
      }
      ok := SkipExponent();
    }

    /** Scans one number and reports what a parse would do to it. */
    method ScanNumber(pointer: Text) returns (ok: bool)
      requires index <= |bytes|
      modifies `index, `findings, `inexactNumberCount, `largeMagnitudeNumberCount
      ensures ok <==> ParseNumber(old(Rest())).Parsed?
      ensures ok ==> var r := ParseNumber(old(Rest()));
                     && Reached(r) && findings == old(findings) + NumberFindings(lib, r.tree, pointer, old(index))
                     && inexactNumberCount == old(inexactNumberCount) + NumberCounts(lib, r.tree).inexact
                     && largeMagnitudeNumberCount == old(largeMagnitudeNumberCount) + NumberCounts(lib, r.tree).large
    {
      hide ParseNumber, RenderNumber, NumberOk;
      ghost var s := Rest();
      var start := index;
      var isInteger;
      ok, isInteger := SkipNumber();
      if !ok {
        return;
      }
      ghost var n := ParseNumber(s).tree;
      LiteralIsRendered(s);
      var literal := bytes[start..index];
      assert literal == RenderNumber(n);
      ReportNumber(pointer, start, literal, isInteger, n);
    }

    method ReportNumber(pointer: Text, start: nat, literal: seq<Byte>, isInteger: bool, ghost n: Number)
      requires literal == RenderNumber(n) && (isInteger <==> WrittenAsInteger(n))
      modifies `findings, `inexactNumberCount, `largeMagnitudeNumberCount
      ensures findings == old(findings) + NumberFindings(lib, n, pointer, start)
      ensures inexactNumberCount == old(inexactNumberCount) + NumberCounts(lib, n).inexact
      ensures largeMagnitudeNumberCount == old(largeMagnitudeNumberCount) + NumberCounts(lib, n).large
    {
      hide RenderNumber, Exact.Finite, Exact.IsZero, Exact.LiteralToExactDecimal, Exact.LiteralEqualsDouble,
        Exact.SameExactDecimalValue,
        Exact.AbsoluteIntegerValue, Exact.DoubleToExactBinary;
      var parsed := lib.round(literal);
      if !Exact.Finite(parsed) {
        findings := findings + [OverflowToInfinity(pointer, start)];
        return;
      }
      var exact := Exact.LiteralToExactDecimal(literal);
      if Exact.IsZero(parsed) && exact.digits != 0 {
        findings := findings + [UnderflowToZero(pointer, start)];
        return;
      }
      var lossy := Exact.LiteralEqualsDouble(literal, parsed) == Some(false);
      if lossy {
        inexactNumberCount := inexactNumberCount + 1;
      }
      if !Exact.SameExactDecimalValue(literal, lib.render(parsed)) {
        findings := findings + [NonRoundTripping(pointer, start, lossy)];
      }
      var magnitude := Exact.AbsoluteIntegerValue(exact);
      if magnitude.Some? && magnitude.value > MAX_SAFE_INTEGER {
        largeMagnitudeNumberCount := largeMagnitudeNumberCount + 1;
        if isInteger {
          findings := findings + [UnsafeMagnitude(pointer, start)];
        }
      }
    }

    /** Reads four hexadecimal digits behind `\u`. */
    method ReadFourHexDigits() returns (ok: bool, unit: int)
      requires index <= |bytes|
      modifies `index
      ensures ok <==> var s := old(Rest()); |s| >= 4 && PieceOk(Hex4(s[0], s[1], s[2], s[3]))
      ensures ok ==> var s := old(Rest());
                     unit == UnitOf(Hex4(s[0], s[1], s[2], s[3])) && index == old(index) + 4 && index <= |bytes|
                         && Rest() == s[4..]
    {
      ghost var s := bytes[index..];
      unit := 0;
      for position := 0 to 4
        invariant index == old(index) + position && index <= |bytes|
        invariant forall i :: 0 <= i < position ==> HexValue(s[i]) >= 0
        invariant position == 0 ==> unit == 0
        invariant position == 1 ==> unit == HexValue(s[0])
        invariant position == 2 ==> unit == HexValue(s[0]) * 16 + HexValue(s[1])
        invariant position == 3 ==> unit == (HexValue(s[0]) * 16 + HexValue(s[1])) * 16 + HexValue(s[2])
        invariant position == 4 ==>
                  unit == ((HexValue(s[0]) * 16 + HexValue(s[1])) * 16 + HexValue(s[2])) * 16 + HexValue(s[3])
      {
        if Peek() == -1 || HexValue(bytes[index]) < 0 {
          return false, 0;
        }
        assert s[position] == bytes[index];
        unit := unit * 16 + HexValue(bytes[index]);
        index := index + 1;
      }
      assert s[4..] == bytes[index..];
      ok := true;
    }

    /** Looks ahead for the escape of a low surrogate without consuming it. */
    method PeekLowSurrogateEscape() returns (paired: Option<Unit>)
      requires index <= |bytes|
      ensures var cur := ParsePieces(Rest());
              && (cur.Parsed? ==> (paired.Some? <==> NextIsLow(cur)))
              && (paired.Some? ==>
                    && index + 6 <= |bytes| && PieceOk(Hex4(Rest()[2], Rest()[3], Rest()[4], Rest()[5]))
                    && IsLow(Hex4(Rest()[2], Rest()[3], Rest()[4], Rest()[5]))
                    && cur == Push(Hex4(Rest()[2], Rest()[3], Rest()[4], Rest()[5]), ParsePieces(Rest()[6..]))
                    && paired.value == UnitOf(Hex4(Rest()[2], Rest()[3], Rest()[4], Rest()[5])))
    {
      ghost var s := Rest();
      if index + 6 > |bytes| || bytes[index] != 0x5c || bytes[index + 1] != 0x75 {
        return None;
      }
      assert s[0] == bytes[index] && s[1] == bytes[index + 1];
      var piece := Hex4(bytes[index + 2], bytes[index + 3], bytes[index + 4], bytes[index + 5]);
      assert piece == Hex4(s[2], s[3], s[4], s[5]);
      if !PieceOk(piece) {
        return None;
      }
      var value := UnitOf(piece);
      hide UnitOf;
      paired := if 0xdc00 <= value <= 0xdfff then Some(value) else None;
    }

    /** One piece of a string, or the closing quote. */
    method ScanPiece(units: seq<Unit>, sawLone: bool)
        returns (ok: bool, closed: bool, units': seq<Unit>, sawLone': bool)
      requires index <= |bytes|
      modifies `index
      ensures !ok ==> ParsePieces(old(Rest())).Malformed?
      ensures ok ==>
                && old(index) < index <= |bytes|
                && StringOutcome(ParsePieces(old(Rest())), units, sawLone) ==
                   if closed then Some((units', sawLone', Rest()))
                       else StringOutcome(ParsePieces(Rest()), units', sawLone')
    {
      ghost var s := Rest();
      units', sawLone', closed := units, sawLone, false;
      var byte := Peek();
      if byte == -1 || (byte < 0x20 && byte != 0x22) {
        ok := false;
      } else if byte == 0x22 {
        NothingMore(s, units, sawLone);
        hide *;
        index := index + 1;
        assert Rest() == s[1..];
        ok, closed := true, true;
      } else if byte == 0x5c {
        ok, units', sawLone' := ScanEscape(units, sawLone);
      } else {
        OnePiece(Raw(byte), ParsePieces(s[1..]), units, sawLone);
        hide StringOutcome;
        index := index + 1;
        assert Rest() == s[1..];
        ok, units' := true, units + [byte];
      }
    }

    method ScanEscape(units: seq<Unit>, sawLone: bool) returns (ok: bool, units': seq<Unit>, sawLone': bool)
      requires index <= |bytes| && Peek() == 0x5c
      modifies `index
      ensures !ok ==> ParsePieces(old(Rest())).Malformed?
      ensures ok ==> old(index) < index <= |bytes|
      ensures ok ==> StringOutcome(ParsePieces(old(Rest())), units, sawLone) ==
                     StringOutcome(ParsePieces(Rest()), units', sawLone')
    {
      ghost var s := Rest();
      units', sawLone' := units, sawLone;
      index := index + 1;
      assert Rest() == s[1..];
      var escape := Peek();
      if escape == -1 {
        return false, units, sawLone;
      }
      index := index + 1;
      assert Rest() == s[2..] && s[1] == escape;
      if IsShortEscape(escape) {
        OnePiece(Short(escape), ParsePieces(s[2..]), units, sawLone);
        hide StringOutcome;
        ok, units' := true, units + [ShortUnit(escape)];
      } else if escape == 0x75 {
        ok, units', sawLone' := ScanUnicodeEscape(units, sawLone);
      } else {
        ok := false;
      }
    }

    /** Behind `\u`: four digits, and with a high surrogate the low one that may follow. */
    method ScanUnicodeEscape(units: seq<Unit>, sawLone: bool) returns (ok: bool, units': seq<Unit>, sawLone': bool)
      requires index <= |bytes|
      modifies `index
      ensures var s := old(Rest());
              && (ok <==> |s| >= 4 && PieceOk(Hex4(s[0], s[1], s[2], s[3])))
              && (ok ==>
                    && old(index) < index <= |bytes|
                    && StringOutcome(Push(Hex4(s[0], s[1], s[2], s[3]), ParsePieces(s[4..])), units, sawLone) ==
                       StringOutcome(ParsePieces(Rest()), units', sawLone'))
    {
      ghost var s := Rest();
      var unit;
      ok, unit := ReadFourHexDigits();
      units', sawLone' := units, sawLone;
      if ok {
        ghost var p, more := Hex4(s[0], s[1], s[2], s[3]), ParsePieces(s[4..]);
        units' := units + [unit];
        if 0xd800 <= unit <= 0xdbff {
          var paired := PeekLowSurrogateEscape();
          if paired.None? {
            sawLone' := true;
            LoneHigh(p, more, units, sawLone);
          } else {
            ghost var t := Rest();
            units' := units' + [paired.value];
            SurrogatePair(p, Hex4(t[2], t[3], t[4], t[5]), ParsePieces(t[6..]), units, sawLone);
            index := index + 6;
            assert Rest() == t[6..];
          }
        } else {
          OnePiece(p, more, units, sawLone);
          if 0xdc00 <= unit <= 0xdfff {
            sawLone' := true;
          }
        }
      }
    }

    /** Reads a string and returns its decoded value. */
    method ScanString(pointer: Text) returns (ok: bool, name: Text)
      requires index <= |bytes|
      modifies `index, `findings
      ensures var s := old(Rest());
              && (ok <==> At(s, 0x22) && ParsePieces(Behind(s)).Parsed?)
              && (ok ==>
                    var r := ParsePieces(Behind(s));
                    && Reached(r) && PiecesOk(r.tree)
                    && name == Name(r.tree) && findings == old(findings) +
                        StringFindings(lib, r.tree, pointer, old(index)))
    {
      hide StringOutcome, ParsePieces, PiecesOk, Units, HasLoneSurrogate, DecodeUnits, StringFindings, NameOfUnits,
        RenderString, Behind, NotNormal;
      ghost var s := Rest();
      var start := index;
      name := [];
      ok := Expect(0x22);
      if !ok {
        return;
      }
      ghost var r := ParsePieces(Behind(s));
      var units: seq<Unit>, sawLone, closed := [], false, false;
      while !closed
        invariant start < index <= |bytes| && findings == old(findings)
        invariant StringOutcome(r, [], false) == if closed then Some((units, sawLone, Rest()))
                  else StringOutcome(ParsePieces(Rest()), units, sawLone)
        decreases |bytes| - index, !closed
      {
        NoOutcome(ParsePieces(Rest()), units, sawLone);
        ok, closed, units, sawLone := ScanPiece(units, sawLone);
        if !ok {
          StringOutcomeFails(Behind(s));
          return;
        }
      }
      StringClosed(r, units, sawLone, Rest());
      BehindFirst(s);
      SpanIsRendered(s, r);
      assert bytes[start..index] == s[..|s| - |r.rest|];
      name := NameOfUnits(units, bytes[start..index]);
      ReportString(pointer, start, units, sawLone, r.tree);
    }

    method ReportString(pointer: Text, start: nat, units: seq<Unit>, sawLone: bool, ghost ps: seq<Piece>)
      requires PiecesOk(ps) && units == Units(ps) && (sawLone <==> HasLoneSurrogate(ps))
      modifies `findings
      ensures findings == old(findings) + StringFindings(lib, ps, pointer, start)
    {
      hide PiecesOk, Units, HasLoneSurrogate, DecodeUnits;
      if sawLone {
        findings := findings + [LoneSurrogateEscape(pointer, start)];
      }
      var decoded := DecodeUnits(units, TextDecode);
      if decoded.Some? && !lib.normal(decoded.value) {
        findings := findings + [NonNfcString(pointer, start)];
      }
    }

    ghost predicate Holds(o: Outcome)
      reads this
    {
      o.Leaves? && index <= |bytes| && Rest() == o.rest && maxDepth == o.maxDepth && findings == o.findings
      && Tally() == o.counts
    }

    /** The state before `ScanValue` went one level down. */
    ghost function Outer(): State
      requires depth > 0
      reads this
    {
      Now().(depth := depth - 1)
    }

    /** A member name, counted and checked against the names before it. */
    method ScanName(pointer: Text, seen: Seen) returns (ok: bool, name: Text, seen': Seen)
      requires index <= |bytes|
      modifies `index, `findings, `memberCount, `stringCount
      ensures var s := old(Rest());
              && (ok <==> At(s, 0x22) && ParsePieces(Behind(s)).Parsed?)
              && (ok ==>
                    var r := ParsePieces(Behind(s));
                    && Reached(r) && PiecesOk(r.tree) && name == Name(r.tree)
                        && seen' == SeenAfter(name, old(index), seen)
                    && memberCount == old(memberCount) + 1 && stringCount == old(stringCount) + 1
                    && findings == (old(findings) + StringFindings(lib, r.tree, pointer, old(index))) +
                        NameFindings(name, pointer, old(index), seen))
    {
      hide ParsePieces, PiecesOk, StringFindings, Name, Extend, Behind, Rest;
      var nameOffset := index;
      seen' := seen;
      ok, name := ScanString(pointer);
      if !ok {
        return;
      }
      stringCount, memberCount := stringCount + 1, memberCount + 1;
      if name in seen {
        findings := findings + [DuplicateMemberName(Extend(pointer, name), nameOffset, seen[name])];
      } else {
        seen' := seen[name := nameOffset];
      }
    }

    /** The colon and the value of a member, with the whitespace around them. */
    method ScanMemberValue(pointer: Text) returns (ok: bool)
      requires index <= |bytes| && depth <= MAX_DEPTH
      modifies this
      ensures var b := SkipWs(old(Rest()));
              var c := SkipWs(Behind(b));
              var v := ParseValue(c, MAX_DEPTH - old(depth));
              && (ok <==> At(b, 0x3a) && v.Parsed?)
              && (ok ==>
                    var o := ValueOutcome(lib, v, old(Now()).(index := |bytes| - |c|), pointer);
                    depth == old(depth) && index > old(index) && o.Leaves? && Holds(o.(rest := SkipWs(v.rest))))
      decreases |bytes| - index, 3
    {
      hide WsLen, SkipWs, Behind, Rest, ParseValue, ValueOk, Findings, Depth, CountsOf;
      SkipWhitespace();
      ok := Expect(0x3a);
      if !ok {
        return;
      }
      SkipWhitespace();
      ok := ScanValue(pointer);
      if !ok {
        return;
      }
      SkipWhitespace();
    }

    /** A member from its name on; `from` is the text with the whitespace before it. */
    method ScanMember(pointer: Text, seen: Seen, ghost from: seq<Byte>) returns (ok: bool, seen': Seen)
      requires index <= |bytes| && depth <= MAX_DEPTH && |from| <= |bytes| && Rest() == SkipWs(from)
      modifies this
      ensures ok <==> ParseMember(from, MAX_DEPTH - old(depth)).Parsed?
      ensures ok ==> var r, st := ParseMember(from, MAX_DEPTH - old(depth)), old(Now()).(index := |bytes| - |from|);
                     && MemberOk(r.tree) && depth == old(depth) && index > old(index)
                     && Holds(MemberOutcome(lib, r, st, pointer, seen))
                         && seen' == SeenAfterMember(r.tree, st.index, seen)
      decreases |bytes| - index, 0
    {
      hide WsLen, AllWs, AtWs, SkipWs, Behind, Rest, ParseMember, MemberCounts, ParsePieces, ParseValue,
        PiecesOk, ValueOk,
        StringFindings, Name, Extend, Findings, Depth, CountsOf, ValueOffset, MemberFindings, MemberOk,
            NameFindings, SeenAfter;
      ghost var d, st := MAX_DEPTH - depth, Now().(index := |bytes| - |from|);
      MemberShape(from, d);
      var name;
      ok, name, seen' := ScanName(pointer, seen);
      if !ok {
        return;
      }
      ok := ScanMemberValue(Extend(pointer, name));
      if !ok {
        return;
      }
      MemberFindingsGrouped(lib, ParseMember(from, d).tree, pointer, st.index, seen, st.findings);
      MemberCountsGrouped(lib, ParseMember(from, d).tree, st.counts);
    }

    /**
     * One turn of the loop over members: a member and the comma or brace behind it. `more` says that it was a comma.
     */
    method ScanNextMember(pointer: Text, seen: Seen, ghost from: seq<Byte>)
      returns (ok: bool, more: bool, seen': Seen)
      requires index <= |bytes| && depth <= MAX_DEPTH && |from| <= |bytes| && (Rest() == from || Rest() == SkipWs(from))
      modifies this
      ensures ok <==> var r := ParseMember(from, MAX_DEPTH - old(depth));
                      r.Parsed? && (At(r.rest, 0x2c) || At(r.rest, 0x7d))
      ensures ok ==> var r, st := ParseMember(from, MAX_DEPTH - old(depth)), old(Now()).(index := |bytes| - |from|);
                     && MemberOk(r.tree) && more == At(r.rest, 0x2c) && old(index) < index <= |bytes|
                     && Rest() == Behind(r.rest) && depth == old(depth)
                         && Now() == AfterMember(lib, r.tree, st, pointer, seen)
                     && seen' == SeenAfterMember(r.tree, st.index, seen)
      decreases |bytes| - index, 1
    {
      hide WsLen, SkipWs, Behind, Rest, ParseMember, MemberOk, SeenAfterMember, MemberOutcome,
        AfterMember, RenderMember;
      ghost var st := Now().(index := |bytes| - |from|);
      more := false;
      SkipTwice(from);
      SkipWhitespace();
      MemberIsRendered(from, MAX_DEPTH - depth);
      ok, seen' := ScanMember(pointer, seen, from);
      if !ok {
        return;
      }
      AfterMemberIsItsOutcome(lib, ParseMember(from, MAX_DEPTH - depth), st, pointer, seen);
      if Peek() == 0x2c {
        ok := Expect(0x2c);
        more := true;
      } else {
        ok := Expect(0x7d);
      }
    }

    method ScanObject(pointer: Text) returns (ok: bool)
      requires index <= |bytes| && At(Rest(), 0x7b) && 0 < depth <= MAX_DEPTH && depth <= maxDepth
      modifies this
      ensures ok <==> ParseValue(old(Rest()), MAX_DEPTH + 1 - old(depth)).Parsed?
      ensures ok ==> depth == old(depth) && index > old(index)
      ensures ok ==> Holds(ValueOutcome(lib, ParseValue(old(Rest()), MAX_DEPTH + 1 - old(depth)),
              old(Outer()), pointer))
      decreases |bytes| - index, 1
    {
      hide Plus, WsLen, AllWs, AtWs, SkipWs, Behind, Rest, AfterMember, ParseMember, ParseMembers, ParseValue,
        MemberOutcome, MembersOutcome, ValueOutcome, MemberOk, SeenAfterMember, RenderMember;
      ghost var s, d, outer := Rest(), MAX_DEPTH - depth, Outer();
      ok := Expect(0x7b);
      ghost var from, st := Rest(), Now();
      SkipWhitespace();
      if Peek() == 0x7d {
        EmptyOutcome(lib, s, d + 1, outer, pointer);
        ok := Expect(0x7d);
        return;
      }
      ObjectOutcome(lib, s, d, outer, pointer);
      ghost var goal := ValueOutcome(lib, ParseValue(s, d + 1), outer, pointer);
      var open: bool, seen: Seen := true, map[];
      while open
        invariant old(index) < index <= |bytes| && depth == old(depth) && ok
        invariant open ==>
            && (Rest() == from || Rest() == SkipWs(from))
            && Now() == st.(index := index) && st.index + |from| == |bytes|
            && (ParseValue(s, d + 1).Parsed? <==> ParseMembers(from, d).Parsed?)
            && goal == MembersOutcome(lib, ParseMembers(from, d), st, pointer, seen)
        invariant !open ==> ParseValue(s, d + 1).Parsed? && Holds(goal)
        decreases |bytes| - index, open
      {
        MembersInSteps(lib, st, from, d, pointer, seen);
        ok, open, seen := ScanNextMember(pointer, seen, from);
        if !ok {
          return;
        }
        from, st := Rest(), Now();
      }
    }

    /** A value between optional whitespace; `from` is the text with the whitespace before it. */
    method ScanElement(pointer: Text, position: nat, ghost from: seq<Byte>) returns (ok: bool)
      requires index <= |bytes| && |from| <= |bytes| && depth <= MAX_DEPTH && (Rest() == from || Rest() == SkipWs(from))
      modifies this
      ensures ok <==> ParseElement(from, MAX_DEPTH - old(depth)).Parsed?
      ensures ok ==> var r, st := ParseElement(from, MAX_DEPTH - old(depth)), old(Now()).(index := |bytes| - |from|);
                     ElementOk(r.tree) && depth == old(depth) && index > old(index)
                         && Holds(ElementOutcome(lib, r.tree, r.rest, st, pointer, position))
      decreases |bytes| - index, 3
    {
      hide WsLen, AllWs, AtWs, SkipWs, Behind, Rest, ParseElement, ParseValue, ValueOk, ElementOk, Findings, Depth,
        CountsOf, Extend, Decimal;
      ElementShape(from, MAX_DEPTH - depth);
      SkipTwice(from);
      SkipWhitespace();
      ok := ScanValue(Extend(pointer, Decimal(position)));
      if !ok {
        return;
      }
      SkipWhitespace();
    }

    /** One turn of the loop over elements: an element and the comma or bracket behind it. */
    method ScanNextElement(pointer: Text, position: nat, ghost from: seq<Byte>) returns (ok: bool, more: bool)
      requires index <= |bytes| && |from| <= |bytes| && depth <= MAX_DEPTH && (Rest() == from || Rest() == SkipWs(from))
      modifies this
      ensures ok <==> var r := ParseElement(from, MAX_DEPTH - old(depth));
                      r.Parsed? && (At(r.rest, 0x2c) || At(r.rest, 0x5d))
      ensures ok ==> var r, st := ParseElement(from, MAX_DEPTH - old(depth)), old(Now()).(index := |bytes| - |from|);
                     && ElementOk(r.tree) && more == At(r.rest, 0x2c) && old(index) < index <= |bytes|
                     && Rest() == Behind(r.rest) && depth == old(depth)
                         && Now() == AfterElement(lib, r.tree, st, pointer, position)
      decreases |bytes| - index, 4
    {
      hide WsLen, SkipWs, Behind, Rest, ParseElement, ElementOk, ElementOutcome, AfterElement, RenderElement;
      ghost var st := Now().(index := |bytes| - |from|);
      more := false;
      ElementIsRendered(from, MAX_DEPTH - depth);
      ok := ScanElement(pointer, position, from);
      if !ok {
        return;
      }
      ghost var r := ParseElement(from, MAX_DEPTH - depth);
      AfterElementIsItsOutcome(lib, r.tree, r.rest, st, pointer, position);
      if Peek() == 0x2c {
        ok := Expect(0x2c);
        more := true;
      } else {
        ok := Expect(0x5d);
      }
    }

    method ScanArray(pointer: Text) returns (ok: bool)
      requires index <= |bytes| && At(Rest(), 0x5b) && 0 < depth <= MAX_DEPTH && depth <= maxDepth
      modifies this
      ensures ok <==> ParseValue(old(Rest()), MAX_DEPTH + 1 - old(depth)).Parsed?
      ensures ok ==> depth == old(depth) && index > old(index)
      ensures ok ==> Holds(ValueOutcome(lib, ParseValue(old(Rest()), MAX_DEPTH + 1 - old(depth)),
              old(Outer()), pointer))
      decreases |bytes| - index, 1
    {
      hide Plus, WsLen, AllWs, AtWs, SkipWs, Behind, Rest, AfterElement, ParseElement, ParseElements, ParseValue,
        ElementsOutcome, ElementOutcome, ValueOutcome, ElementOk, RenderElement;
      ghost var s, d, outer := Rest(), MAX_DEPTH - depth, Outer();
      ok := Expect(0x5b);
      ghost var from, st := Rest(), Now();
      SkipWhitespace();
      if Peek() == 0x5d {
        EmptyOutcome(lib, s, d + 1, outer, pointer);
        ok := Expect(0x5d);
        return;
      }
      ArrayOutcome(lib, s, d, outer, pointer);
      ghost var goal := ValueOutcome(lib, ParseValue(s, d + 1), outer, pointer);
      var open, position := true, 0;
      while open
        invariant old(index) < index <= |bytes| && depth == old(depth) && ok
        invariant open ==>
            && (Rest() == from || Rest() == SkipWs(from))
            && Now() == st.(index := index) && st.index + |from| == |bytes|
            && (ParseValue(s, d + 1).Parsed? <==> ParseElements(from, d).Parsed?)
            && goal == ElementsOutcome(lib, ParseElements(from, d), st, pointer, position)
        invariant !open ==> ParseValue(s, d + 1).Parsed? && Holds(goal)
        decreases |bytes| - index, open
      {
        ElementsInSteps(lib, st, from, d, pointer, position);
        ok, open := ScanNextElement(pointer, position, from);
        if !ok {
          return;
        }
        position := position + 1;
        from, st := Rest(), Now();
      }
    }

    /** A value that opens no bracket. */
    method ScanScalar(pointer: Text) returns (ok: bool)
      requires index <= |bytes| && !At(Rest(), 0x7b) && !At(Rest(), 0x5b) && 0 < depth <= MAX_DEPTH && depth <= maxDepth
      modifies this
      ensures ok <==> ParseValue(old(Rest()), MAX_DEPTH + 1 - old(depth)).Parsed?
      ensures ok ==> depth == old(depth) && index > old(index)
      ensures ok ==> Holds(ValueOutcome(lib, ParseValue(old(Rest()), MAX_DEPTH + 1 - old(depth)),
              old(Outer()), pointer))
    {
      hide ParseValue, ValueOutcome, ParsePieces, ParseKeyword, ParseNumber, Rest, Behind,
        StringFindings, Name, PiecesOk,
        NumberFindings, NumberCounts, WrittenAsInteger;
      ghost var s, d, st := Rest(), MAX_DEPTH - depth, Outer();
      var byte := Peek();
      if byte == 0x22 {
        StringValueOutcome(lib, s, d, st, pointer);
        var text;
        ok, text := ScanString(pointer);
        stringCount := stringCount + 1;
      } else if byte == 0x74 {
        WordValueOutcome(lib, s, True, d, st, pointer);
        ok := ScanKeyword(True);
      } else if byte == 0x66 {
        WordValueOutcome(lib, s, False, d, st, pointer);
        ok := ScanKeyword(False);
      } else if byte == 0x6e {
        WordValueOutcome(lib, s, Null, d, st, pointer);
        ok := ScanKeyword(Null);
      } else if byte == 0x2d || 0x30 <= byte <= 0x39 {
        NumberValueOutcome(lib, s, d, st, pointer);
        ok := ScanNumber(pointer);
        numberCount := numberCount + 1;
      } else {
        NoValueOutcome(s, d + 1);
        ok := false;
      }
    }

    method ScanValue(pointer: Text) returns (ok: bool)
      requires index <= |bytes| && depth <= MAX_DEPTH
      modifies this
      ensures ok <==> ParseValue(old(Rest()), MAX_DEPTH - old(depth)).Parsed?
      ensures ok ==> depth == old(depth) && index > old(index)
      ensures ok ==> Holds(ValueOutcome(lib, ParseValue(old(Rest()), MAX_DEPTH - old(depth)), old(Now()), pointer))
      decreases |bytes| - index, 2
    {
      hide ParseValue, ValueOutcome, ParsePieces, ParseKeyword, ParseNumber, Rest, Behind, StringFindings, Name,
        PiecesOk, NumberFindings, NumberCounts,
        WrittenAsInteger;
      ghost var s, d, st := Rest(), MAX_DEPTH - depth, Now();
      depth := depth + 1;
      maxDepth := Max(maxDepth, depth);
      if depth > MAX_DEPTH {
        NoValueOutcome(s, d);
        return false;
      }
      var byte := Peek();
      if byte == 0x7b {
        ok := ScanObject(pointer);
        OuterOutcome(lib, ParseValue(s, d), st, pointer);
      } else if byte == 0x5b {
        ok := ScanArray(pointer);
        OuterOutcome(lib, ParseValue(s, d), st, pointer);
      } else {
        ok := ScanScalar(pointer);
        OuterOutcome(lib, ParseValue(s, d), st, pointer);
      }
      if ok {
        depth := depth - 1;
      }
    }

    /**
     * One JSON text with nothing but whitespace around it. Acceptance is exactly RFC 8259 with nesting up to the
     * limit, and
     * the counters, the deepest level and the findings are those of the one tree that the bytes spell.
     */
    method ScanDocument() returns (ok: bool)
      requires Now() == State(0, 0, 0, NOTHING, [])
      modifies this
      ensures ok <==> exists d: Document :: Spells(d, bytes)
      ensures forall d: Document :: Spells(d, bytes) ==> Summary(lib, d) == (maxDepth, Tally(), findings)
    {
      hide ParseValue, ValueOk, Findings, CountsOf, Depth, WsLen, SkipWs, Spells, Summary;
      assert Rest() == bytes;
      SkipWhitespace();
      ok := ScanValue([]);
      if ok {
        SkipWhitespace();
        ok := index == |bytes|;
      }
      DocumentOutcome(lib, bytes);
    }
  }

  /** The public entry point: UTF-8 validity of the whole input first, then the walk. */
  method ScanRawJson(lib: Library, bytes: seq<Byte>)
    returns (wellFormed: bool, findings: seq<Finding>, counts: Counts, maxDepth: nat)
    ensures wellFormed <==> exists d: Document :: Spells(d, bytes)
    ensures Utf8(bytes).None? ==> |findings| > 0 && findings[0] == InvalidUtf8([], 0)
    ensures forall d: Document :: Spells(d, bytes) ==>
              && (maxDepth, counts) == (Summary(lib, d).0, Summary(lib, d).1)
              && findings == (if Utf8(bytes).None? then [InvalidUtf8([], 0)] else []) + Summary(lib, d).2
  {
    hide TextDecode, Utf8, Spells, Summary;
    TextDecodeIsStrict(bytes);
    var scanner := new Scanner(lib, bytes);
    findings := if TextDecode(bytes).None? then [InvalidUtf8([], 0)] else [];
    wellFormed := scanner.ScanDocument();
    findings, counts, maxDepth := findings + scanner.findings, scanner.Tally(), scanner.maxDepth;
  }

  lemma StringOutcomeFails(s: seq<Byte>)
    requires StringOutcome(ParsePieces(s), [], false).None?
    ensures ParsePieces(s).Malformed?
  {
    if ParsePieces(s).Parsed? { PiecesSound(s); }
  }

  lemma FractionShown(s: seq<Byte>)
    ensures ParseFrac(s).Parsed? ==> (ParseFrac(s).tree.Some? <==> At(s, 0x2e))
  {
  }

  lemma ExponentShown(s: seq<Byte>)
    ensures ParseExp(s).Parsed? ==> (ParseExp(s).tree.Some? <==> At(s, 0x65) || At(s, 0x45))
  {
  }

  /** The raw span of a number is the rendering of its tree. */
  lemma LiteralIsRendered(s: seq<Byte>)
    requires ParseNumber(s).Parsed?
    ensures s[..|s| - |ParseNumber(s).rest|] == RenderNumber(ParseNumber(s).tree)
  {
    hide ParseNumber, RenderNumber, NumberOk;
    NumberSound(s);
  }

  lemma DigitStep(s: seq<Byte>)
    ensures DigitLen(s) == if AtDigit(s) then 1 + DigitLen(s[1..]) else 0
  {
  }

  lemma DigitsPresent(s: seq<Byte>)
    ensures DigitLen(s) > 0 <==> AtDigit(s)
  {
  }
}
