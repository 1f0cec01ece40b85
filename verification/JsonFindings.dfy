/** JSON Pointers (RFC 6901), and all findings and counts of a document from those of its strings and numbers. */
module JsonFindings {
  import opened Prelude
  import opened JsonGrammar
  import opened JsonNames
  import opened JsonReports

  /******** Pointers ********/

  const SLASH: Unit := 0x2f
  const TILDE: Unit := 0x7e

  function EscapeUnit(u: Unit): Text {
    if u == TILDE then [TILDE, 0x30] else if u == SLASH then [TILDE, 0x31] else [u]
  }

  /** `escapePointerToken`: "~" becomes "~0", then "/" becomes "~1". */
  function EscapeToken(token: Text): Text {
    if |token| == 0 then [] else EscapeUnit(token[0]) + EscapeToken(token[1..])
  }

  /** One more reference token. */
  function Extend(pointer: Text, token: Text): Text {
    pointer + ([SLASH] + EscapeToken(token))
  }

  function PointerTo(path: seq<Text>): Text {
    if |path| == 0 then [] else [SLASH] + (EscapeToken(path[0]) + PointerTo(path[1..]))
  }

  /** Section 4 of RFC 6901: "~1" stands for "/" and "~0" for "~"; None if a "~" stands alone. */
  function Unescape(s: Text): Option<Text> {
    if |s| == 0 then Some([])
    else if s[0] == '~' as int then
      if |s| < 2 || (s[1] != '0' as int && s[1] != '1' as int) then None
      else
        var rest := Unescape(s[2..]);
        if rest.None? then None else Some([if s[1] == '0' as int then '~' as int else '/' as int] + rest.value)
    else
      var rest := Unescape(s[1..]);
      if rest.None? then None else Some([s[0]] + rest.value)
  }

  function SegmentLength(s: Text): (n: nat)
    ensures n <= |s|
  {
    if |s| == 0 || s[0] == '/' as int then 0 else 1 + SegmentLength(s[1..])
  }

  /** Section 3 of RFC 6901: a pointer is a sequence of "/"-prefixed reference tokens. */
  function DecodePointer(s: Text): Option<seq<Text>> {
    if |s| == 0 then Some([])
    else if s[0] != '/' as int then None
    else
      var n := SegmentLength(s[1..]);
      var token, rest := Unescape(s[1..][..n]), DecodePointer(s[1..][n..]);
      if token.None? || rest.None? then None else Some([token.value] + rest.value)
  }

  lemma UnescapeUnit(u: Unit, tail: Text)
    requires Unescape(tail).Some?
    ensures Unescape(EscapeUnit(u) + tail) == Some([u] + Unescape(tail).value)
  {
    var s := EscapeUnit(u) + tail;
    if u == TILDE || u == SLASH { assert s[2..] == tail; } else { assert s[1..] == tail; }
  }

  lemma UnescapeNothing()
    ensures Unescape([]) == Some([])
  {
  }

  lemma {:induction false} UnescapeEscaped(token: Text)
    ensures Unescape(EscapeToken(token)) == Some(token)
  {
    hide EscapeUnit, Unescape;
    if |token| == 0 {
      UnescapeNothing();
    } else {
      UnescapeEscaped(token[1..]);
      UnescapeUnit(token[0], EscapeToken(token[1..]));
      assert token == [token[0]] + token[1..];
    }
  }

  lemma {:induction false} SegmentOver(head: Text, tail: Text)
    requires SLASH !in head
    ensures SegmentLength(head + tail) == |head| + SegmentLength(tail)
  {
    if |head| == 0 {
      assert head + tail == tail;
    } else {
      assert (head + tail)[1..] == head[1..] + tail;
      SegmentOver(head[1..], tail);
    }
  }

  lemma {:induction false} EscapedSegment(token: Text, rest: Text)
    requires |rest| == 0 || rest[0] == SLASH
    ensures SegmentLength(EscapeToken(token) + rest) == |EscapeToken(token)|
  {
    if |token| == 0 {
      assert EscapeToken(token) + rest == rest;
    } else {
      EscapedSegment(token[1..], rest);
      var head := EscapeToken(token)[..|EscapeToken(token)| - |EscapeToken(token[1..])|];
      assert EscapeToken(token) + rest == head + (EscapeToken(token[1..]) + rest);
      SegmentOver(head, EscapeToken(token[1..]) + rest);
    }
  }

  lemma DecodeToken(token: Text, rest: Text)
    requires |rest| == 0 || rest[0] == SLASH
    ensures DecodePointer(rest).Some? ==>
              DecodePointer([SLASH] + (EscapeToken(token) + rest)) == Some([token] + DecodePointer(rest).value)
  {
    hide Unescape, SegmentLength, EscapeToken;
    var n, s := |EscapeToken(token)|, [SLASH] + (EscapeToken(token) + rest);
    EscapedSegment(token, rest);
    UnescapeEscaped(token);
    assert s[1..] == EscapeToken(token) + rest && s[1..][..n] == EscapeToken(token) && s[1..][n..] == rest;
  }

  lemma EmptyPointer()
    ensures DecodePointer([]) == Some([])
  {
  }

  /** A pointer decodes back to its path, so distinct paths have distinct pointers. */
  lemma {:induction false} PointerRoundTrip(path: seq<Text>)
    ensures DecodePointer(PointerTo(path)) == Some(path)
  {
    hide DecodePointer, EscapeToken;
    if |path| == 0 {
      EmptyPointer();
    } else {
      PointerRoundTrip(path[1..]);
      DecodeToken(path[0], PointerTo(path[1..]));
      assert path == [path[0]] + path[1..];
    }
  }

  lemma {:induction false} PointerExtends(path: seq<Text>, token: Text)
    ensures PointerTo(path + [token]) == Extend(PointerTo(path), token)
  {
    if |path| == 0 {
      assert path + [token] == [token] && [token][1..] == [];
      assert EscapeToken(token) + [] == EscapeToken(token);
    } else {
      assert (path + [token])[1..] == path[1..] + [token];
      PointerExtends(path[1..], token);
    }
  }

  /******** Findings ********/

  function Decimal(n: nat): Text {
    if n < 10 then [0x30 + n] else Decimal(n / 10) + [0x30 + n % 10]
  }

  /** The number that a text of decimal digits writes. */
  ghost function Numeral(s: Text): int {
    if |s| == 0 then 0 else 10 * Numeral(s[..|s| - 1]) + (s[|s| - 1] - '0' as int)
  }

  /** Decimal digits that write the number, the first of them zero only for zero itself. */
  ghost predicate IsNumeral(s: Text, n: int) {
    && |s| > 0 && Numeral(s) == n && (forall i :: 0 <= i < |s| ==> '0' as int <= s[i] <= '9' as int)
    && (s[0] == '0' as int ==> n == 0 && |s| == 1)
  }

  lemma OneDigit(d: nat)
    requires d < 10
    ensures IsNumeral([0x30 + d], d)
  {
    var s: Text := [0x30 + d];
    assert |s[..|s| - 1]| == 0;
    assert Numeral(s[..|s| - 1]) == 0;
  }

  lemma DigitBehind(s: Text, n: nat, d: nat)
    requires IsNumeral(s, n) && n > 0 && d < 10
    ensures IsNumeral(s + [0x30 + d], 10 * n + d)
  {
    assert (s + [0x30 + d])[..|s|] == s;
  }

  /** The token of an array index is its decimal numeral (section 4 of RFC 6901). */
  lemma {:induction false} DecimalIsNumeral(n: nat)
    ensures IsNumeral(Decimal(n), n)
  {
    hide IsNumeral;
    if n < 10 {
      OneDigit(n);
    } else {
      DecimalIsNumeral(n / 10);
      DigitBehind(Decimal(n / 10), n / 10, n % 10);
    }
  }

  type Seen = map<Text, nat>

  function NameFindings(name: Text, pointer: Text, offset: nat, seen: Seen): seq<Finding> {
    if name in seen then [DuplicateMemberName(Extend(pointer, name), offset, seen[name])] else []
  }

  function SeenAfter(name: Text, offset: nat, seen: Seen): Seen {
    if name in seen then seen else seen[name := offset]
  }

  function ValueOffset(m: Member, offset: nat): nat {
    offset + |m.before| + |RenderString(m.name)| + |m.beforeColon| + 1 + |m.afterColon|
  }

  /** The findings of a value that starts at this pointer and byte offset, in document order. */
  function Findings(lib: Library, v: Value, pointer: Text, offset: nat): seq<Finding>
    requires ValueOk(v)
  {
    match v
    case Object(ms) => MembersFindings(lib, ms, pointer, offset + 1, map[])
    case Array(es) => ElementsFindings(lib, es, pointer, offset + 1, 0)
    case Str(ps) => StringFindings(lib, ps, pointer, offset)
    case Num(n) => NumberFindings(lib, n, pointer, offset)
    case _ => []
  }

  function MemberFindings(lib: Library, m: Member, pointer: Text, offset: nat, seen: Seen): seq<Finding>
    requires MemberOk(m)
  {
    assert ValueOk(m.value);
    var name := Name(m.name);
    StringFindings(lib, m.name, pointer, offset + |m.before|) +
    (NameFindings(name, pointer, offset + |m.before|, seen) +
     Findings(lib, m.value, Extend(pointer, name), ValueOffset(m, offset)))
  }

  function MembersFindings(lib: Library, ms: Members, pointer: Text, offset: nat, seen: Seen): seq<Finding>
    requires MembersOk(ms)
  {
    assert MemberOk(ms.m);
    match ms
    case LastMember(m) => MemberFindings(lib, m, pointer, offset, seen)
    case MoreMembers(m, rest) =>
      MemberFindings(lib, m, pointer, offset, seen) +
      MembersFindings(lib, rest, pointer, offset + |RenderMember(m)| + 1,
          SeenAfter(Name(m.name), offset + |m.before|, seen))
  }

  function ElementsFindings(lib: Library, es: Elements, pointer: Text, offset: nat, position: nat): seq<Finding>
    requires ElementsOk(es)
  {
    assert ElementOk(es.e);
    match es
    case LastElement(e) => Findings(lib, e.value, Extend(pointer, Decimal(position)), offset + |e.before|)
    case MoreElements(e, rest) =>
      Findings(lib, e.value, Extend(pointer, Decimal(position)), offset + |e.before|) +
      ElementsFindings(lib, rest, pointer, offset + |RenderElement(e)| + 1, position + 1)
  }

  /******** Counts ********/

  function CountsOf(lib: Library, v: Value): Counts {
    match v
    case Object(ms) => MembersCounts(lib, ms)
    case Array(es) => ElementsCounts(lib, es)
    case Str(_) => Counts(0, 1, 0, 0, 0)
    case Num(n) => NumberCounts(lib, n)
    case _ => NOTHING
  }

  function MemberCounts(lib: Library, m: Member): Counts { Plus(Counts(1, 1, 0, 0, 0), CountsOf(lib, m.value)) }

  function MembersCounts(lib: Library, ms: Members): Counts {
    match ms
    case LastMember(m) => MemberCounts(lib, m)
    case MoreMembers(m, rest) => Plus(MemberCounts(lib, m), MembersCounts(lib, rest))
  }

  function ElementsCounts(lib: Library, es: Elements): Counts {
    match es
    case LastElement(e) => CountsOf(lib, e.value)
    case MoreElements(e, rest) => Plus(CountsOf(lib, e.value), ElementsCounts(lib, rest))
  }

  /******** How many names repeat ********/

  function Duplicates(fs: seq<Finding>): nat {
    if |fs| == 0 then 0 else (if fs[0].DuplicateMemberName? then 1 else 0) + Duplicates(fs[1..])
  }

  lemma {:induction false} DuplicatesAppend(a: seq<Finding>, b: seq<Finding>)
    ensures Duplicates(a + b) == Duplicates(a) + Duplicates(b)
  {
    if |a| == 0 {
      assert a + b == b;
    } else {
      assert (a + b)[1..] == a[1..] + b;
      DuplicatesAppend(a[1..], b);
    }
  }

  function MemberCount(ms: Members): nat {
    match ms
    case LastMember(_) => 1
    case MoreMembers(_, rest) => 1 + MemberCount(rest)
  }

  ghost function Names(ms: Members): set<Text>
    requires MembersOk(ms)
  {
    assert MemberOk(ms.m);
    match ms
    case LastMember(m) => {Name(m.name)}
    case MoreMembers(m, rest) => {Name(m.name)} + Names(rest)
  }

  /** The sum, over all objects of a tree, of members minus distinct names. */
  ghost function RepeatedNames(v: Value): int
    requires ValueOk(v)
  {
    match v
    case Object(ms) => MemberCount(ms) - |Names(ms)| + RepeatedInMembers(ms)
    case Array(es) => RepeatedInElements(es)
    case _ => 0
  }

  ghost function RepeatedInMembers(ms: Members): int
    requires MembersOk(ms)
  {
    assert MemberOk(ms.m);
    match ms
    case LastMember(m) => RepeatedNames(m.value)
    case MoreMembers(m, rest) => RepeatedNames(m.value) + RepeatedInMembers(rest)
  }

  ghost function RepeatedInElements(es: Elements): int
    requires ElementsOk(es)
  {
    assert ElementOk(es.e);
    match es
    case LastElement(e) => RepeatedNames(e.value)
    case MoreElements(e, rest) => RepeatedNames(e.value) + RepeatedInElements(rest)
  }

  lemma {:induction false} NoneRepeats(fs: seq<Finding>)
    requires forall i :: 0 <= i < |fs| ==> !fs[i].DuplicateMemberName?
    ensures Duplicates(fs) == 0
  {
    if |fs| > 0 { NoneRepeats(fs[1..]); }
  }

  lemma MemberDuplicates(lib: Library, m: Member, pointer: Text, offset: nat, seen: Seen)
    requires MemberOk(m)
    ensures Duplicates(MemberFindings(lib, m, pointer, offset, seen)) ==
            (if Name(m.name) in seen then 1 else 0) +
                Duplicates(Findings(lib, m.value, Extend(pointer, Name(m.name)), ValueOffset(m, offset)))
  {
    hide Findings, StringFindings, Name, Extend, ValueOffset;
    var name := Name(m.name);
    var a := StringFindings(lib, m.name, pointer, offset + |m.before|);
    var b := NameFindings(name, pointer, offset + |m.before|, seen);
    var c := Findings(lib, m.value, Extend(pointer, name), ValueOffset(m, offset));
    DuplicatesAppend(a, b + c);
    DuplicatesAppend(b, c);
    NoneRepeats(a);
    assert |b| == 1 ==> b[1..] == [];
  }

  /** The number of repeated-name findings is the sum over objects of members minus distinct names. */
  lemma {:induction false} DuplicatesCountRepeats(lib: Library, v: Value, pointer: Text, offset: nat)
    requires ValueOk(v)
    ensures Duplicates(Findings(lib, v, pointer, offset)) == RepeatedNames(v)
    decreases v
  {
    hide MembersFindings, ElementsFindings, RepeatedInMembers, RepeatedInElements, StringFindings, NumberFindings;
    match v
    case Object(ms) =>
      DuplicatesInMembers(lib, ms, pointer, offset + 1, map[]);
      var none: Seen := map[];
      assert Names(ms) - none.Keys == Names(ms);
    case Array(es) => DuplicatesInElements(lib, es, pointer, offset + 1, 0);
    case Str(ps) => NoneRepeats(StringFindings(lib, ps, pointer, offset));
    case Num(n) => NoneRepeats(NumberFindings(lib, n, pointer, offset));
    case _ =>
  }

  lemma {:induction false} DuplicatesInMembers(lib: Library, ms: Members, pointer: Text, offset: nat, seen: Seen)
    requires MembersOk(ms)
    ensures Duplicates(MembersFindings(lib, ms, pointer, offset, seen)) == MemberCount(ms) - Unseen(Names(ms), seen) +
            RepeatedInMembers(ms)
    decreases ms
  {
    hide *;
    FirstMember(lib, ms, pointer, offset, seen);
    var name := Name(ms.m.name);
    MemberDuplicates(lib, ms.m, pointer, offset, seen);
    DuplicatesInMember(lib, ms.m, Extend(pointer, name), ValueOffset(ms.m, offset));
    if ms.MoreMembers? {
      var offset', seen' := offset + |RenderMember(ms.m)| + 1, SeenAfter(name, offset + |ms.m.before|, seen);
      DuplicatesAppend(MemberFindings(lib, ms.m, pointer, offset, seen),
          MembersFindings(lib, ms.rest, pointer, offset', seen'));
      DuplicatesInMembers(lib, ms.rest, pointer, offset', seen');
      FreshNames(name, Names(ms.rest), offset + |ms.m.before|, seen);
    } else {
      FreshName(name, seen);
    }
  }

  /** How many of the names have not been seen. */
  ghost function Unseen(names: set<Text>, seen: Seen): nat {
    |names - seen.Keys|
  }

  lemma FreshName(name: Text, seen: Seen)
    ensures Unseen({name}, seen) == if name in seen then 0 else 1
  {
    assert {name} - seen.Keys == if name in seen then {} else {name};
  }

  /** The functions on member lists, taken apart at the first member. */
  lemma FirstMember(lib: Library, ms: Members, pointer: Text, offset: nat, seen: Seen)
    requires MembersOk(ms)
    ensures MemberOk(ms.m) && PiecesOk(ms.m.name) && ValueOk(ms.m.value)
    ensures ms.LastMember? ==>
              && MembersFindings(lib, ms, pointer, offset, seen) == MemberFindings(lib, ms.m, pointer, offset, seen)
              && Names(ms) == {Name(ms.m.name)} && MemberCount(ms) == 1
                  && RepeatedInMembers(ms) == RepeatedNames(ms.m.value)
    ensures ms.MoreMembers? ==>
              && MembersOk(ms.rest)
              && MembersFindings(lib, ms, pointer, offset, seen) == MemberFindings(lib, ms.m, pointer, offset, seen) +
                   MembersFindings(lib, ms.rest, pointer, offset + |RenderMember(ms.m)| + 1,
                       SeenAfter(Name(ms.m.name), offset + |ms.m.before|, seen))
              && Names(ms) == {Name(ms.m.name)} + Names(ms.rest) && MemberCount(ms) == 1 + MemberCount(ms.rest)
              && RepeatedInMembers(ms) == RepeatedNames(ms.m.value) + RepeatedInMembers(ms.rest)
  {
    hide MemberFindings, Name, RenderMember, SeenAfter, RepeatedNames, PiecesOk, ValueOk, AllWs;
  }

  lemma TakeOne<T>(x: T, names: set<T>, seen: set<T>)
    ensures |({x} + names) - seen| == if x in seen then |names - seen| else 1 + |names - (seen + {x})|
  {
    var left := names - (seen + {x});
    if x in seen {
      assert ({x} + names) - seen == names - seen;
    } else {
      assert ({x} + names) - seen == left + {x};
    }
  }

  lemma FreshNames(name: Text, names: set<Text>, offset: nat, seen: Seen)
    ensures Unseen({name} + names, seen) == (if name in seen then 0 else 1) +
            Unseen(names, SeenAfter(name, offset, seen))
  {
    TakeOne(name, names, seen.Keys);
    assert name !in seen ==> SeenAfter(name, offset, seen).Keys == seen.Keys + {name};
  }

  lemma {:induction false} DuplicatesInMember(lib: Library, m: Member, pointer: Text, offset: nat)
    requires MemberOk(m)
    ensures Duplicates(Findings(lib, m.value, pointer, offset)) == RepeatedNames(m.value)
    decreases m
  {
    DuplicatesCountRepeats(lib, m.value, pointer, offset);
  }

  lemma {:induction false} DuplicatesInElements(lib: Library, es: Elements, pointer: Text, offset: nat, position: nat)
    requires ElementsOk(es)
    ensures Duplicates(ElementsFindings(lib, es, pointer, offset, position)) == RepeatedInElements(es)
    decreases es
  {
    hide Findings, RepeatedNames, RenderElement, Extend, Decimal;
    assert ElementOk(es.e);
    var p, o := Extend(pointer, Decimal(position)), offset + |es.e.before|;
    DuplicatesCountRepeats(lib, es.e.value, p, o);
    if es.MoreElements? {
      var offset' := offset + |RenderElement(es.e)| + 1;
      DuplicatesAppend(Findings(lib, es.e.value, p, o), ElementsFindings(lib, es.rest, pointer, offset', position + 1));
      DuplicatesInElements(lib, es.rest, pointer, offset', position + 1);
    }
  }

  /******** Repeats of RFC 8259 names ********/

  /** A name that the scanner decodes to its string value. */
  predicate PlainName(ps: seq<Piece>) {
    PiecesOk(ps) && StringValue(ps).Some? && NoByteLikeEscape(ps) && NoDroppedBom(Units(ps))
  }

  predicate PlainNames(v: Value) {
    match v
    case Object(ms) => PlainMembers(ms)
    case Array(es) => PlainElements(es)
    case _ => true
  }

  predicate PlainMembers(ms: Members) {
    PlainName(ms.m.name) && PlainNames(ms.m.value) && (ms.MoreMembers? ==> PlainMembers(ms.rest))
  }

  predicate PlainElements(es: Elements) {
    PlainNames(es.e.value) && (es.MoreElements? ==> PlainElements(es.rest))
  }

  /** The distinct string values of an object's member names. */
  ghost function StringValues(ms: Members): set<Text>
    requires PlainMembers(ms)
  {
    {StringValue(ms.m.name).value} + if ms.MoreMembers? then StringValues(ms.rest) else {}
  }

  /** The sum, over all objects of a tree, of members minus distinct string values. */
  ghost function RepeatedValues(v: Value): int
    requires PlainNames(v)
  {
    match v
    case Object(ms) => MemberCount(ms) - |StringValues(ms)| + RepeatedInPlainMembers(ms)
    case Array(es) => RepeatedInPlainElements(es)
    case _ => 0
  }

  ghost function RepeatedInPlainMembers(ms: Members): int
    requires PlainMembers(ms)
  {
    RepeatedValues(ms.m.value) + if ms.MoreMembers? then RepeatedInPlainMembers(ms.rest) else 0
  }

  ghost function RepeatedInPlainElements(es: Elements): int
    requires PlainElements(es)
  {
    RepeatedValues(es.e.value) + if es.MoreElements? then RepeatedInPlainElements(es.rest) else 0
  }

  lemma PlainNameIsValue(ps: seq<Piece>)
    requires PlainName(ps)
    ensures Name(ps) == StringValue(ps).value
  {
    NameIsStringValue(ps);
  }

  lemma {:induction false} NamesAreStringValues(ms: Members)
    requires MembersOk(ms) && PlainMembers(ms)
    ensures Names(ms) == StringValues(ms)
  {
    hide Name, StringValue, PlainName, PlainNames, MemberOk;
    PlainNameIsValue(ms.m.name);
    if ms.MoreMembers? { NamesAreStringValues(ms.rest); }
  }

  lemma {:induction false} RepeatsAreOfValues(v: Value)
    requires ValueOk(v) && PlainNames(v)
    ensures RepeatedNames(v) == RepeatedValues(v)
    decreases v
  {
    hide Names, StringValues, PlainMembers, PlainElements, RepeatedInMembers, RepeatedInElements,
      RepeatedInPlainMembers, RepeatedInPlainElements;
    match v
    case Object(ms) =>
      NamesAreStringValues(ms);
      RepeatsInMembersAreOfValues(ms);
    case Array(es) => RepeatsInElementsAreOfValues(es);
    case _ =>
  }

  lemma {:induction false} RepeatsInMembersAreOfValues(ms: Members)
    requires MembersOk(ms) && PlainMembers(ms)
    ensures RepeatedInMembers(ms) == RepeatedInPlainMembers(ms)
    decreases ms
  {
    hide PlainName, RepeatedNames, RepeatedValues;
    RepeatsAreOfValues(ms.m.value);
    if ms.MoreMembers? { RepeatsInMembersAreOfValues(ms.rest); }
  }

  lemma {:induction false} RepeatsInElementsAreOfValues(es: Elements)
    requires ElementsOk(es) && PlainElements(es)
    ensures RepeatedInElements(es) == RepeatedInPlainElements(es)
    decreases es
  {
    hide RepeatedNames, RepeatedValues;
    RepeatsAreOfValues(es.e.value);
    if es.MoreElements? { RepeatsInElementsAreOfValues(es.rest); }
  }

  /** With plain names, the repeated-name findings number the repeats of RFC 8259 string values. */
  lemma DuplicatesCountRepeatedValues(lib: Library, v: Value, pointer: Text, offset: nat)
    requires ValueOk(v) && PlainNames(v)
    ensures Duplicates(Findings(lib, v, pointer, offset)) == RepeatedValues(v)
  {
    hide *;
    DuplicatesCountRepeats(lib, v, pointer, offset);
    RepeatsAreOfValues(v);
  }

  /******** Where findings point ********/

  /** The path leads from a value through member names and element positions to a value of the tree. */
  ghost predicate Reaches(v: Value, path: seq<Text>)
    requires ValueOk(v)
    decreases v
  {
    |path| == 0 ||
    match v
    case Object(ms) => MembersReach(ms, path)
    case Array(es) => ElementsReach(es, 0, path)
    case _ => false
  }

  ghost predicate MembersReach(ms: Members, path: seq<Text>)
    requires MembersOk(ms) && |path| > 0
    decreases ms
  {
    assert MemberOk(ms.m);
    (Name(ms.m.name) == path[0] && Reaches(ms.m.value, path[1..])) || (ms.MoreMembers? && MembersReach(ms.rest, path))
  }

  ghost predicate ElementsReach(es: Elements, position: nat, path: seq<Text>)
    requires ElementsOk(es) && |path| > 0
    decreases es
  {
    assert ElementOk(es.e);
    (Decimal(position) == path[0] && Reaches(es.e.value, path[1..]))
        || (es.MoreElements? && ElementsReach(es.rest, position + 1, path))
  }

  lemma Relative(path: seq<Text>, token: Text, rel: seq<Text>)
    ensures PointerTo(path + [token]) == Extend(PointerTo(path), token)
    ensures (path + [token]) + rel == path + ([token] + rel) && ([token] + rel)[1..] == rel && path + [] == path
  {
    PointerExtends(path, token);
  }

  /** Every finding carries the pointer of a path that exists in the document. */
  lemma {:induction false} FindingReaches(lib: Library, v: Value, path: seq<Text>, offset: nat, i: nat)
      returns (rel: seq<Text>)
    requires ValueOk(v) && i < |Findings(lib, v, PointerTo(path), offset)|
    ensures Findings(lib, v, PointerTo(path), offset)[i].pointer == PointerTo(path + rel) && Reaches(v, rel)
    decreases v
  {
    hide MembersFindings, ElementsFindings, MembersReach, ElementsReach, StringFindings, NumberFindings, PointerTo;
    match v
    case Object(ms) => rel := FindingInMembers(lib, ms, path, offset + 1, map[], i);
    case Array(es) => rel := FindingInElements(lib, es, path, offset + 1, 0, i);
    case Str(_) =>
      rel := [];
      assert path + [] == path;
    case Num(_) =>
      rel := [];
      assert path + [] == path;
  }

  lemma {:induction false} FindingInMember(lib: Library, m: Member, path: seq<Text>, offset: nat, seen: Seen, i: nat)
      returns (rel: seq<Text>)
    requires MemberOk(m) && i < |MemberFindings(lib, m, PointerTo(path), offset, seen)|
    ensures MemberFindings(lib, m, PointerTo(path), offset, seen)[i].pointer == PointerTo(path + rel)
    ensures |rel| > 0 ==> rel[0] == Name(m.name) && Reaches(m.value, rel[1..])
    decreases m
  {
    hide Findings, PointerTo, Name, StringFindings, Extend, ValueOffset;
    var name := Name(m.name);
    var a := |StringFindings(lib, m.name, PointerTo(path), offset + |m.before|)|;
    var b := |NameFindings(name, PointerTo(path), offset + |m.before|, seen)|;
    Relative(path, name, []);
    if i < a {
      rel := [];
    } else if i < a + b {
      rel := [name];
      ReachesSelf(m.value);
    } else {
      var r := FindingReaches(lib, m.value, path + [name], ValueOffset(m, offset), i - a - b);
      Relative(path, name, r);
      rel := [name] + r;
    }
  }

  lemma ReachesSelf(v: Value)
    requires ValueOk(v)
    ensures Reaches(v, [])
  {
  }

  lemma {:induction false} FindingInMembers(lib: Library, ms: Members, path: seq<Text>, offset: nat, seen: Seen, i: nat)
      returns (rel: seq<Text>)
    requires MembersOk(ms) && i < |MembersFindings(lib, ms, PointerTo(path), offset, seen)|
    ensures MembersFindings(lib, ms, PointerTo(path), offset, seen)[i].pointer == PointerTo(path + rel)
    ensures |rel| > 0 ==> MembersReach(ms, rel)
    decreases ms
  {
    hide *;
    FirstMember(lib, ms, PointerTo(path), offset, seen);
    var n := |MemberFindings(lib, ms.m, PointerTo(path), offset, seen)|;
    if i < n {
      rel := FindingInMember(lib, ms.m, path, offset, seen, i);
      if |rel| > 0 { ReachThroughFirst(ms, rel); }
    } else {
      rel := FindingInMembers(lib, ms.rest, path, offset + |RenderMember(ms.m)| + 1,
          SeenAfter(Name(ms.m.name), offset + |ms.m.before|, seen), i - n);
      if |rel| > 0 { ReachThroughRest(ms, rel); }
    }
  }

  lemma ReachThroughFirst(ms: Members, rel: seq<Text>)
    requires MembersOk(ms) && |rel| > 0 && MemberOk(ms.m) && Name(ms.m.name) == rel[0] && Reaches(ms.m.value, rel[1..])
    ensures MembersReach(ms, rel)
  {
    hide Name;
  }

  lemma ReachThroughRest(ms: Members, rel: seq<Text>)
    requires MembersOk(ms) && |rel| > 0 && ms.MoreMembers? && MembersReach(ms.rest, rel)
    ensures MembersReach(ms, rel)
  {
    hide Name;
  }

  lemma {:induction false} FindingInElements(lib: Library, es: Elements, path: seq<Text>, offset: nat, position: nat,
      i: nat) returns (rel: seq<Text>)
    requires ElementsOk(es) && i < |ElementsFindings(lib, es, PointerTo(path), offset, position)|
    ensures ElementsFindings(lib, es, PointerTo(path), offset, position)[i].pointer == PointerTo(path + rel)
    ensures |rel| > 0 && ElementsReach(es, position, rel)
    decreases es
  {
    hide Findings, PointerTo, RenderElement, Reaches, Decimal, Extend;
    assert ElementOk(es.e);
    var token := Decimal(position);
    Relative(path, token, []);
    var n := |Findings(lib, es.e.value, Extend(PointerTo(path), token), offset + |es.e.before|)|;
    if i < n {
      var r := FindingReaches(lib, es.e.value, path + [token], offset + |es.e.before|, i);
      Relative(path, token, r);
      rel := [token] + r;
    } else {
      rel := FindingInElements(lib, es.rest, path, offset + |RenderElement(es.e)| + 1, position + 1, i - n);
    }
  }
}
