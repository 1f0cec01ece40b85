/** Counters, deepest level and order of findings, against the parts of a document. */
module JsonMeasures {
  import opened Prelude
  import opened JsonGrammar
  import opened JsonParse
  import opened JsonAgreement
  import opened JsonNames
  import opened JsonReports
  import opened JsonFindings
  import Exact = ExactNumbers

  /******** Counters ********/

  /** The value and all values in it, in document order. */
  function ValuesOf(v: Value): seq<Value>
    decreases v
  {
    match v
    case Object(ms) => [v] + ValuesOfMembers(ms)
    case Array(es) => [v] + ValuesOfElements(es)
    case _ => [v]
  }

  function ValuesOfMembers(ms: Members): seq<Value>
    decreases ms
  {
    ValuesOf(ms.m.value) + (if ms.MoreMembers? then ValuesOfMembers(ms.rest) else [])
  }

  function ValuesOfElements(es: Elements): seq<Value>
    decreases es
  {
    ValuesOf(es.e.value) + (if es.MoreElements? then ValuesOfElements(es.rest) else [])
  }

  /** The names of all members of all objects in the value. */
  function NamesIn(v: Value): seq<seq<Piece>>
    decreases v
  {
    match v
    case Object(ms) => NamesInMembers(ms)
    case Array(es) => NamesInElements(es)
    case _ => []
  }

  function NamesInMembers(ms: Members): seq<seq<Piece>>
    decreases ms
  {
    [ms.m.name] + NamesIn(ms.m.value) + (if ms.MoreMembers? then NamesInMembers(ms.rest) else [])
  }

  function NamesInElements(es: Elements): seq<seq<Piece>>
    decreases es
  {
    NamesIn(es.e.value) + (if es.MoreElements? then NamesInElements(es.rest) else [])
  }

  ghost function CountOf(vs: seq<Value>, p: Value -> bool): nat {
    if |vs| == 0 then 0 else (if p(vs[0]) then 1 else 0) + CountOf(vs[1..], p)
  }

  lemma {:induction false} CountAppends(a: seq<Value>, b: seq<Value>, p: Value -> bool)
    ensures CountOf(a + b, p) == CountOf(a, p) + CountOf(b, p)
  {
    if |a| == 0 {
      assert a + b == b;
    } else {
      assert (a + b)[1..] == a[1..] + b;
      CountAppends(a[1..], b, p);
    }
  }

  /** The double that a number is read as differs from the number written, and is neither infinite nor a false zero. */
  ghost predicate ReadInexactly(lib: Library, v: Value) {
    v.Num? && NumberOk(v.number) &&
    var bits, value := lib.round(RenderNumber(v.number)), Exact.LiteralValue(v.number);
    Exact.Finite(bits) && !(value != 0.0 && Exact.IsZero(bits)) && value != Exact.DoubleValue(bits)
  }

  /** The number written is 2^53 or more in magnitude, and its exponent is small enough to tell. */
  ghost predicate WrittenLarge(lib: Library, v: Value) {
    v.Num? && NumberOk(v.number) &&
    var bits, value := lib.round(RenderNumber(v.number)), Exact.LiteralValue(v.number);
    Exact.Finite(bits) && !(value != 0.0 && Exact.IsZero(bits))
    && -4096 <= Exact.LiteralToExactDecimal(RenderNumber(v.number)).exponent <= 4096
    && !(-9007199254740992.0 < value < 9007199254740992.0)
  }

  ghost function Tallied(lib: Library, names: nat, vs: seq<Value>): Counts {
    Counts(names, names + CountOf(vs, (v: Value) => v.Str?), CountOf(vs, (v: Value) => v.Num?),
           CountOf(vs, (v: Value) => ReadInexactly(lib, v)), CountOf(vs, (v: Value) => WrittenLarge(lib, v)))
  }

  lemma TallyAppends(lib: Library, m: nat, a: seq<Value>, n: nat, b: seq<Value>)
    ensures Tallied(lib, m + n, a + b) == Plus(Tallied(lib, m, a), Tallied(lib, n, b))
  {
    hide CountOf, ReadInexactly, WrittenLarge;
    CountAppends(a, b, (v: Value) => v.Str?);
    CountAppends(a, b, (v: Value) => v.Num?);
    CountAppends(a, b, (v: Value) => ReadInexactly(lib, v));
    CountAppends(a, b, (v: Value) => WrittenLarge(lib, v));
  }

  lemma CountOne(v: Value, p: Value -> bool)
    ensures CountOf([v], p) == if p(v) then 1 else 0
  {
    assert [v][1..] == [];
  }

  lemma TallyOfOne(lib: Library, v: Value)
    requires ValueOk(v)
    ensures Tallied(lib, 0, [v]) ==
            if v.Num? then NumberCounts(lib, v.number) else Counts(0, if v.Str? then 1 else 0, 0, 0, 0)
  {
    hide Exact.Finite, Exact.IsZero, Exact.LiteralValue, Exact.DoubleValue, Exact.LiteralToExactDecimal, RenderNumber,
      NumberFindings, WrittenAsInteger, Exact.DigitsValue, Inexact, Large, CountOf;
    if v.Num? { NumberReportsMean(lib, v.number, [], 0); }
    CountOne(v, (v: Value) => v.Str?);
    CountOne(v, (v: Value) => v.Num?);
    CountOne(v, (v: Value) => ReadInexactly(lib, v));
    CountOne(v, (v: Value) => WrittenLarge(lib, v));
  }

  /**
   * Members, strings with the names, numbers, inexact and large numbers: the counters number the parts of the value.
   */
  lemma {:induction false} CountersNumberParts(lib: Library, v: Value)
    requires ValueOk(v)
    ensures CountsOf(lib, v) == Tallied(lib, |NamesIn(v)|, ValuesOf(v))
    decreases v
  {
    hide Tallied, NumberCounts, NumberOk, PiecesOk, AllWs, CountOf;
    match v
    case Object(ms) =>
      MembersNumberParts(lib, ms);
      TallyOfOne(lib, v);
      TallyAppends(lib, 0, [v], |NamesIn(v)|, ValuesOfMembers(ms));
    case Array(es) =>
      ElementsNumberParts(lib, es);
      TallyOfOne(lib, v);
      TallyAppends(lib, 0, [v], |NamesIn(v)|, ValuesOfElements(es));
    case _ =>
      TallyOfOne(lib, v);
  }

  lemma {:induction false} MembersNumberParts(lib: Library, ms: Members)
    requires MembersOk(ms)
    ensures MembersCounts(lib, ms) == Tallied(lib, |NamesInMembers(ms)|, ValuesOfMembers(ms))
    decreases ms
  {
    hide Tallied, NumberCounts, CountsOf, ValuesOf, NamesIn, ValueOk, PiecesOk, AllWs;
    var v := ms.m.value;
    CountersNumberParts(lib, v);
    OneName(lib, |NamesIn(v)|, ValuesOf(v));
    if ms.MoreMembers? {
      MembersNumberParts(lib, ms.rest);
      TallyAppends(lib, |NamesIn(v)| + 1, ValuesOf(v), |NamesInMembers(ms.rest)|, ValuesOfMembers(ms.rest));
    } else {
      assert ValuesOf(v) + [] == ValuesOf(v);
    }
  }

  lemma OneName(lib: Library, n: nat, vs: seq<Value>)
    ensures Tallied(lib, n + 1, vs) == Plus(Counts(1, 1, 0, 0, 0), Tallied(lib, n, vs))
  {
    hide CountOf;
  }

  lemma {:induction false} ElementsNumberParts(lib: Library, es: Elements)
    requires ElementsOk(es)
    ensures ElementsCounts(lib, es) == Tallied(lib, |NamesInElements(es)|, ValuesOfElements(es))
    decreases es
  {
    hide Tallied, NumberCounts, CountsOf, ValuesOf, NamesIn, ValueOk, AllWs;
    var v := es.e.value;
    CountersNumberParts(lib, v);
    if es.MoreElements? {
      ElementsNumberParts(lib, es.rest);
      TallyAppends(lib, |NamesIn(v)|, ValuesOf(v), |NamesInElements(es.rest)|, ValuesOfElements(es.rest));
    } else {
      assert ValuesOf(v) + [] == ValuesOf(v);
    }
  }

  /******** Depth ********/

  /** No path into a value is as long as the value is deep. */
  lemma {:induction false} PathsAreShorter(v: Value, path: seq<Text>)
    requires ValueOk(v) && Reaches(v, path)
    ensures |path| < Depth(v)
    decreases v
  {
    hide MembersReach, ElementsReach, PiecesOk, NumberOk, AllWs;
    if |path| > 0 {
      match v
      case Object(ms) => MemberPathsAreShorter(ms, path);
      case Array(es) => ElementPathsAreShorter(es, 0, path);
    }
  }

  lemma {:induction false} MemberPathsAreShorter(ms: Members, path: seq<Text>)
    requires MembersOk(ms) && |path| > 0 && MembersReach(ms, path)
    ensures |path| <= MembersDepth(ms)
    decreases ms
  {
    hide Reaches, Name, ValueOk, PiecesOk, AllWs;
    if Name(ms.m.name) == path[0] && Reaches(ms.m.value, path[1..]) {
      PathsAreShorter(ms.m.value, path[1..]);
    } else {
      MemberPathsAreShorter(ms.rest, path);
    }
  }

  lemma {:induction false} ElementPathsAreShorter(es: Elements, position: nat, path: seq<Text>)
    requires ElementsOk(es) && |path| > 0 && ElementsReach(es, position, path)
    ensures |path| <= ElementsDepth(es)
    decreases es
  {
    hide Reaches, Decimal, ValueOk, AllWs;
    if Decimal(position) == path[0] && Reaches(es.e.value, path[1..]) {
      PathsAreShorter(es.e.value, path[1..]);
    } else {
      ElementPathsAreShorter(es.rest, position + 1, path);
    }
  }

  /** Some path is only one shorter: the depth is the number of values on the longest way down. */
  lemma {:induction false} DeepestPath(v: Value) returns (path: seq<Text>)
    requires ValueOk(v)
    ensures Reaches(v, path) && |path| + 1 == Depth(v)
    decreases v
  {
    hide MembersReach, ElementsReach, PiecesOk, NumberOk, AllWs;
    match v
    case Object(ms) => path := DeepestMemberPath(ms);
    case Array(es) => path := DeepestElementPath(es, 0);
    case _ => path := [];
  }

  lemma {:induction false} DeepestMemberPath(ms: Members) returns (path: seq<Text>)
    requires MembersOk(ms)
    ensures |path| > 0 && MembersReach(ms, path) && |path| == MembersDepth(ms)
    decreases ms
  {
    hide Reaches, Name, ValueOk, PiecesOk, AllWs;
    if ms.LastMember? || Depth(ms.m.value) >= MembersDepth(ms.rest) {
      var inner := DeepestPath(ms.m.value);
      path := [Name(ms.m.name)] + inner;
      assert path[1..] == inner;
    } else {
      path := DeepestMemberPath(ms.rest);
    }
  }

  lemma {:induction false} DeepestElementPath(es: Elements, position: nat) returns (path: seq<Text>)
    requires ElementsOk(es)
    ensures |path| > 0 && ElementsReach(es, position, path) && |path| == ElementsDepth(es)
    decreases es
  {
    hide Reaches, Decimal, ValueOk, AllWs;
    if es.LastElement? || Depth(es.e.value) >= ElementsDepth(es.rest) {
      var inner := DeepestPath(es.e.value);
      path := [Decimal(position)] + inner;
      assert path[1..] == inner;
    } else {
      path := DeepestElementPath(es.rest, position + 1);
    }
  }

  /******** The limit ********/

  /** A value in so many arrays. */
  function Nested(n: nat, core: Value): Value {
    if n == 0 then core else Array(LastElement(Element([], Nested(n - 1, core), [])))
  }

  /** The bytes of a value in so many brackets. */
  function Bracketed(n: nat, core: seq<Byte>): seq<Byte> {
    if n == 0 then core else ['[' as int] + Bracketed(n - 1, core) + [']' as int]
  }

  lemma NestedOnce(v: Value)
    requires ValueOk(v)
    ensures var a := Array(LastElement(Element([], v, [])));
            ValueOk(a) && Depth(a) == 1 + Depth(v) && Render(a) == ['[' as int] + Render(v) + [']' as int]
  {
    var e := Element([], v, []);
    assert RenderElement(e) == Render(v);
    assert ElementOk(e);
    assert RenderElements(LastElement(e)) == Render(v) + [']' as int];
  }

  lemma {:induction false} NestedRenders(n: nat, core: Value)
    requires ValueOk(core)
    ensures ValueOk(Nested(n, core)) && Depth(Nested(n, core)) == n + Depth(core)
    ensures Render(Nested(n, core)) == Bracketed(n, Render(core))
  {
    hide ValueOk, Render, Depth;
    if n > 0 {
      NestedRenders(n - 1, core);
      NestedOnce(Nested(n - 1, core));
    }
  }

  /** Brackets around a scalar are accepted exactly while no more than 512 values nest. */
  lemma NestingLimit(n: nat, core: Value)
    requires ValueOk(core) && Depth(core) == 1
    ensures (exists d: Document ::
              DocumentOk(d) && Depth(d.value) <= 512 && RenderDocument(d) == Bracketed(n, Render(core))) <==>
            n + 1 <= 512
  {
    hide ValueOk, Depth, Render, AllWs, Nested, Bracketed;
    var v, bytes := Nested(n, core), Bracketed(n, Render(core));
    NestedRenders(n, core);
    if n + 1 <= 512 {
      NothingAround(v);
      assert RenderDocument(Document([], v, [])) == bytes;
    }
    if d: Document :| DocumentOk(d) && Depth(d.value) <= 512 && RenderDocument(d) == bytes {
      SameDepth(d, v);
    }
  }

  lemma NothingAround(v: Value)
    requires ValueOk(v)
    ensures DocumentOk(Document([], v, [])) && RenderDocument(Document([], v, [])) == Render(v)
  {
    hide ValueOk, Render;
    assert [] + (Render(v) + []) == Render(v);
  }

  lemma NothingBefore(w: seq<Byte>, rest: seq<Byte>)
    requires AllWs(w) && |w + rest| > 0 && !IsWs((w + rest)[0])
    ensures w == []
  {
  }

  /** Trees with the same bytes are the same tree. */
  lemma SameDepth(d: Document, v: Value)
    requires DocumentOk(d) && ValueOk(v) && RenderDocument(d) == Render(v)
    ensures d.value == v
  {
    hide ValueOk, Depth, Render, ParseValue;
    RenderHead(v);
    var s, depth := Render(v), Max(Depth(v), Depth(d.value));
    NothingBefore(d.before, Render(d.value) + d.after);
    assert s == Render(d.value) + d.after && s == Render(v) + [];
    NoWsLeft(d.after);
    ValueRead(d.value, d.after, depth);
    ValueRead(v, [], depth);
  }

  /******** The order of findings ********/

  ghost predicate InOrder(fs: seq<Finding>, low: int, high: int) {
    && (forall i :: 0 <= i < |fs| ==> low <= fs[i].offset <= high)
    && (forall i, j :: 0 <= i < j < |fs| ==> fs[i].offset <= fs[j].offset)
  }

  lemma OrderAppends(a: seq<Finding>, b: seq<Finding>, low: int, middle: int, middle': int, high: int)
    requires InOrder(a, low, middle) && InOrder(b, middle', high) && low <= middle <= middle' <= high
    ensures InOrder(a + b, low, high)
  {
  }

  lemma StringInOrder(lib: Library, ps: seq<Piece>, pointer: Text, offset: nat)
    requires PiecesOk(ps)
    ensures InOrder(StringFindings(lib, ps, pointer, offset), offset, offset)
  {
    hide HasLoneSurrogate, NotNormal;
  }

  lemma NumberInOrder(lib: Library, n: Number, pointer: Text, offset: nat)
    ensures InOrder(NumberFindings(lib, n, pointer, offset), offset, offset)
  {
    hide Overflows, Underflows, RoundTrips, Large, Inexact, WrittenAsInteger;
  }

  lemma NameInOrder(name: Text, pointer: Text, offset: nat, seen: Seen)
    ensures InOrder(NameFindings(name, pointer, offset, seen), offset, offset)
  {
    hide Extend;
  }

  lemma Widened(fs: seq<Finding>, low: int, high: int, low': int, high': int)
    requires InOrder(fs, low, high) && low' <= low && high <= high'
    ensures InOrder(fs, low', high')
  {
  }

  /** The findings of a document come in the order of the places they report. */
  lemma {:induction false} FindingsInOrder(lib: Library, v: Value, pointer: Text, offset: nat)
    requires ValueOk(v)
    ensures InOrder(Findings(lib, v, pointer, offset), offset, offset + |Render(v)|)
    decreases v
  {
    hide InOrder, StringFindings, NumberFindings, MembersFindings, ElementsFindings, PiecesOk, NumberOk,
      AllWs, RenderNumber,
      RenderString, Spelling, RenderMembers, RenderElements;
    match v
    case Object(ms) =>
      MembersInOrder(lib, ms, pointer, offset + 1, map[]);
      Widened(Findings(lib, v, pointer, offset), offset + 1, offset + |Render(v)|, offset, offset + |Render(v)|);
    case Array(es) =>
      ElementsInOrder(lib, es, pointer, offset + 1, 0);
      Widened(Findings(lib, v, pointer, offset), offset + 1, offset + |Render(v)|, offset, offset + |Render(v)|);
    case Str(ps) =>
      StringInOrder(lib, ps, pointer, offset);
      Widened(Findings(lib, v, pointer, offset), offset, offset, offset, offset + |Render(v)|);
    case Num(n) =>
      NumberInOrder(lib, n, pointer, offset);
      Widened(Findings(lib, v, pointer, offset), offset, offset, offset, offset + |Render(v)|);
    case _ => NothingInOrder(offset, offset + |Render(v)|);
  }

  lemma NothingInOrder(low: int, high: int)
    ensures InOrder([], low, high)
  {
  }

  lemma {:induction false} MemberInOrder(lib: Library, m: Member, pointer: Text, offset: nat, seen: Seen)
    requires MemberOk(m)
    ensures InOrder(MemberFindings(lib, m, pointer, offset, seen), offset, offset + |RenderMember(m)|)
    decreases m
  {
    hide InOrder, StringFindings, NameFindings, Findings, Name, Extend, ValueOk, PiecesOk, AllWs, Render, RenderString;
    var name, at, value := Name(m.name), offset + |m.before|, ValueOffset(m, offset);
    StringInOrder(lib, m.name, pointer, at);
    NameInOrder(name, pointer, at, seen);
    FindingsInOrder(lib, m.value, Extend(pointer, name), value);
    var a, b := StringFindings(lib, m.name, pointer, at), NameFindings(name, pointer, at, seen);
    var c := Findings(lib, m.value, Extend(pointer, name), value);
    OrderAppends(b, c, at, at, value, value + |Render(m.value)|);
    OrderAppends(a, b + c, at, at, at, value + |Render(m.value)|);
    Widened(a + (b + c), at, value + |Render(m.value)|, offset, offset + |RenderMember(m)|);
  }

  lemma {:induction false} MembersInOrder(lib: Library, ms: Members, pointer: Text, offset: nat, seen: Seen)
    requires MembersOk(ms)
    ensures InOrder(MembersFindings(lib, ms, pointer, offset, seen), offset, offset + |RenderMembers(ms)|)
    decreases ms
  {
    hide InOrder, MemberFindings, MembersFindings, Name, SeenAfter, RenderMember, MemberOk;
    FirstMember(lib, ms, pointer, offset, seen);
    MemberInOrder(lib, ms.m, pointer, offset, seen);
    var n, end := |RenderMember(ms.m)|, offset + |RenderMembers(ms)|;
    if ms.MoreMembers? {
      var seen' := SeenAfter(Name(ms.m.name), offset + |ms.m.before|, seen);
      MembersInOrder(lib, ms.rest, pointer, offset + n + 1, seen');
      OrderAppends(MemberFindings(lib, ms.m, pointer, offset, seen),
        MembersFindings(lib, ms.rest, pointer, offset + n + 1, seen'), offset, offset + n, offset + n + 1, end);
    } else {
      Widened(MembersFindings(lib, ms, pointer, offset, seen), offset, offset + n, offset, end);
    }
  }

  lemma {:induction false} ElementsInOrder(lib: Library, es: Elements, pointer: Text, offset: nat, position: nat)
    requires ElementsOk(es)
    ensures InOrder(ElementsFindings(lib, es, pointer, offset, position), offset, offset + |RenderElements(es)|)
    decreases es
  {
    hide InOrder, Findings, Extend, Decimal, ValueOk, AllWs, Render;
    var inner, at := Extend(pointer, Decimal(position)), offset + |es.e.before|;
    var own, n, end := Findings(lib, es.e.value, inner, at), |RenderElement(es.e)|, offset + |RenderElements(es)|;
    FindingsInOrder(lib, es.e.value, inner, at);
    Widened(own, at, at + |Render(es.e.value)|, offset, offset + n);
    if es.MoreElements? {
      ElementsInOrder(lib, es.rest, pointer, offset + n + 1, position + 1);
      OrderAppends(own, ElementsFindings(lib, es.rest, pointer, offset + n + 1, position + 1), offset, offset + n,
        offset + n + 1, end);
    } else {
      Widened(own, offset, offset + n, offset, end);
    }
  }
}
