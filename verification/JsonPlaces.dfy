/** Where findings stand in the bytes of a document: every offset is the start of the string or number it reports. */
module JsonPlaces {
  import opened Prelude
  import opened JsonGrammar
  import opened JsonNames
  import opened JsonReports
  import opened JsonFindings

  /******** Places in the bytes of a tree ********/

  /** The bytes of a member in front of its value. */
  function MemberHead(m: Member): seq<Byte> {
    m.before + (RenderString(m.name) + (m.beforeColon + ([0x3a] + m.afterColon)))
  }

  /** The value `w` is part of `v`, and `before` are the bytes of `v` in front of it. */
  ghost predicate Within(v: Value, w: Value, before: seq<Byte>)
    decreases v
  {
    (w == v && before == []) ||
    match v
    case Object(ms) => |before| > 0 && before[0] == 0x7b && WithinMembers(ms, w, before[1..])
    case Array(es) => |before| > 0 && before[0] == 0x5b && WithinElements(es, w, before[1..])
    case _ => false
  }

  ghost predicate WithinMembers(ms: Members, w: Value, before: seq<Byte>)
    decreases ms
  {
    var head, over := MemberHead(ms.m), RenderMember(ms.m) + [0x2c];
    (head <= before && Within(ms.m.value, w, before[|head|..])) ||
    (ms.MoreMembers? && over <= before && WithinMembers(ms.rest, w, before[|over|..]))
  }

  ghost predicate WithinElements(es: Elements, w: Value, before: seq<Byte>)
    decreases es
  {
    var head, over := es.e.before, RenderElement(es.e) + [0x2c];
    (head <= before && Within(es.e.value, w, before[|head|..])) ||
    (es.MoreElements? && over <= before && WithinElements(es.rest, w, before[|over|..]))
  }

  lemma PrefixIn(a: seq<Byte>, b: seq<Byte>, part: seq<Byte>, whole: seq<Byte>, rest: seq<Byte>)
    requires a <= b && b[|a|..] + part <= whole
    ensures b + part <= a + (whole + rest)
  {
    assert b == a + b[|a|..];
    assert b + part == a + (b[|a|..] + part);
  }

  lemma MemberSplits(m: Member)
    ensures RenderMember(m) == MemberHead(m) + (Render(m.value) + m.after)
  {
    hide RenderString, Render;
    var tail := Render(m.value) + m.after;
    Nest([0x3a], m.afterColon, tail);
    Nest(m.beforeColon, [0x3a] + m.afterColon, tail);
    Nest(RenderString(m.name), m.beforeColon + ([0x3a] + m.afterColon), tail);
    Nest(m.before, RenderString(m.name) + (m.beforeColon + ([0x3a] + m.afterColon)), tail);
  }

  /** The bytes in front of a part and the part itself begin the bytes of the whole. */
  lemma {:induction false} WithinBytes(v: Value, w: Value, before: seq<Byte>)
    requires Within(v, w, before)
    ensures before + Render(w) <= Render(v)
    decreases v
  {
    hide WithinMembers, WithinElements, RenderMembers, RenderElements;
    if w == v && before == [] {
      assert [] + Render(w) == Render(w);
    } else {
      match v
      case Object(ms) =>
        WithinMembersBytes(ms, w, before[1..]);
        assert before == [0x7b] + before[1..];
        assert before + Render(w) == [0x7b] + (before[1..] + Render(w));
      case Array(es) =>
        WithinElementsBytes(es, w, before[1..]);
        assert before == [0x5b] + before[1..];
        assert before + Render(w) == [0x5b] + (before[1..] + Render(w));
    }
  }

  lemma {:induction false} WithinMembersBytes(ms: Members, w: Value, before: seq<Byte>)
    requires WithinMembers(ms, w, before)
    ensures before + Render(w) <= RenderMembers(ms)
    decreases ms
  {
    hide Within, RenderMember, MemberHead, Render;
    var head, over := MemberHead(ms.m), RenderMember(ms.m) + [0x2c];
    if head <= before && Within(ms.m.value, w, before[|head|..]) {
      WithinBytes(ms.m.value, w, before[|head|..]);
      MemberSplits(ms.m);
      PrefixIn(head, before, Render(w), Render(ms.m.value), ms.m.after);
      LongerPrefix(before + Render(w), RenderMember(ms.m), RenderMembers(ms));
    } else {
      WithinMembersBytes(ms.rest, w, before[|over|..]);
      PrefixIn(over, before, Render(w), RenderMembers(ms.rest), []);
      assert over + (RenderMembers(ms.rest) + []) == RenderMember(ms.m) + ([0x2c] + RenderMembers(ms.rest));
    }
  }

  lemma LongerPrefix(part: seq<Byte>, middle: seq<Byte>, whole: seq<Byte>)
    requires part <= middle <= whole
    ensures part <= whole
  {
  }

  lemma {:induction false} WithinElementsBytes(es: Elements, w: Value, before: seq<Byte>)
    requires WithinElements(es, w, before)
    ensures before + Render(w) <= RenderElements(es)
    decreases es
  {
    hide Within, RenderElement, Render;
    var head, over := es.e.before, RenderElement(es.e) + [0x2c];
    if head <= before && Within(es.e.value, w, before[|head|..]) {
      WithinBytes(es.e.value, w, before[|head|..]);
      ElementSplits(es.e);
      PrefixIn(head, before, Render(w), Render(es.e.value), es.e.after);
      LongerPrefix(before + Render(w), RenderElement(es.e), RenderElements(es));
    } else {
      WithinElementsBytes(es.rest, w, before[|over|..]);
      PrefixIn(over, before, Render(w), RenderElements(es.rest), []);
      assert over + (RenderElements(es.rest) + []) == RenderElement(es.e) + ([0x2c] + RenderElements(es.rest));
    }
  }

  lemma ElementSplits(e: Element)
    ensures RenderElement(e) == e.before + (Render(e.value) + e.after)
  {
  }

  /******** Names of an object ********/

  function MemberList(ms: Members): (list: seq<Member>)
    ensures |list| > 0 && list[0] == ms.m
  {
    match ms
    case LastMember(m) => [m]
    case MoreMembers(m, rest) => [m] + MemberList(rest)
  }

  /** The bytes of the members in front of member `i`, with their commas. */
  function MembersBefore(list: seq<Member>, i: nat): seq<Byte>
    requires i <= |list|
  {
    if i == 0 then [] else MembersBefore(list, i - 1) + (RenderMember(list[i - 1]) + [0x2c])
  }

  /** Where the name of member `i` starts, in an object whose first member starts at `base`. */
  function NameAt(list: seq<Member>, i: nat, base: nat): nat
    requires i < |list|
  {
    base + |MembersBefore(list, i)| + |list[i].before|
  }

  lemma {:induction false} MembersBeforeShift(m: Member, rest: seq<Member>, i: nat)
    requires i <= |rest|
    ensures MembersBefore([m] + rest, i + 1) == (RenderMember(m) + [0x2c]) + MembersBefore(rest, i)
  {
    hide RenderMember;
    var list := [m] + rest;
    if i == 0 {
      assert MembersBefore(list, 0) == [] && list[0] == m;
      assert [] + (RenderMember(m) + [0x2c]) == (RenderMember(m) + [0x2c]) + [];
    } else {
      MembersBeforeShift(m, rest, i - 1);
      assert list[i] == rest[i - 1];
      Nest(RenderMember(m) + [0x2c], MembersBefore(rest, i - 1), RenderMember(rest[i - 1]) + [0x2c]);
    }
  }

  /** Behind the bytes in front of it, a name starts with its quote. */
  lemma {:induction false} NameStarts(ms: Members, i: nat)
    requires i < |MemberList(ms)|
    ensures var list := MemberList(ms);
            (MembersBefore(list, i) + list[i].before) + RenderString(list[i].name) <= RenderMembers(ms)
    decreases ms
  {
    hide RenderString, Render, RenderMember, RenderMembers, MembersBefore;
    var list := MemberList(ms);
    var own := list[i].before + RenderString(list[i].name);
    Nest(MembersBefore(list, i), list[i].before, RenderString(list[i].name));
    MembersRender(ms);
    if i == 0 {
      NoneBefore(list);
      NameBeginsMember(ms.m);
      assert [] + own == own;
    } else {
      NameStarts(ms.rest, i - 1);
      var rest, over := MemberList(ms.rest), RenderMember(ms.m) + [0x2c];
      MembersBeforeShift(ms.m, rest, i - 1);
      Nest(MembersBefore(rest, i - 1), rest[i - 1].before, RenderString(rest[i - 1].name));
      Nest(over, MembersBefore(rest, i - 1), own);
      PrefixBehind(over, MembersBefore(rest, i - 1) + own, RenderMembers(ms.rest));
    }
  }

  lemma NoneBefore(list: seq<Member>)
    ensures MembersBefore(list, 0) == []
  {
  }

  lemma MembersRender(ms: Members)
    ensures RenderMember(ms.m) <= RenderMembers(ms)
    ensures ms.MoreMembers? ==> RenderMembers(ms) == (RenderMember(ms.m) + [0x2c]) + RenderMembers(ms.rest)
  {
    hide RenderMember;
    if ms.MoreMembers? { Nest(RenderMember(ms.m), [0x2c], RenderMembers(ms.rest)); }
  }

  lemma PrefixBehind(a: seq<Byte>, part: seq<Byte>, whole: seq<Byte>)
    requires part <= whole
    ensures a + part <= a + whole
  {
  }

  lemma NameBeginsMember(m: Member)
    ensures m.before + RenderString(m.name) <= RenderMember(m)
  {
    hide RenderString, Render;
    var tail := m.beforeColon + ([0x3a] + (m.afterColon + (Render(m.value) + m.after)));
    Nest(m.before, RenderString(m.name), tail);
  }

  lemma {:induction false} NamesAreInOrder(list: seq<Member>, i: nat, j: nat, base: nat)
    requires i < j < |list|
    ensures NameAt(list, i, base) < NameAt(list, j, base)
  {
    hide Render, RenderString;
    if j == i + 1 {
      assert |RenderMember(list[i])| >= |list[i].before|;
    } else {
      NamesAreInOrder(list, i, j - 1, base);
      assert |RenderMember(list[j - 1])| >= |list[j - 1].before|;
    }
  }

  /******** What a finding reports ********/

  ghost predicate NamesOk(list: seq<Member>) {
    forall i :: 0 <= i < |list| ==> PiecesOk(list[i].name)
  }

  /** Member `i` is the first of the object whose name decodes to `name`. */
  ghost predicate FirstNamed(list: seq<Member>, i: int, name: Text)
    requires NamesOk(list)
  {
    0 <= i < |list| && Name(list[i].name) == name && forall h :: 0 <= h < i ==> Name(list[h].name) != name
  }

  /** The finding reports member `j` as a repeat of member `i`, each by where its name starts. */
  ghost predicate RepeatAt(list: seq<Member>, i: int, j: int, f: Finding, base: nat)
    requires NamesOk(list)
  {
    && f.DuplicateMemberName? && 0 <= i < j < |list| && FirstNamed(list, i, Name(list[j].name))
    && f.firstOffset == NameAt(list, i, base) && f.offset == NameAt(list, j, base)
  }

  /** The finding is about this string. */
  ghost predicate ReportsString(lib: Library, ps: seq<Piece>, f: Finding) {
    PiecesOk(ps) && ((f.LoneSurrogateEscape? && HasLoneSurrogate(ps)) || (f.NonNfcString? && NotNormal(lib, Units(ps))))
  }

  ghost predicate SomeRepeat(list: seq<Member>, f: Finding, base: nat)
    requires NamesOk(list)
  {
    exists i, j :: RepeatAt(list, i, j, f, base)
  }

  ghost predicate ReportsName(lib: Library, list: seq<Member>, f: Finding, base: nat)
    requires NamesOk(list)
  {
    || SomeRepeat(list, f, base)
    || (exists j :: 0 <= j < |list| && f.offset == NameAt(list, j, base) && ReportsString(lib, list[j].name, f))
  }

  /** The finding is about this value, or about a name of this object, which starts at `at`. */
  ghost predicate Reports(lib: Library, w: Value, f: Finding, at: nat) {
    match w
    case Object(ms) => NamesOk(MemberList(ms)) && ReportsName(lib, MemberList(ms), f, at + 1)
    case Str(ps) => f.offset == at && ReportsString(lib, ps, f)
    case Num(n) => NumberOk(n) && f.offset == at && f in NumberFindings(lib, n, f.pointer, at)
    case _ => false
  }

  lemma {:induction false} NamesAreOk(ms: Members)
    requires MembersOk(ms)
    ensures NamesOk(MemberList(ms))
    decreases ms
  {
    hide PiecesOk, ValueOk, AllWs;
    if ms.MoreMembers? { NamesAreOk(ms.rest); }
  }

  lemma StringReported(lib: Library, ps: seq<Piece>, pointer: Text, offset: nat, f: Finding)
    requires PiecesOk(ps) && f in StringFindings(lib, ps, pointer, offset)
    ensures f.offset == offset && ReportsString(lib, ps, f)
  {
    hide HasLoneSurrogate, NotNormal;
  }

  lemma NumberOffset(lib: Library, n: Number, pointer: Text, offset: nat, f: Finding)
    requires f in NumberFindings(lib, n, pointer, offset)
    ensures f.offset == offset && f.pointer == pointer
  {
    hide Overflows, Underflows, RoundTrips, Large, Inexact, WrittenAsInteger;
  }

  /** The names before member `p`, each with the place of its first member. */
  ghost predicate SeenIs(list: seq<Member>, p: nat, base: nat, seen: Seen)
    requires NamesOk(list)
  {
    && (forall i :: 0 <= i < p && i < |list| ==> Name(list[i].name) in seen)
    && (forall name :: name in seen ==>
          exists i :: 0 <= i < p && FirstNamed(list, i, name) && seen[name] == NameAt(list, i, base))
  }

  lemma SeenGrows(list: seq<Member>, p: nat, base: nat, seen: Seen)
    requires NamesOk(list) && p < |list| && SeenIs(list, p, base, seen)
    ensures SeenIs(list, p + 1, base, SeenAfter(Name(list[p].name), NameAt(list, p, base), seen))
  {
    hide Name, NameAt;
    var name := Name(list[p].name);
    if name !in seen {
      assert FirstNamed(list, p, name);
    }
  }

  lemma RepeatReported(list: seq<Member>, p: nat, base: nat, seen: Seen, pointer: Text, f: Finding)
    requires NamesOk(list) && p < |list| && SeenIs(list, p, base, seen)
    requires f in NameFindings(Name(list[p].name), pointer, NameAt(list, p, base), seen)
    ensures exists i :: RepeatAt(list, i, p, f, base)
  {
    hide Name, NameAt, Extend;
    var name := Name(list[p].name);
    var i :| 0 <= i < p && FirstNamed(list, i, name) && seen[name] == NameAt(list, i, base);
    assert RepeatAt(list, i, p, f, base);
  }

  /** Which part of a member a finding comes from. */
  lemma MemberParts(lib: Library, m: Member, pointer: Text, offset: nat, seen: Seen, f: Finding)
    requires MemberOk(m) && f in MemberFindings(lib, m, pointer, offset, seen)
    ensures f in StringFindings(lib, m.name, pointer, offset + |m.before|)
            || f in NameFindings(Name(m.name), pointer, offset + |m.before|, seen)
            || f in Findings(lib, m.value, Extend(pointer, Name(m.name)), offset + |MemberHead(m)|)
  {
    hide StringFindings, NameFindings, Findings, Name, Extend, RenderString;
    assert ValueOffset(m, offset) == offset + |MemberHead(m)|;
  }

  /** Every finding of a value reports one of its parts, by the place where that part or its name starts. */
  lemma {:induction false} FindingReports(lib: Library, v: Value, pointer: Text, offset: nat, f: Finding)
      returns (w: Value, before: seq<Byte>)
    requires ValueOk(v) && f in Findings(lib, v, pointer, offset)
    ensures Within(v, w, before) && Reports(lib, w, f, offset + |before|)
    decreases v
  {
    hide MembersFindings, ElementsFindings, StringFindings, NumberFindings, WithinMembers, WithinElements, ReportsName,
      ReportsString, NumberOk, PiecesOk, NamesOk;
    match v
    case Object(ms) =>
      NamesAreOk(ms);
      NothingSeen(MemberList(ms), offset + 1);
      var own, x, inner := FindingInMembers(lib, MemberList(ms), 0, ms, pointer, offset + 1, map[], f);
      w, before := if own then v else x, if own then [] else [0x7b] + inner;
    case Array(es) =>
      var x, inner := FindingInElements(lib, es, pointer, offset + 1, 0, f);
      w, before := x, [0x5b] + inner;
    case Str(ps) =>
      StringReported(lib, ps, pointer, offset, f);
      w, before := v, [];
    case Num(n) =>
      NumberOffset(lib, n, pointer, offset, f);
      w, before := v, [];
  }

  lemma NothingSeen(list: seq<Member>, base: nat)
    requires NamesOk(list)
    ensures SeenIs(list, 0, base, map[]) && list[0..] == list && MembersBefore(list, 0) == []
  {
  }

  /** `own` says that the finding is about a name of the object itself. */
  lemma {:induction false} FindingInMembers(lib: Library, list: seq<Member>, p: nat, ms: Members, pointer: Text,
      base: nat, seen: Seen, f: Finding) returns (own: bool, w: Value, before: seq<Byte>)
    requires NamesOk(list) && p < |list| && MembersOk(ms) && MemberList(ms) == list[p..] && SeenIs(list, p, base, seen)
    requires f in MembersFindings(lib, ms, pointer, base + |MembersBefore(list, p)|, seen)
    ensures own ==> ReportsName(lib, list, f, base)
    ensures !own ==>
              WithinMembers(ms, w, before) && Reports(lib, w, f, base + |MembersBefore(list, p)| + |before|)
    decreases ms
  {
    hide *;
    own, w, before := false, ms.m.value, [];
    var offset := base + |MembersBefore(list, p)|;
    FirstOfList(ms, list, p, base);
    FirstMember(lib, ms, pointer, offset, seen);
    if f in MemberFindings(lib, ms.m, pointer, offset, seen) {
      own, w, before := FindingInMember(lib, list, p, ms, pointer, base, seen, f);
    } else {
      SeenGrows(list, p, base, seen);
      own, w, before := FindingInMembers(lib, list, p + 1, ms.rest, pointer, base,
        SeenAfter(Name(list[p].name), NameAt(list, p, base), seen), f);
      if !own {
        DeeperInRest(ms, w, before);
        before := (RenderMember(ms.m) + [0x2c]) + before;
      }
    }
  }

  lemma FirstOfList(ms: Members, list: seq<Member>, p: nat, base: nat)
    requires p < |list| && MemberList(ms) == list[p..]
    ensures list[p] == ms.m && NameAt(list, p, base) == base + |MembersBefore(list, p)| + |ms.m.before|
    ensures ms.MoreMembers? ==>
              && p + 1 < |list| && MemberList(ms.rest) == list[p + 1..]
              && |MembersBefore(list, p + 1)| == |MembersBefore(list, p)| + |RenderMember(ms.m)| + 1
  {
    hide RenderMember;
    if ms.MoreMembers? { assert MemberList(ms)[1..] == MemberList(ms.rest) && list[p..][1..] == list[p + 1..]; }
  }

  lemma DeeperInRest(ms: Members, w: Value, before: seq<Byte>)
    requires ms.MoreMembers? && WithinMembers(ms.rest, w, before)
    ensures WithinMembers(ms, w, (RenderMember(ms.m) + [0x2c]) + before)
  {
    hide RenderMember, MemberHead, Within;
    var over := RenderMember(ms.m) + [0x2c];
    assert (over + before)[|over|..] == before;
  }

  lemma DeeperInValue(ms: Members, w: Value, before: seq<Byte>)
    requires Within(ms.m.value, w, before)
    ensures WithinMembers(ms, w, MemberHead(ms.m) + before)
  {
    hide RenderMember, MemberHead, Within;
    assert (MemberHead(ms.m) + before)[|MemberHead(ms.m)|..] == before;
  }

  lemma {:induction false} FindingInMember(lib: Library, list: seq<Member>, p: nat, ms: Members, pointer: Text,
      base: nat, seen: Seen, f: Finding) returns (own: bool, w: Value, before: seq<Byte>)
    requires NamesOk(list) && p < |list| && MemberOk(ms.m) && ms.m == list[p] && SeenIs(list, p, base, seen)
    requires f in MemberFindings(lib, ms.m, pointer, base + |MembersBefore(list, p)|, seen)
    ensures own ==> ReportsName(lib, list, f, base)
    ensures !own ==>
              WithinMembers(ms, w, before) && Reports(lib, w, f, base + |MembersBefore(list, p)| + |before|)
    decreases ms, 0
  {
    hide Name, StringFindings, NameFindings, Findings, MemberFindings, Extend, SeenIs, MembersBefore,
      MemberHead, Within,
      WithinMembers, Reports, ReportsString, RepeatAt, NamesOk, PiecesOk, RenderMember;
    var m, offset := ms.m, base + |MembersBefore(list, p)|;
    own, w, before := true, m.value, [];
    MemberParts(lib, m, pointer, offset, seen, f);
    MemberHasValue(m);
    if f in StringFindings(lib, m.name, pointer, offset + |m.before|) {
      StringReported(lib, m.name, pointer, offset + |m.before|, f);
    } else if f in NameFindings(Name(m.name), pointer, offset + |m.before|, seen) {
      RepeatReported(list, p, base, seen, pointer, f);
    } else {
      var inner;
      w, inner := FindingReports(lib, m.value, Extend(pointer, Name(m.name)), offset + |MemberHead(m)|, f);
      DeeperInValue(ms, w, inner);
      own, before := false, MemberHead(m) + inner;
    }
  }

  lemma MemberHasValue(m: Member)
    requires MemberOk(m)
    ensures ValueOk(m.value) && PiecesOk(m.name)
  {
  }

  lemma {:induction false} FindingInElements(lib: Library, es: Elements, pointer: Text, offset: nat, position: nat,
      f: Finding) returns (w: Value, before: seq<Byte>)
    requires ElementsOk(es) && f in ElementsFindings(lib, es, pointer, offset, position)
    ensures WithinElements(es, w, before) && Reports(lib, w, f, offset + |before|)
    decreases es
  {
    hide Findings, Reports, Within, RenderElement, Extend, Decimal, ValueOk;
    var head, over := es.e.before, RenderElement(es.e) + [0x2c];
    if f in Findings(lib, es.e.value, Extend(pointer, Decimal(position)), offset + |head|) {
      var inner;
      w, inner := FindingReports(lib, es.e.value, Extend(pointer, Decimal(position)), offset + |head|, f);
      before := head + inner;
      assert before[|head|..] == inner;
    } else {
      var inner;
      w, inner := FindingInElements(lib, es.rest, pointer, offset + |RenderElement(es.e)| + 1, position + 1, f);
      before := over + inner;
      assert before[|over|..] == inner;
    }
  }

  /******** Findings of a document ********/

  /** These bytes stand at this offset. */
  ghost predicate StartsAt(bytes: seq<Byte>, offset: nat, part: seq<Byte>) {
    offset + |part| <= |bytes| && bytes[offset..offset + |part|] == part
  }

  lemma PartStarts(bytes: seq<Byte>, before: seq<Byte>, part: seq<Byte>)
    requires before + part <= bytes
    ensures StartsAt(bytes, |before|, part)
  {
    assert bytes[..|before| + |part|] == before + part;
    assert bytes[|before|..|before| + |part|] == bytes[..|before| + |part|][|before|..];
  }

  lemma InDocument(d: Document, w: Value, before: seq<Byte>)
    requires Within(d.value, w, before)
    ensures d.before + before + Render(w) <= RenderDocument(d)
  {
    hide Render, Within;
    WithinBytes(d.value, w, before);
    Nest(d.before, before, Render(w));
    PrefixBehind(d.before, before + Render(w), Render(d.value) + d.after);
  }

  /**
   * Every repeated-name finding of a document names two members of one object by the places of their opening quotes:
   * the
   * later one, and the first of that object whose name decodes to the same text.
   */
  lemma RepeatsArePlaced(lib: Library, d: Document, f: Finding)
      returns (before: seq<Byte>, ms: Members, i: nat, j: nat)
    requires DocumentOk(d) && f in Findings(lib, d.value, [], |d.before|) && f.DuplicateMemberName?
    ensures Within(d.value, Object(ms), before) && StartsAt(RenderDocument(d), |d.before + before|, Render(Object(ms)))
    ensures NamesOk(MemberList(ms)) && i < j < |MemberList(ms)|
    ensures var list := MemberList(ms);
            && Name(list[i].name) == Name(list[j].name)
            && (forall h :: 0 <= h < i ==> Name(list[h].name) != Name(list[j].name))
            && StartsAt(RenderDocument(d), f.firstOffset, RenderString(list[i].name))
            && StartsAt(RenderDocument(d), f.offset, RenderString(list[j].name))
            && f.firstOffset < f.offset
            && RenderDocument(d)[f.firstOffset] == 0x22 && RenderDocument(d)[f.offset] == 0x22
  {
    hide Within, Findings, Name, Render, RenderDocument, RenderString, MemberList, NamesOk, NameAt;
    var w;
    w, before := FindingReports(lib, d.value, [], |d.before|, f);
    RepeatIsOfObject(lib, w, f, |d.before| + |before|);
    ms := w.members;
    var list, base := MemberList(ms), |d.before| + |before| + 1;
    var x, y :| RepeatAt(list, x, y, f, base);
    i, j := x, y;
    InDocument(d, w, before);
    PartStarts(RenderDocument(d), d.before + before, Render(w));
    NameInDocument(d, ms, before, i);
    NameInDocument(d, ms, before, j);
    NamesAreInOrder(list, i, j, base);
    Quoted(list[i].name);
    Quoted(list[j].name);
  }

  lemma Quoted(ps: seq<Piece>)
    ensures |RenderString(ps)| > 0 && RenderString(ps)[0] == 0x22
  {
  }

  lemma RepeatIsOfObject(lib: Library, w: Value, f: Finding, at: nat)
    requires Reports(lib, w, f, at) && f.DuplicateMemberName?
    ensures w.Object? && NamesOk(MemberList(w.members)) && SomeRepeat(MemberList(w.members), f, at + 1)
  {
    hide RepeatAt, NameAt, Name, NamesOk, MemberList;
  }

  lemma NameInDocument(d: Document, ms: Members, before: seq<Byte>, i: nat)
    requires Within(d.value, Object(ms), before) && i < |MemberList(ms)|
    ensures var list := MemberList(ms);
            StartsAt(RenderDocument(d), NameAt(list, i, |d.before| + |before| + 1), RenderString(list[i].name))
  {
    hide Within, RenderDocument, RenderMembers, RenderString, MembersBefore, MemberList;
    var list := MemberList(ms);
    var inner, name := MembersBefore(list, i) + list[i].before, RenderString(list[i].name);
    InDocument(d, Object(ms), before);
    NameStarts(ms, i);
    PrefixBehind([0x7b], inner + name, RenderMembers(ms));
    PrefixBehind(d.before + before, [0x7b] + (inner + name), Render(Object(ms)));
    var start := d.before + before + ([0x7b] + inner);
    assert start + name == d.before + before + ([0x7b] + (inner + name));
    LongerPrefix(start + name, d.before + before + Render(Object(ms)), RenderDocument(d));
    PartStarts(RenderDocument(d), start, name);
  }

  /** Every other finding of a document names a string or a number by the place where its bytes start. */
  lemma ReportsArePlaced(lib: Library, d: Document, f: Finding)
    requires DocumentOk(d) && f in Findings(lib, d.value, [], |d.before|) && !f.DuplicateMemberName?
    ensures f.LoneSurrogateEscape? || f.NonNfcString? ==> exists ps :: PlacedString(lib, RenderDocument(d), ps, f)
    ensures !f.LoneSurrogateEscape? && !f.NonNfcString? ==> exists n :: PlacedNumber(lib, RenderDocument(d), n, f)
  {
    hide Within, Findings, Name, Render, RenderDocument, RenderString, RenderNumber, MemberList, NamesOk, NameAt,
      Reports, PlacedString, PlacedNumber, StartsAt;
    var w, before := FindingReports(lib, d.value, [], |d.before|, f);
    InDocument(d, w, before);
    PartStarts(RenderDocument(d), d.before + before, Render(w));
    PlacedByKind(lib, d, w, before, f);
  }

  /** The number that the finding is about stands at its offset. */
  ghost predicate PlacedNumber(lib: Library, bytes: seq<Byte>, n: Number, f: Finding) {
    NumberOk(n) && f in NumberFindings(lib, n, f.pointer, f.offset) && StartsAt(bytes, f.offset, RenderNumber(n))
  }

  ghost predicate PlacedString(lib: Library, bytes: seq<Byte>, ps: seq<Piece>, f: Finding) {
    ReportsString(lib, ps, f) && StartsAt(bytes, f.offset, RenderString(ps))
  }

  lemma PlacedByKind(lib: Library, d: Document, w: Value, before: seq<Byte>, f: Finding)
    requires Within(d.value, w, before) && Reports(lib, w, f, |d.before| + |before|) && !f.DuplicateMemberName?
    requires StartsAt(RenderDocument(d), |d.before + before|, Render(w))
    ensures f.LoneSurrogateEscape? || f.NonNfcString? ==> exists ps :: PlacedString(lib, RenderDocument(d), ps, f)
    ensures !f.LoneSurrogateEscape? && !f.NonNfcString? ==> exists n :: PlacedNumber(lib, RenderDocument(d), n, f)
  {
    hide Within, RenderDocument, RenderString, RenderNumber, MemberList, NamesOk, NameAt, NumberOk, StartsAt, Name,
      ReportsString, RenderMembers, RenderElements, NumberFindings, RepeatAt;
    KindOfReport(lib, w, f, |d.before| + |before|);
    match w
    case Object(ms) =>
      RepeatOnly(lib, MemberList(ms), f, |d.before| + |before| + 1);
      var list := MemberList(ms);
      var j :| 0 <= j < |list| && f.offset == NameAt(list, j, |d.before| + |before| + 1)
        && ReportsString(lib, list[j].name, f);
      NameInDocument(d, ms, before, j);
      assert PlacedString(lib, RenderDocument(d), list[j].name, f);
    case Str(ps) => assert PlacedString(lib, RenderDocument(d), ps, f);
    case Num(n) => assert PlacedNumber(lib, RenderDocument(d), n, f);
  }

  lemma RepeatOnly(lib: Library, list: seq<Member>, f: Finding, base: nat)
    requires NamesOk(list) && ReportsName(lib, list, f, base) && !f.DuplicateMemberName?
    ensures exists j :: 0 <= j < |list| && f.offset == NameAt(list, j, base) && ReportsString(lib, list[j].name, f)
  {
    hide NameAt, Name, ReportsString, NamesOk;
  }

  lemma KindOfReport(lib: Library, w: Value, f: Finding, at: nat)
    requires Reports(lib, w, f, at) && !f.DuplicateMemberName?
    ensures w.Object? || w.Str? ==> f.LoneSurrogateEscape? || f.NonNfcString?
    ensures w.Num? ==> !f.LoneSurrogateEscape? && !f.NonNfcString?
  {
    hide NameAt, Name, NamesOk, MemberList, HasLoneSurrogate, NotNormal, PiecesOk, NumberOk, Overflows, Underflows,
      RoundTrips, Large, Inexact, RenderNumber;
  }

  /******** Every repeat is found ********/

  lemma InMember(lib: Library, m: Member, pointer: Text, offset: nat, seen: Seen, f: Finding)
    requires MemberOk(m)
    requires f in NameFindings(Name(m.name), pointer, offset + |m.before|, seen)
             || f in Findings(lib, m.value, Extend(pointer, Name(m.name)), offset + |MemberHead(m)|)
    ensures f in MemberFindings(lib, m, pointer, offset, seen)
  {
    hide StringFindings, NameFindings, Findings, Name, Extend, RenderString;
    assert ValueOffset(m, offset) == offset + |MemberHead(m)|;
  }

  /** The findings of a part of a value are among those of the value. */
  lemma {:induction false} FindingsInside(lib: Library, v: Value, pointer: Text, offset: nat, w: Value,
      before: seq<Byte>)
      returns (p: Text)
    requires ValueOk(v) && Within(v, w, before)
    ensures ValueOk(w)
    ensures forall f :: f in Findings(lib, w, p, offset + |before|) ==> f in Findings(lib, v, pointer, offset)
    decreases v
  {
    hide MembersFindings, ElementsFindings, StringFindings, NumberFindings, WithinMembers, WithinElements, NumberOk,
      PiecesOk, AllWs;
    if w == v && before == [] {
      p := pointer;
    } else {
      match v
      case Object(ms) => p := FindingsInsideMembers(lib, ms, pointer, offset + 1, map[], w, before[1..]);
      case Array(es) => p := FindingsInsideElements(lib, es, pointer, offset + 1, 0, w, before[1..]);
    }
  }

  lemma {:induction false} FindingsInsideMembers(lib: Library, ms: Members, pointer: Text, offset: nat, seen: Seen,
      w: Value, before: seq<Byte>) returns (p: Text)
    requires MembersOk(ms) && WithinMembers(ms, w, before)
    ensures ValueOk(w)
    ensures forall f :: f in Findings(lib, w, p, offset + |before|) ==>
            f in MembersFindings(lib, ms, pointer, offset, seen)
    decreases ms
  {
    hide Findings, MemberFindings, MembersFindings, Within, Name, Extend, MemberHead, RenderMember, ValueOk, PiecesOk,
      AllWs, MembersOk, SeenAfter;
    var head, over := MemberHead(ms.m), RenderMember(ms.m) + [0x2c];
    FirstMember(lib, ms, pointer, offset, seen);
    if head <= before && Within(ms.m.value, w, before[|head|..]) {
      var inner := Extend(pointer, Name(ms.m.name));
      p := FindingsInside(lib, ms.m.value, inner, offset + |head|, w, before[|head|..]);
      forall f | f in Findings(lib, w, p, offset + |before|)
          ensures f in MembersFindings(lib, ms, pointer, offset, seen) {
        InMember(lib, ms.m, pointer, offset, seen, f);
      }
    } else {
      p := FindingsInsideMembers(lib, ms.rest, pointer, offset + |RenderMember(ms.m)| + 1,
        SeenAfter(Name(ms.m.name), offset + |ms.m.before|, seen), w, before[|over|..]);
    }
  }

  lemma {:induction false} FindingsInsideElements(lib: Library, es: Elements, pointer: Text, offset: nat, position: nat,
      w: Value, before: seq<Byte>) returns (p: Text)
    requires ElementsOk(es) && WithinElements(es, w, before)
    ensures ValueOk(w)
    ensures forall f :: f in Findings(lib, w, p, offset + |before|) ==>
              f in ElementsFindings(lib, es, pointer, offset, position)
    decreases es
  {
    hide Findings, Within, Extend, Decimal, RenderElement, ValueOk, AllWs;
    var head, over := es.e.before, RenderElement(es.e) + [0x2c];
    if head <= before && Within(es.e.value, w, before[|head|..]) {
      var inner := Extend(pointer, Decimal(position));
      p := FindingsInside(lib, es.e.value, inner, offset + |head|, w, before[|head|..]);
    } else {
      p := FindingsInsideElements(lib, es.rest, pointer, offset + |RenderElement(es.e)| + 1, position + 1, w,
        before[|over|..]);
    }
  }

  lemma RepeatGivesFinding(list: seq<Member>, i: nat, j: nat, base: nat, seen: Seen, pointer: Text) returns (f: Finding)
    requires NamesOk(list) && i < j < |list| && SeenIs(list, j, base, seen) && FirstNamed(list, i, Name(list[j].name))
    ensures f in NameFindings(Name(list[j].name), pointer, NameAt(list, j, base), seen) && RepeatAt(list, i, j, f, base)
  {
    hide Name, NameAt, Extend;
    var name := Name(list[j].name);
    assert name in seen;
    f := DuplicateMemberName(Extend(pointer, name), NameAt(list, j, base), seen[name]);
    var h :| 0 <= h < j && FirstNamed(list, h, name) && seen[name] == NameAt(list, h, base);
    OneFirst(list, h, i, name);
  }

  lemma OneFirst(list: seq<Member>, h: int, i: int, name: Text)
    requires NamesOk(list) && FirstNamed(list, h, name) && FirstNamed(list, i, name)
    ensures h == i
  {
    hide Name;
  }

  lemma {:induction false} RepeatInMembers(lib: Library, list: seq<Member>, p: nat, ms: Members,
      pointer: Text, base: nat,
      seen: Seen, i: nat, j: nat) returns (f: Finding)
    requires NamesOk(list) && MembersOk(ms) && p <= j < |list| && MemberList(ms) == list[p..]
             && SeenIs(list, p, base, seen)
    requires i < j && FirstNamed(list, i, Name(list[j].name))
    ensures RepeatAt(list, i, j, f, base)
    ensures f in MembersFindings(lib, ms, pointer, base + |MembersBefore(list, p)|, seen)
    decreases ms
  {
    hide *;
    var offset := base + |MembersBefore(list, p)|;
    FirstOfList(ms, list, p, base);
    FirstMember(lib, ms, pointer, offset, seen);
    if p == j {
      f := RepeatGivesFinding(list, i, j, base, seen, pointer);
      InMember(lib, ms.m, pointer, offset, seen, f);
    } else {
      MoreBehind(ms, list, p);
      SeenGrows(list, p, base, seen);
      f := RepeatInMembers(lib, list, p + 1, ms.rest, pointer, base,
        SeenAfter(Name(list[p].name), NameAt(list, p, base), seen), i, j);
    }
  }

  lemma MoreBehind(ms: Members, list: seq<Member>, p: nat)
    requires p + 1 < |list| && MemberList(ms) == list[p..]
    ensures ms.MoreMembers?
  {
    assert |MemberList(ms)| > 1;
  }

  /** In every object of a document, each member whose name repeats an earlier one has its finding. */
  lemma RepeatsAreFound(lib: Library, d: Document, ms: Members, before: seq<Byte>, i: nat, j: nat) returns (f: Finding)
    requires DocumentOk(d) && Within(d.value, Object(ms), before) && i < j < |MemberList(ms)|
    requires NamesOk(MemberList(ms)) && FirstNamed(MemberList(ms), i, Name(MemberList(ms)[j].name))
    ensures f in Findings(lib, d.value, [], |d.before|)
    ensures RepeatAt(MemberList(ms), i, j, f, |d.before| + |before| + 1)
  {
    hide Within, MembersFindings, FirstNamed, Name, RepeatAt, NamesOk, MemberList;
    var p := FindingsInside(lib, d.value, [], |d.before|, Object(ms), before);
    NothingSeen(MemberList(ms), |d.before| + |before| + 1);
    f := RepeatInMembers(lib, MemberList(ms), 0, ms, p, |d.before| + |before| + 1, map[], i, j);
  }
}
