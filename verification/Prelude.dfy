/** Option values, shared formats, and the library orderings and sorts the runtime relies on. */
module Prelude {

  datatype Option<+T> = None | Some(value: T)

  lemma Nest<T>(a: seq<T>, b: seq<T>, c: seq<T>)
    ensures (a + b) + c == a + (b + c)
  {
  }

  function Max(a: int, b: int): (m: int) {
    if a < b then b else a
  }

  const MAX_SAFE_INTEGER: nat := 0x1f_ffff_ffff_ffff

  /** `sha256:` and 64 lower-case hexadecimal digits. */
  predicate DigestShape(d: string) {
    |d| == 71 && d[..7] == "sha256:" && forall i :: 7 <= i < 71 ==> '0' <= d[i] <= '9' || 'a' <= d[i] <= 'f'
  }

  lemma HexadecimalDigits(c: char)
    ensures '0' <= c <= '9' || 'a' <= c <= 'f' <==> c in "0123456789abcdef"
  {
    if '0' <= c <= '9' { assert "0123456789abcdef"[c as int - '0' as int] == c; }
    if 'a' <= c <= 'f' { assert "0123456789abcdef"[c as int - 'a' as int + 10] == c; }
  }

  lemma DigestShapeIff(d: string)
    ensures DigestShape(d) <==>
            exists hex :: d == "sha256:" + hex && |hex| == 64 && forall i :: 0 <= i < 64 ==>
                hex[i] in "0123456789abcdef"
  {
    forall c: char { HexadecimalDigits(c); }
    if DigestShape(d) {
      assert d == "sha256:" + d[7..];
      assert forall i :: 0 <= i < 64 ==> d[7..][i] == d[7 + i];
    }
    if hex :| d == "sha256:" + hex && |hex| == 64 && forall i :: 0 <= i < 64 ==> hex[i] in "0123456789abcdef" {
      assert d[..7] == "sha256:";
      assert forall i :: 7 <= i < 71 ==> d[i] == hex[i - 7];
    }
  }

  /** JavaScript's `<` on strings. */
  predicate StringLess(a: string, b: string) {
    if |b| == 0 then false
    else if |a| == 0 then true
    else a[0] < b[0] || (a[0] == b[0] && StringLess(a[1..], b[1..]))
  }

  /** Behind a common beginning, the first string ends or has the smaller character. */
  ghost predicate Precedes(a: string, b: string) {
    exists n: nat :: n <= |a| && n < |b| && a[..n] == b[..n] && (n == |a| || a[n] < b[n])
  }

  lemma PrecedesBehind(a: string, b: string)
    requires |a| > 0 && |b| > 0 && a[0] == b[0]
    ensures Precedes(a, b) <==> Precedes(a[1..], b[1..])
  {
    if Precedes(a[1..], b[1..]) {
      var n: nat :| n <= |a[1..]| && n < |b[1..]| && a[1..][..n] == b[1..][..n]
          && (n == |a[1..]| || a[1..][n] < b[1..][n]);
      assert a[..n + 1] == [a[0]] + a[1..][..n] && b[..n + 1] == [b[0]] + b[1..][..n];
    }
    if Precedes(a, b) {
      var n: nat :| n <= |a| && n < |b| && a[..n] == b[..n] && (n == |a| || a[n] < b[n]);
      assert n > 0;
      assert a[1..][..n - 1] == a[..n][1..] && b[1..][..n - 1] == b[..n][1..];
    }
  }

  lemma PrecedesAtOnce(a: string, b: string)
    requires |a| > 0 && |b| > 0 && a[0] != b[0]
    ensures Precedes(a, b) <==> a[0] < b[0]
  {
    if Precedes(a, b) {
      var n: nat :| n <= |a| && n < |b| && a[..n] == b[..n] && (n == |a| || a[n] < b[n]);
    }
    if a[0] < b[0] { assert a[..0] == b[..0]; }
  }

  lemma {:induction false} StringLessIff(a: string, b: string)
    ensures StringLess(a, b) <==> Precedes(a, b)
  {
    if |a| == 0 || |b| == 0 {
      if |b| > 0 { assert a[..0] == b[..0]; }
    } else if a[0] == b[0] {
      hide Precedes;
      PrecedesBehind(a, b);
      StringLessIff(a[1..], b[1..]);
    } else {
      PrecedesAtOnce(a, b);
    }
  }

  lemma {:induction false} StringLessTransitive(a: string, b: string, c: string)
    requires StringLess(a, b) && StringLess(b, c)
    ensures StringLess(a, c)
  {
    if |a| > 0 && a[0] == b[0] && b[0] == c[0] {
      StringLessTransitive(a[1..], b[1..], c[1..]);
    }
  }

  lemma {:induction false} StringLessTrichotomy(a: string, b: string)
    ensures !(StringLess(a, b) && StringLess(b, a))
    ensures a == b <==> !StringLess(a, b) && !StringLess(b, a)
  {
    if |a| > 0 && |b| > 0 && a[0] == b[0] {
      StringLessTrichotomy(a[1..], b[1..]);
      assert a == [a[0]] + a[1..] && b == [b[0]] + b[1..];
    }
  }

  /** `lt` is a strict order on `dom` that separates its distinct elements. */
  ghost predicate StrictTotalOn<T(!new)>(lt: (T, T) -> bool, dom: set<T>) {
    && (forall x, y :: x in dom && y in dom ==> !(lt(x, y) && lt(y, x)))
    && (forall x, y :: x in dom && y in dom && x != y ==> lt(x, y) || lt(y, x))
    && (forall x, y, z :: x in dom && y in dom && z in dom && lt(x, y) && lt(y, z) ==> lt(x, z))
  }

  ghost function Elements<T>(s: seq<T>): set<T> {
    set x | x in s
  }

  ghost predicate SortedBy<T(!new)>(lt: (T, T) -> bool, s: seq<T>) {
    |s| == 0 || ((forall y :: y in s[1..] ==> !lt(y, s[0])) && SortedBy(lt, s[1..]))
  }

  function InsertBy<T>(lt: (T, T) -> bool, x: T, s: seq<T>): (r: seq<T>)
    ensures multiset(r) == multiset([x]) + multiset(s)
  {
    if |s| == 0 || !lt(s[0], x) then [x] + s
    else
      assert s == [s[0]] + s[1..];
      [s[0]] + InsertBy(lt, x, s[1..])
  }

  /** A stable sort: `Array.prototype.sort` with a comparator derived from `lt`. */
  function SortBy<T>(lt: (T, T) -> bool, s: seq<T>): (r: seq<T>)
    ensures multiset(r) == multiset(s)
  {
    if |s| == 0 then s
    else
      assert s == [s[0]] + s[1..];
      InsertBy(lt, s[0], SortBy(lt, s[1..]))
  }

  lemma SameMembers<T>(a: seq<T>, b: seq<T>)
    requires multiset(a) == multiset(b)
    ensures |a| == |b| && forall x :: x in a <==> x in b
  {
    assert |multiset(a)| == |a| && |multiset(b)| == |b|;
    assert forall x :: x in a <==> x in multiset(a);
    assert forall x :: x in b <==> x in multiset(b);
  }

  lemma InsertMembers<T>(lt: (T, T) -> bool, x: T, s: seq<T>)
    ensures forall y :: y in InsertBy(lt, x, s) <==> y == x || y in s
  {
  }

  lemma {:induction false} InsertBySorted<T(!new)>(lt: (T, T) -> bool, x: T, s: seq<T>, dom: set<T>)
    requires StrictTotalOn(lt, dom) && x in dom && Elements(s) <= dom && SortedBy(lt, s)
    ensures SortedBy(lt, InsertBy(lt, x, s))
  {
    if |s| == 0 {
    } else if !lt(s[0], x) {
      assert ([x] + s)[1..] == s;
      forall y | y in s ensures !lt(y, x) {
        assert y in Elements(s) && s[0] in Elements(s);
        assert y == s[0] || y in s[1..];
      }
    } else {
      var rest := InsertBy(lt, x, s[1..]);
      InsertBySorted(lt, x, s[1..], dom);
      InsertMembers(lt, x, s[1..]);
      assert s[0] in Elements(s);
      assert ([s[0]] + rest)[1..] == rest;
    }
  }

  lemma {:induction false} SortBySorted<T(!new)>(lt: (T, T) -> bool, s: seq<T>)
    requires StrictTotalOn(lt, Elements(s))
    ensures SortedBy(lt, SortBy(lt, s))
  {
    if |s| > 0 {
      assert s[0] in Elements(s) && Elements(s[1..]) <= Elements(s);
      SortBySorted(lt, s[1..]);
      SameMembers(s[1..], SortBy(lt, s[1..]));
      InsertBySorted(lt, s[0], SortBy(lt, s[1..]), Elements(s));
    }
  }

  /** `lt` is a strict order in which elements may tie. */
  ghost predicate StrictWeak<T(!new)>(lt: (T, T) -> bool) {
    && (forall x, y :: !(lt(x, y) && lt(y, x)))
    && (forall x, y, z :: lt(x, z) ==> lt(x, y) || lt(y, z))
  }

  lemma {:induction false} InsertByKeepsOrder<T(!new)>(lt: (T, T) -> bool, x: T, s: seq<T>)
    requires StrictWeak(lt) && SortedBy(lt, s)
    ensures SortedBy(lt, InsertBy(lt, x, s))
  {
    if |s| == 0 {
    } else if !lt(s[0], x) {
      var least := s[0];
      assert ([x] + s)[1..] == s;
      forall y | y in s ensures !lt(y, x) {
        assert y == least || y in s[1..];
        assert lt(y, x) ==> lt(y, least) || lt(least, x);
      }
    } else {
      var rest := InsertBy(lt, x, s[1..]);
      InsertByKeepsOrder(lt, x, s[1..]);
      InsertMembers(lt, x, s[1..]);
      assert ([s[0]] + rest)[1..] == rest;
    }
  }

  /** Sorting orders elements that may tie, too. */
  lemma {:induction false} SortByOrders<T(!new)>(lt: (T, T) -> bool, s: seq<T>)
    requires StrictWeak(lt)
    ensures SortedBy(lt, SortBy(lt, s))
  {
    if |s| > 0 {
      SortByOrders(lt, s[1..]);
      InsertByKeepsOrder(lt, s[0], SortBy(lt, s[1..]));
    }
  }

  lemma HeadOrTail<T>(s: seq<T>, x: T)
    requires x in s
    ensures x == s[0] || x in s[1..]
  {
  }

  /** The least element of a sorted list comes first. */
  lemma SameHead<T(!new)>(lt: (T, T) -> bool, a: seq<T>, b: seq<T>)
    requires |a| > 0 && multiset(a) == multiset(b) && StrictTotalOn(lt, Elements(a)) && SortedBy(lt, a)
             && SortedBy(lt, b)
    ensures |b| > 0 && a[0] == b[0]
  {
    SameMembers(a, b);
    assert a[0] in a && b[0] in b;
    HeadOrTail(a, b[0]);
    HeadOrTail(b, a[0]);
    assert a[0] in Elements(a) && b[0] in Elements(a);
  }

  lemma TailMembers<T(!new)>(lt: (T, T) -> bool, a: seq<T>)
    requires |a| > 0 && SortedBy(lt, a)
    ensures SortedBy(lt, a[1..]) && multiset(a[1..]) == multiset(a) - multiset{a[0]}
    ensures StrictTotalOn(lt, Elements(a)) ==> StrictTotalOn(lt, Elements(a[1..]))
  {
    assert a == [a[0]] + a[1..];
    assert Elements(a[1..]) <= Elements(a);
  }

  lemma {:induction false} SortedIsUnique<T(!new)>(lt: (T, T) -> bool, a: seq<T>, b: seq<T>)
    requires multiset(a) == multiset(b) && StrictTotalOn(lt, Elements(a))
    requires SortedBy(lt, a) && SortedBy(lt, b)
    ensures a == b
  {
    hide SortedBy, StrictTotalOn;
    SameMembers(a, b);
    if |a| > 0 {
      SameHead(lt, a, b);
      TailMembers(lt, a);
      TailMembers(lt, b);
      SortedIsUnique(lt, a[1..], b[1..]);
      assert a == [a[0]] + a[1..] && b == [b[0]] + b[1..];
    }
  }

  /** Sorting forgets the order of its input whenever the comparator separates the elements. */
  lemma SortByPermutation<T(!new)>(lt: (T, T) -> bool, a: seq<T>, b: seq<T>)
    requires multiset(a) == multiset(b) && StrictTotalOn(lt, Elements(a))
    ensures SortBy(lt, a) == SortBy(lt, b)
  {
    SameMembers(a, b);
    assert Elements(a) == Elements(b);
    SortBySorted(lt, a);
    SortBySorted(lt, b);
    SameMembers(SortBy(lt, a), a);
    assert Elements(SortBy(lt, a)) == Elements(a);
    SortedIsUnique(lt, SortBy(lt, a), SortBy(lt, b));
  }

  lemma RepeatedMultiplicity<T>(s: seq<T>, i: int, j: int)
    requires 0 <= i < j < |s| && s[i] == s[j]
    ensures multiset(s)[s[i]] >= 2
  {
    assert s == s[..i] + [s[i]] + s[i + 1..j] + [s[j]] + s[j + 1..];
    assert multiset(s) == multiset(s[..i]) + multiset{s[i]} + multiset(s[i + 1..j]) + multiset{s[j]} +
        multiset(s[j + 1..]);
  }

  lemma {:induction false} DistinctMultiplicity<T(!new)>(s: seq<T>)
    requires forall i, j :: 0 <= i < j < |s| ==> s[i] != s[j]
    ensures forall x :: multiset(s)[x] <= 1
  {
    if |s| > 0 {
      assert s == [s[0]] + s[1..];
      DistinctMultiplicity(s[1..]);
      assert multiset(s) == multiset{s[0]} + multiset(s[1..]);
      assert s[0] !in s[1..];
    }
  }

  /** Rearranging elements of distinct keys keeps their keys distinct. */
  lemma DistinctKeysStay<T(!new), K>(key: T -> K, s: seq<T>, rearranged: seq<T>)
    requires multiset(rearranged) == multiset(s)
    requires forall i, j :: 0 <= i < j < |s| ==> key(s[i]) != key(s[j])
    ensures forall i, j :: 0 <= i < j < |rearranged| ==> key(rearranged[i]) != key(rearranged[j])
  {
    DistinctMultiplicity(s);
    SameMembers(rearranged, s);
    forall i, j | 0 <= i < j < |rearranged| ensures key(rearranged[i]) != key(rearranged[j]) {
      assert rearranged[i] in s && rearranged[j] in s;
      if key(rearranged[i]) == key(rearranged[j]) {
        RepeatedMultiplicity(rearranged, i, j);
        assert false;
      }
    }
  }

  /** In a sorted list, later elements are never less. */
  lemma {:induction false} SortedPairs<T(!new)>(lt: (T, T) -> bool, s: seq<T>)
    requires SortedBy(lt, s)
    ensures forall i, j :: 0 <= i < j < |s| ==> !lt(s[j], s[i])
  {
    if |s| > 0 {
      SortedPairs(lt, s[1..]);
      forall i, j | 0 <= i < j < |s| ensures !lt(s[j], s[i]) {
        assert s[j] == s[1..][j - 1];
        if i > 0 { assert s[i] == s[1..][i - 1]; }
      }
    }
  }
}
