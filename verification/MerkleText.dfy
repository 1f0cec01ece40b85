/** The texts hashed by a checkpoint tree, and why distinct inputs give distinct texts. */
module MerkleText {
  import opened Prelude

  /** SHA-256 of a text, in hexadecimal. */
  type Sha = string -> string

  datatype Leaf = Leaf(tenantId: string, headHash: string)

  const EMPTY_TEXT := "ghost-ark.receipt-checkpoint.empty.v1"
  const NODE_PREFIX := "ghost-ark.receipt-checkpoint.node.v1:"
  const LEAF_PREFIX := "{\"domain\":\"" + "ghost-ark.receipt-chain-head.leaf.v1" + "\",\"headHash\":\""
  const LEAF_MIDDLE := ",\"tenantId\":\""

  function HexDigit(n: nat): char
    requires n < 16
  {
    "0123456789abcdef"[n]
  }

  /** How JSON.stringify writes one character of a string. */
  function Escape(c: char): (e: string)
    ensures |e| > 0
  {
    if c == '"' then ['\\', '"']
    else if c == '\\' then ['\\', '\\']
    else if c as int == 8 then ['\\', 'b']
    else if c as int == 9 then ['\\', 't']
    else if c as int == 10 then ['\\', 'n']
    else if c as int == 12 then ['\\', 'f']
    else if c as int == 13 then ['\\', 'r']
    else if c as int < 32 then ['\\', 'u', '0', '0', HexDigit(c as int / 16), HexDigit(c as int % 16)]
    else [c]
  }

  function EscapeAll(s: string): string {
    if |s| == 0 then "" else Escape(s[0]) + EscapeAll(s[1..])
  }

  /** The canonical JSON text of a leaf: keys sorted, no whitespace. */
  function LeafText(leaf: Leaf): string {
    LEAF_PREFIX + (EscapeAll(leaf.headHash) + ("\"" + (LEAF_MIDDLE + (EscapeAll(leaf.tenantId) + ("\"" + "}")))))
  }

  function NodeText(left: string, right: string): string {
    NODE_PREFIX + left + ":" + right
  }

  function Hash(sha: Sha, text: string): string {
    "sha256:" + sha(text)
  }

  /** The only fact about SHA-256 used here: its hexadecimal output has a fixed width. */
  ghost predicate FixedWidth(sha: Sha) {
    forall t :: |sha(t)| == 64
  }

  /** No two distinct texts of `texts` share a digest. */
  ghost predicate CollisionFree(sha: Sha, texts: set<string>) {
    forall a, b :: a in texts && b in texts && sha(a) == sha(b) ==> a == b
  }

  lemma HashInjective(sha: Sha, texts: set<string>, a: string, b: string)
    requires CollisionFree(sha, texts) && a in texts && b in texts && Hash(sha, a) == Hash(sha, b)
    ensures a == b
  {
    assert Hash(sha, a)[7..] == sha(a) && Hash(sha, b)[7..] == sha(b);
  }

  lemma SplitAt(a: string, x: string, b: string, y: string)
    requires a + x == b + y && |a| == |b|
    ensures a == b && x == y
  {
    assert (a + x)[..|a|] == a && (b + y)[..|b|] == b;
    assert (a + x)[|a|..] == x && (b + y)[|b|..] == y;
  }

  lemma HexDigitInjective(m: nat, n: nat)
    requires m < 16 && n < 16 && HexDigit(m) == HexDigit(n)
    ensures m == n
  {
  }

  lemma EscapeIsPrefixCode(c: char, x: string, d: char, y: string)
    requires Escape(c) + x == Escape(d) + y
    ensures c == d && x == y
  {
    hide HexDigit;
    var left, right := Escape(c) + x, Escape(d) + y;
    assert left[0] == Escape(c)[0] && right[0] == Escape(d)[0];
    if |Escape(c)| > 1 && |Escape(d)| > 1 {
      assert left[1] == Escape(c)[1] && right[1] == Escape(d)[1];
      if |Escape(c)| == 6 && |Escape(d)| == 6 {
        assert left[4] == Escape(c)[4] && right[4] == Escape(d)[4];
        assert left[5] == Escape(c)[5] && right[5] == Escape(d)[5];
        HexDigitInjective(c as int / 16, d as int / 16);
        HexDigitInjective(c as int % 16, d as int % 16);
      }
    }
    assert c == d;
    SplitAt(Escape(c), x, Escape(d), y);
  }

  lemma EscapedStart(s: string, x: string)
    ensures (EscapeAll(s) + ("\"" + x))[0] == '"' <==> s == ""
  {
    if |s| > 0 {
      assert (EscapeAll(s) + ("\"" + x))[0] == Escape(s[0])[0];
    }
  }

  /** An escaped string ends at its first bare quote. */
  lemma {:induction false} QuotedTextSplits(a: string, x: string, b: string, y: string)
    requires EscapeAll(a) + ("\"" + x) == EscapeAll(b) + ("\"" + y)
    ensures a == b && x == y
  {
    hide Escape;
    if |a| == 0 || |b| == 0 {
      var left, right := EscapeAll(a) + ("\"" + x), EscapeAll(b) + ("\"" + y);
      EscapedStart(a, x);
      EscapedStart(b, y);
      assert left[1..] == x && right[1..] == y;
    } else {
      var ra, rb := EscapeAll(a[1..]) + ("\"" + x), EscapeAll(b[1..]) + ("\"" + y);
      assert EscapeAll(a) + ("\"" + x) == Escape(a[0]) + ra;
      assert EscapeAll(b) + ("\"" + y) == Escape(b[0]) + rb;
      EscapeIsPrefixCode(a[0], ra, b[0], rb);
      QuotedTextSplits(a[1..], x, b[1..], y);
      assert a == [a[0]] + a[1..] && b == [b[0]] + b[1..];
    }
  }

  /** The canonical text determines the leaf. */
  lemma LeafTextInjective(a: Leaf, b: Leaf)
    requires LeafText(a) == LeafText(b)
    ensures a == b
  {
    hide EscapeAll;
    var ta, tb := EscapeAll(a.tenantId) + ("\"" + "}"), EscapeAll(b.tenantId) + ("\"" + "}");
    SplitAt(LEAF_PREFIX, EscapeAll(a.headHash) + ("\"" + (LEAF_MIDDLE + ta)), LEAF_PREFIX,
        EscapeAll(b.headHash) + ("\"" + (LEAF_MIDDLE + tb)));
    QuotedTextSplits(a.headHash, LEAF_MIDDLE + ta, b.headHash, LEAF_MIDDLE + tb);
    SplitAt(LEAF_MIDDLE, ta, LEAF_MIDDLE, tb);
    QuotedTextSplits(a.tenantId, "}", b.tenantId, "}");
  }

  /** A node text splits uniquely once the two right parts have the same width. */
  lemma NodeTextSplits(l: string, r: string, m: string, q: string)
    requires NodeText(l, r) == NodeText(m, q) && (|r| == |q| || |l| == |m|)
    ensures l == m && r == q
  {
    assert |NodeText(l, r)| == |NODE_PREFIX| + |l| + 1 + |r|;
    assert |NodeText(m, q)| == |NODE_PREFIX| + |m| + 1 + |q|;
    SplitAt(NODE_PREFIX + l + ":", r, NODE_PREFIX + m + ":", q);
    SplitAt(NODE_PREFIX + l, ":", NODE_PREFIX + m, ":");
    SplitAt(NODE_PREFIX, l, NODE_PREFIX, m);
  }

  /** Leaf, node and empty-tree texts never coincide. */
  lemma DomainsSeparate(leaf: Leaf, l: string, r: string)
    ensures LeafText(leaf) != NodeText(l, r) && LeafText(leaf) != EMPTY_TEXT && NodeText(l, r) != EMPTY_TEXT
  {
    hide EscapeAll;
    assert LeafText(leaf)[0] == LEAF_PREFIX[0] && NodeText(l, r)[0] == NODE_PREFIX[0];
    assert LEAF_PREFIX[0] != NODE_PREFIX[0] && LEAF_PREFIX[0] != EMPTY_TEXT[0];
    assert NodeText(l, r)[29] == NODE_PREFIX[29] && NODE_PREFIX[29] != EMPTY_TEXT[29];
  }

  /******** Where the parts stand ********/

  /** A node text is the prefix, the left child, a colon and the right child, in this order. */
  lemma NodeTextParts(l: string, r: string)
    ensures var text, n := NodeText(l, r), |"ghost-ark.receipt-checkpoint.node.v1:"|;
            && |text| == n + |l| + 1 + |r| && text[..n] == "ghost-ark.receipt-checkpoint.node.v1:"
            && text[n..n + |l|] == l && text[n + |l|] == ':' && text[n + |l| + 1..] == r
  {
    assert NODE_PREFIX + l + ":" + r == NODE_PREFIX + (l + (":" + r));
  }

  /** Where the second and the fourth of five parts stand. */
  lemma FiveParts(a: string, b: string, c: string, d: string, e: string)
    ensures var text, n, m := a + (b + (c + (d + e))), |a| + |b|, |a| + |b| + |c|;
            && |text| == m + |d| + |e| && text[..|a|] == a && text[|a|..n] == b && text[n..m] == c
            && text[m..m + |d|] == d && text[m + |d|..] == e
  {
  }

  lemma LeafTextIs(leaf: Leaf)
    ensures LeafText(leaf) ==
            ("{\"domain\":\"" + "ghost-ark.receipt-chain-head.leaf.v1" + "\",\"headHash\":\"") +
            (EscapeAll(leaf.headHash) + ("\",\"tenantId\":\"" + (EscapeAll(leaf.tenantId) + "\"}")))
  {
    hide EscapeAll;
    var rest := EscapeAll(leaf.tenantId) + "\"}";
    assert "\"" + "}" == "\"}";
    assert LEAF_MIDDLE == ",\"tenantId\":\"";
    var between := "\",\"tenantId\":\"";
    assert between[0] == '"' && between[1..] == LEAF_MIDDLE;
    assert between == "\"" + LEAF_MIDDLE;
    Nest("\"", LEAF_MIDDLE, rest);
  }

  /** A leaf text names the domain, then the head hash, then the tenant, both as JSON strings. */
  lemma LeafTextParts(leaf: Leaf)
    ensures var text, head, tenant := LeafText(leaf), EscapeAll(leaf.headHash), EscapeAll(leaf.tenantId);
            var before := "{\"domain\":\"" + "ghost-ark.receipt-chain-head.leaf.v1" + "\",\"headHash\":\"";
            var between := "\",\"tenantId\":\"";
            var n, m := |before| + |head|, |before| + |head| + |between|;
            && |text| == m + |tenant| + 2 && text[..|before|] == before && text[|before|..n] == head
            && text[n..m] == between && text[m..m + |tenant|] == tenant && text[m + |tenant|..] == "\"}"
            && Unescape(head) == Some(leaf.headHash) && Unescape(tenant) == Some(leaf.tenantId)
  {
    hide EscapeAll, Unescape, LeafText;
    var head, tenant := EscapeAll(leaf.headHash), EscapeAll(leaf.tenantId);
    LeafTextIs(leaf);
    FiveParts("{\"domain\":\"" + "ghost-ark.receipt-chain-head.leaf.v1" + "\",\"headHash\":\"", head,
        "\",\"tenantId\":\"", tenant, "\"}");
    UnescapeEscaped(leaf.headHash);
    UnescapeEscaped(leaf.tenantId);
  }

  function HexValue(c: char): Option<nat> {
    if '0' <= c <= '9' then Some(c as int - 48) else if 'a' <= c <= 'f' then Some(c as int - 87) else None
  }

  /** What section 7 of RFC 8259 reads out of the text between the quotes of a string; None if it is none. */
  function Unescape(text: string): Option<string> {
    if |text| == 0 then Some("")
    else if text[0] == '"' || text[0] as int < 32 then None
    else if text[0] != '\\' then Read(text[0], Unescape(text[1..]))
    else if |text| == 1 then None
    else if text[1] in {'"', '\\', '/'} then Read(text[1], Unescape(text[2..]))
    else if text[1] == 'b' then Read(8 as char, Unescape(text[2..]))
    else if text[1] == 'f' then Read(12 as char, Unescape(text[2..]))
    else if text[1] == 'n' then Read(10 as char, Unescape(text[2..]))
    else if text[1] == 'r' then Read(13 as char, Unescape(text[2..]))
    else if text[1] == 't' then Read(9 as char, Unescape(text[2..]))
    else if text[1] == 'u' && |text| >= 6 && text[2..4] == "00" && HexValue(text[4]).Some?
        && HexValue(text[5]).Some? then
      Read((16 * HexValue(text[4]).value + HexValue(text[5]).value) as char, Unescape(text[6..]))
    else None
  }

  function Read(c: char, rest: Option<string>): Option<string> {
    if rest.Some? then Some([c] + rest.value) else None
  }

  lemma HexDigitReads(n: nat)
    requires n < 16
    ensures HexValue(HexDigit(n)) == Some(n)
  {
  }

  /** The characters that are written as a backslash and a letter or mark of their own. */
  lemma UnescapeShort(c: char, rest: string)
    requires c in {'"', '\\'} || c as int in {8, 9, 10, 12, 13}
    ensures Unescape(Escape(c) + rest) == Read(c, Unescape(rest))
  {
    hide HexDigit, HexValue, Read;
    assert (Escape(c) + rest)[2..] == rest;
  }

  lemma UnescapeControl(c: char, rest: string)
    requires c as int < 32 && c as int !in {8, 9, 10, 12, 13}
    ensures Unescape(Escape(c) + rest) == Read(c, Unescape(rest))
  {
    hide HexDigit, HexValue, Read;
    var n, text := c as int, Escape(c) + rest;
    HexDigitReads(n / 16);
    HexDigitReads(n % 16);
    assert text[6..] == rest && text[2..4] == "00";
  }

  lemma UnescapePlain(c: char, rest: string)
    requires c as int >= 32 && c !in {'"', '\\'}
    ensures Unescape(Escape(c) + rest) == Read(c, Unescape(rest))
  {
    hide HexDigit, HexValue, Read;
    assert (Escape(c) + rest)[1..] == rest;
  }

  lemma UnescapeOne(c: char, rest: string)
    ensures Unescape(Escape(c) + rest) == Read(c, Unescape(rest))
  {
    hide *;
    if c in {'"', '\\'} || c as int in {8, 9, 10, 12, 13} {
      UnescapeShort(c, rest);
    } else if c as int < 32 {
      UnescapeControl(c, rest);
    } else {
      UnescapePlain(c, rest);
    }
  }

  /** What is written for a string reads back as the string. */
  lemma {:induction false} UnescapeEscaped(s: string)
    ensures Unescape(EscapeAll(s)) == Some(s)
  {
    hide Escape;
    if |s| > 0 {
      UnescapeEscaped(s[1..]);
      UnescapeOne(s[0], EscapeAll(s[1..]));
      assert s == [s[0]] + s[1..];
    }
  }
}
