/**
  * String semantics the article filters rely on: a fixed ASCII lower-casing,
  * SQL LIKE with the `%` and `_` wildcards, substring containment and the
  * lexicographic order on strings used for the publish range.
  */
module Text {

  /** ASCII lower-casing of one character; every other character is kept. */
  function LowerChar(ch: char): (r: char)
    ensures 'A' <= ch <= 'Z' ==> 'a' <= r <= 'z' && r as int - ch as int == 32
    ensures !('A' <= ch <= 'Z') ==> r == ch
  {
    if 'A' <= ch <= 'Z' then (ch as int + 32) as char else ch
  }

  /** Lower-casing of a whole string, character by character. */
  function Lower(s: string): (r: string)
    ensures |r| == |s|
    ensures forall i :: 0 <= i < |s| ==> r[i] == LowerChar(s[i])
  {
    seq(|s|, i requires 0 <= i < |s| => LowerChar(s[i]))
  }

  /** No upper-case ASCII letter is left after lower-casing. */
  lemma LowerHasNoUpperCase(s: string)
    ensures forall i :: 0 <= i < |Lower(s)| ==> !('A' <= Lower(s)[i] <= 'Z')
  {
  }

  /** Lower-casing twice is lower-casing once. */
  lemma LowerIdempotent(s: string)
    ensures Lower(Lower(s)) == Lower(s)
  {
    LowerHasNoUpperCase(s);
  }

  /** Lower-casing distributes over concatenation. */
  lemma LowerAppend(s: string, t: string)
    ensures Lower(s + t) == Lower(s) + Lower(t)
  {
  }

  predicate IsWildcard(ch: char) {
    ch == '%' || ch == '_'
  }

  /** A string in which LIKE sees no wildcard: every character stands for itself. */
  predicate NoWildcards(s: string) {
    forall i :: 0 <= i < |s| ==> !IsWildcard(s[i])
  }

  /** Lower-casing neither creates nor removes wildcard characters. */
  lemma LowerKeepsWildcards(s: string)
    ensures NoWildcards(Lower(s)) <==> NoWildcards(s)
  {
    assert forall i :: 0 <= i < |s| ==> (IsWildcard(Lower(s)[i]) <==> IsWildcard(s[i]));
  }

  /**
    * `s LIKE p` without an escape character: `%` matches any run of characters
    * (also the empty one), `_` matches exactly one character, and every other
    * character of `p` matches itself.
    */
  predicate Like(s: string, p: string)
    decreases |s| + |p|
  {
    if p == [] then s == []
    else if p[0] == '%' then Like(s, p[1..]) || (s != [] && Like(s[1..], p))
    else s != [] && (p[0] == '_' || p[0] == s[0]) && Like(s[1..], p[1..])
  }

  /** `v` occurs in `s` as a contiguous block: a prefix of `s` or of one of its suffixes. */
  predicate Contains(s: string, v: string)
    decreases |s|
  {
    v <= s || (s != [] && Contains(s[1..], v))
  }

  /** A string contains each of its suffixes. */
  lemma {:induction false} ContainsSuffix(p: string, v: string)
    ensures Contains(p + v, v)
  {
    if p == [] {
      assert p + v == v;
    } else {
      assert p + v != [] && (p + v)[1..] == p[1..] + v;
      ContainsSuffix(p[1..], v);
      assert Contains((p + v)[1..], v);
    }
  }

  /** `v` occurs in `s` starting at position `k`. */
  predicate OccursAt(s: string, v: string, k: nat) {
    k + |v| <= |s| && s[k..k + |v|] == v
  }

  /** Contains is substring containment: some block of `s` equals `v`. */
  lemma {:induction false} ContainsIsSubstring(s: string, v: string)
    ensures Contains(s, v) <==> exists k: nat :: OccursAt(s, v, k)
  {
    if v <= s {
      assert s[0..|v|] == v;
      assert OccursAt(s, v, 0);
    } else if s == [] {
    } else {
      ContainsIsSubstring(s[1..], v);
      if exists k: nat :: OccursAt(s, v, k) {
        var k: nat :| OccursAt(s, v, k);
        assert k != 0;
        assert s[1..][k - 1..k - 1 + |v|] == v;
        assert OccursAt(s[1..], v, k - 1);
      }
      if Contains(s[1..], v) {
        var k: nat :| OccursAt(s[1..], v, k);
        assert s[k + 1..k + 1 + |v|] == v;
        assert OccursAt(s, v, k + 1);
      }
    }
  }

  /** A string that lacks the last character of `v` cannot contain `v`. */
  lemma {:induction false} ContainsNeedsLastChar(s: string, v: string)
    requires v != []
    requires forall i :: 0 <= i < |s| ==> s[i] != v[|v| - 1]
    ensures !Contains(s, v)
  {
    if |v| <= |s| {
      assert s[..|v|][|v| - 1] == s[|v| - 1];
    }
    if s != [] {
      assert forall i :: 0 <= i < |s[1..]| ==> s[1..][i] == s[i + 1];
      ContainsNeedsLastChar(s[1..], v);
    }
  }

  /** A trailing `%` matches every string. */
  lemma {:induction false} LikePercent(s: string)
    ensures Like(s, "%")
  {
    assert "%"[1..] == [];
    if s != [] {
      LikePercent(s[1..]);
    }
  }

  /** A wildcard-free pattern prefix must match the same prefix of the string literally. */
  lemma {:induction false} LikeLiteralPrefix(s: string, v: string, q: string)
    requires NoWildcards(v)
    ensures Like(s, v + q) <==> v <= s && Like(s[|v|..], q)
  {
    if v == [] {
      assert v + q == q;
      assert s[0..] == s;
    } else {
      assert (v + q)[0] == v[0] && !IsWildcard(v[0]);
      assert (v + q)[1..] == v[1..] + q;
      if s != [] && |v| <= |s| {
        assert NoWildcards(v[1..]) by {
          assert forall i :: 0 <= i < |v[1..]| ==> v[1..][i] == v[i + 1];
        }
        LikeLiteralPrefix(s[1..], v[1..], q);
        assert s[1..][|v| - 1..] == s[|v|..];
        assert v <= s <==> v[0] == s[0] && v[1..] <= s[1..];
      } else if s != [] {
        assert NoWildcards(v[1..]) by {
          assert forall i :: 0 <= i < |v[1..]| ==> v[1..][i] == v[i + 1];
        }
        LikeLiteralPrefix(s[1..], v[1..], q);
      }
    }
  }

  /**
    * The pattern `"%" + v + "%"` is substring containment exactly when `v`
    * holds no wildcard character.
    */
  lemma {:induction false} LikeIsContains(s: string, v: string)
    requires NoWildcards(v)
    ensures Like(s, "%" + v + "%") <==> Contains(s, v)
  {
    var p := "%" + v + "%";
    assert p[0] == '%' && p[1..] == v + "%";
    LikeLiteralPrefix(s, v, "%");
    if v <= s {
      LikePercent(s[|v|..]);
    }
    if s != [] {
      LikeIsContains(s[1..], v);
    }
  }

  /** A pattern prefix that literally equals a prefix of the string matches it, wildcards or not. */
  lemma {:induction false} LikeAcceptsLiteralPrefix(s: string, v: string, q: string)
    requires v <= s && Like(s[|v|..], q)
    ensures Like(s, v + q)
  {
    if v == [] {
      assert v + q == q && s[0..] == s;
    } else {
      assert (v + q)[0] == v[0] == s[0] && (v + q)[1..] == v[1..] + q;
      assert s[1..][|v| - 1..] == s[|v|..];
      LikeAcceptsLiteralPrefix(s[1..], v[1..], q);
      if v[0] == '%' {
        assert Like(s[1..], (v + q)[1..]);
        assert Like(s[1..], v + q);
      }
    }
  }

  /** Containment always satisfies the LIKE pattern; wildcards in `v` can only widen the match. */
  lemma {:induction false} ContainsSatisfiesLike(s: string, v: string)
    requires Contains(s, v)
    ensures Like(s, "%" + v + "%")
  {
    var p := "%" + v + "%";
    assert p[0] == '%' && p[1..] == v + "%";
    if v <= s {
      LikePercent(s[|v|..]);
      LikeAcceptsLiteralPrefix(s, v, "%");
    } else {
      ContainsSatisfiesLike(s[1..], v);
    }
  }

  /** Without escaping, `%` in a filter value matches every string. */
  lemma PercentMatchesEverything(s: string)
    ensures Like(s, "%" + "%" + "%")
  {
    assert ("%" + "%" + "%")[1..] == "%%" && "%%"[1..] == "%";
    LikePercent(s);
    assert Like(s, "%%");
  }

  /** Without escaping, `_` in a filter value matches any character: LIKE is then wider than containment. */
  lemma UnderscoreIsAWildcard()
    ensures Like("ab", "%" + "_" + "%")
    ensures !Contains("ab", "_")
  {
    assert "%_%"[1..] == "_%";
    assert "_%"[1..] == "%";
    assert "%"[1..] == "";
    assert Like("", "%");
    assert Like("b", "%");
    assert Like("ab", "_%");
    assert !("_" <= "ab") && !("_" <= "b") && !("_" <= "");
    assert !Contains("", "_");
    assert !Contains("b", "_");
  }

  /** Lexicographic order on character codes: `a` sorts before or equals `b`. */
  predicate LexLe(a: string, b: string)
    decreases |a|
  {
    if a == [] then true
    else if b == [] then false
    else if a[0] != b[0] then a[0] < b[0]
    else LexLe(a[1..], b[1..])
  }

  lemma {:induction false} LexLeReflexive(a: string)
    ensures LexLe(a, a)
  {
    if a != [] {
      LexLeReflexive(a[1..]);
    }
  }

  lemma {:induction false} LexLeTotal(a: string, b: string)
    ensures LexLe(a, b) || LexLe(b, a)
  {
    if a != [] && b != [] && a[0] == b[0] {
      LexLeTotal(a[1..], b[1..]);
    }
  }

  lemma {:induction false} LexLeAntisymmetric(a: string, b: string)
    requires LexLe(a, b) && LexLe(b, a)
    ensures a == b
  {
    if a != [] && b != [] {
      LexLeAntisymmetric(a[1..], b[1..]);
      assert a == [a[0]] + a[1..] && b == [b[0]] + b[1..];
    }
  }

  lemma {:induction false} LexLeTransitive(a: string, b: string, c: string)
    requires LexLe(a, b) && LexLe(b, c)
    ensures LexLe(a, c)
  {
    if a != [] && b != [] && c != [] && a[0] == b[0] && b[0] == c[0] {
      LexLeTransitive(a[1..], b[1..], c[1..]);
    }
  }

  /** After a common prefix of length `k`, the first differing characters decide the order. */
  lemma {:induction false} LexLeCommonPrefix(a: string, b: string, k: nat)
    requires k < |a| && k < |b| && a[..k] == b[..k] && a[k] < b[k]
    ensures LexLe(a, b)
  {
    if k > 0 {
      assert a[0] == a[..k][0] == b[..k][0] == b[0];
      assert a[1..][..k - 1] == a[..k][1..] == b[..k][1..] == b[1..][..k - 1];
      LexLeCommonPrefix(a[1..], b[1..], k - 1);
    }
  }

  /** Decimal digits of a natural number, as Java prints an int. */
  function NatToString(n: nat): (r: string)
    ensures 1 <= |r|
    ensures n < 10 ==> |r| == 1
    ensures n < 100 ==> |r| <= 2
    ensures forall i :: 0 <= i < |r| ==> '0' <= r[i] <= '9'
  {
    if n < 10 then [Digit(n)] else NatToString(n / 10) + [Digit(n % 10)]
  }

  function Digit(d: nat): (ch: char)
    requires d < 10
    ensures '0' <= ch <= '9'
  {
    ('0' as int + d) as char
  }
}
