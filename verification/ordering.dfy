/** Lexicographic order on strings by character code: PHP's `<` on two
    non-numeric strings and JavaScript's `<` on strings. */
module Ordering {

  predicate LexLe(a: string, b: string)
    decreases |a|
  {
    |a| == 0 || (|b| > 0 && (a[0] < b[0] || (a[0] == b[0] && LexLe(a[1..], b[1..]))))
  }

  predicate LexLt(a: string, b: string) {
    LexLe(a, b) && a != b
  }

  lemma LexLeReflexive(a: string)
    ensures LexLe(a, a)
  {
  }

  lemma {:induction false} LexLeTotal(a: string, b: string)
    ensures LexLe(a, b) || LexLe(b, a)
    decreases |a|
  {
    if |a| > 0 && |b| > 0 && a[0] == b[0] {
      LexLeTotal(a[1..], b[1..]);
    }
  }

  lemma {:induction false} LexLeTransitive(a: string, b: string, c: string)
    requires LexLe(a, b) && LexLe(b, c)
    ensures LexLe(a, c)
    decreases |a|
  {
    if |a| > 0 && a[0] == b[0] && b[0] == c[0] {
      LexLeTransitive(a[1..], b[1..], c[1..]);
    }
  }

  lemma {:induction false} LexLeAntisymmetric(a: string, b: string)
    requires LexLe(a, b) && LexLe(b, a)
    ensures a == b
    decreases |a|
  {
    if |a| > 0 {
      LexLeAntisymmetric(a[1..], b[1..]);
      assert a == [a[0]] + a[1..];
      assert b == [b[0]] + b[1..];
    }
  }

  /** A string lying between `s` and a string that starts with `s` starts
      with `s` itself. */
  lemma {:induction false} BetweenKeepsPrefix(s: string, v: string, p: string)
    requires LexLe(s, v) && LexLe(v, p)
    requires |s| <= |p| && p[..|s|] == s
    ensures |s| <= |v| && v[..|s|] == s
    decreases |s|
  {
    if |s| > 0 {
      assert p[0] == s[0];
      assert p[1..][..|s| - 1] == s[1..];
      BetweenKeepsPrefix(s[1..], v[1..], p[1..]);
      assert v[..|s|] == [v[0]] + v[1..][..|s| - 1];
      assert s == [s[0]] + s[1..];
    }
  }

  /** A string is never strictly below one of its prefixes. */
  lemma {:induction false} PrefixLe(p: string, s: string)
    requires |p| <= |s| && s[..|p|] == p
    ensures LexLe(p, s)
    decreases |p|
  {
    if |p| > 0 {
      assert s[1..][..|p| - 1] == p[1..];
      PrefixLe(p[1..], s[1..]);
    }
  }
}
