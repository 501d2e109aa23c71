/** The SQL `LIKE` operator as the store evaluates it on a text column. */
module SqlLike {

  /** Whether `s` matches the LIKE pattern `p`: `%` matches any run of
      characters (possibly empty), `_` matches exactly one character, and
      every other character matches itself, case-sensitively. No character
      escapes another: the query has no `ESCAPE` clause, and a default escape
      character of the database is not modelled. */
  predicate Like(p: string, s: string)
    decreases |p| + |s|
  {
    if p == [] then s == []
    else if p[0] == '%' then Like(p[1..], s) || (s != [] && Like(p, s[1..]))
    else s != [] && (p[0] == '_' || p[0] == s[0]) && Like(p[1..], s[1..])
  }

  predicate IsWildcard(ch: char) {
    ch == '%' || ch == '_'
  }

  /** A pattern none of whose characters is a wildcard. */
  predicate Literal(p: string) {
    forall i :: 0 <= i < |p| ==> !IsWildcard(p[i])
  }

  /** A pattern without `%`; `_` may still occur. */
  predicate NoPercent(p: string) {
    forall i :: 0 <= i < |p| ==> p[i] != '%'
  }

  /** Whether `s` starts with `p` up to the single-character wildcard `_`. */
  predicate MatchesAt(p: string, s: string) {
    |p| <= |s| && forall i :: 0 <= i < |p| ==> p[i] == '_' || p[i] == s[i]
  }

  /** A lone `%` matches every string. */
  lemma {:induction false} PercentMatchesAll(s: string)
    ensures Like("%", s)
  {
    if s != [] {
      PercentMatchesAll(s[1..]);
    }
  }

  /** A pattern built as `p + "%"`, with no `%` in `p`, accepts exactly the
      strings that start with `p`, where each `_` of `p` stands for any one
      character. */
  lemma {:induction false} TrailingPercentPattern(p: string, s: string)
    requires NoPercent(p)
    ensures Like(p + "%", s) <==> MatchesAt(p, s)
  {
    if p == [] {
      assert p + "%" == "%";
      PercentMatchesAll(s);
    } else {
      assert (p + "%")[0] == p[0];
      assert (p + "%")[1..] == p[1..] + "%";
      if s != [] {
        TrailingPercentPattern(p[1..], s[1..]);
        if MatchesAt(p, s) {
          assert MatchesAt(p[1..], s[1..]) by {
            forall i | 0 <= i < |p| - 1 ensures p[1..][i] == '_' || p[1..][i] == s[1..][i] {
              assert p[1..][i] == p[i + 1];
            }
          }
        }
        if MatchesAt(p[1..], s[1..]) && (p[0] == '_' || p[0] == s[0]) {
          forall i | 0 <= i < |p| ensures p[i] == '_' || p[i] == s[i] {
            if i > 0 {
              assert p[i] == p[1..][i - 1];
            }
          }
        }
      }
    }
  }

  /** For a pattern without wildcards, `p + "%"` is exactly a prefix test. */
  lemma LiteralPrefixPattern(p: string, s: string)
    requires Literal(p)
    ensures Like(p + "%", s) <==> p <= s
  {
    TrailingPercentPattern(p, s);
  }

  /** An unescaped `_` in the prefix acts as a wildcard: the prefix "J_"
      lets "Jo" through although "Jo" does not start with "J_". */
  lemma UnescapedUnderscoreMatches()
    ensures Like("J_" + "%", "Jo") && !("J_" <= "Jo")
  {
    TrailingPercentPattern("J_", "Jo");
  }

  /** An unescaped `%` as the prefix lets every name through. */
  lemma UnescapedPercentMatchesAll(s: string)
    ensures Like("%" + "%", s)
  {
    assert ("%" + "%")[1..] == "%";
    PercentMatchesAll(s);
  }

  /** The match is case-sensitive: the prefix "joh" does not match "John". */
  lemma CaseSensitive()
    ensures !Like("joh" + "%", "John")
  {
    LiteralPrefixPattern("joh", "John");
  }
}
