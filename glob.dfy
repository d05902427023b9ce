/** The patterns that `expectMessage` accepts.
    `createRegex` escapes every regular-expression metacharacter except `*`,
    turns each `*` into `[\s\S]*` and anchors the result with `^` and `$`.
    The matcher it builds is therefore a whole-string glob: `*` matches any
    run of characters (line breaks included, possibly empty) and every other
    character matches only itself, case-sensitively. */
module Glob {

  /** True when `p` contains no `*`, i.e. is a purely literal pattern. */
  predicate NoStar(p: string) {
    forall i :: 0 <= i < |p| ==> p[i] != '*'
  }

  /** `pre` is an initial segment of `s` (JavaScript's `s.startsWith(pre)`). */
  predicate StartsWith(s: string, pre: string) {
    |pre| <= |s| && s[..|pre|] == pre
  }

  /** The anchored match of `createRegex(p)` against `s`. */
  predicate GlobMatch(p: string, s: string)
    decreases |p| + |s|
  {
    if p == [] then s == []
    else if p[0] == '*' then GlobMatch(p[1..], s) || (s != [] && GlobMatch(p, s[1..]))
    else s != [] && s[0] == p[0] && GlobMatch(p[1..], s[1..])
  }

  /** A `*` followed by `p` matches `s` exactly when `p` matches some suffix
      of `s`: the star consumes the prefix `s[..k]`, whatever it holds. */
  lemma {:induction false} StarPrefix(p: string, s: string)
    ensures GlobMatch(['*'] + p, s) <==> exists k :: 0 <= k <= |s| && GlobMatch(p, s[k..])
    decreases |s|
  {
    var q := ['*'] + p;
    assert q[0] == '*' && q[1..] == p;
    if s == [] {
      assert s[0..] == s;
    } else {
      StarPrefix(p, s[1..]);
      if GlobMatch(q, s) {
        if !GlobMatch(p, s) {
          assert GlobMatch(q, s[1..]);
          var k :| 0 <= k <= |s[1..]| && GlobMatch(p, s[1..][k..]);
          assert s[1..][k..] == s[k + 1..];
        } else {
          assert s[0..] == s;
        }
      } else {
        forall k | 0 <= k <= |s| ensures !GlobMatch(p, s[k..]) {
          if k == 0 {
            assert s[0..] == s;
          } else {
            assert s[1..][k - 1..] == s[k..];
          }
        }
      }
    }
  }

  /** `*` on its own matches every string. */
  lemma {:induction false} StarMatchesAll(s: string)
    ensures GlobMatch("*", s)
  {
    assert GlobMatch([], s[|s|..]);
    StarPrefix([], s);
    assert ['*'] + [] == "*";
  }

  /** Every string matches itself used as a pattern: a `*` in it can match
      the literal `*` it faces. */
  lemma {:induction false} MatchesItself(s: string)
    ensures GlobMatch(s, s)
    decreases |s|
  {
    if s != [] {
      MatchesItself(s[1..]);
      if s[0] == '*' {
        // the star first consumes the literal `*`, then steps aside
        assert GlobMatch(s[1..], s[1..]);
        assert GlobMatch(s, s[1..]);
      }
    }
  }

  /** A pattern without `*` matches one string only: itself. */
  lemma {:induction false} LiteralMatchesOnlyItself(p: string, s: string)
    requires NoStar(p)
    ensures GlobMatch(p, s) <==> s == p
    decreases |p|
  {
    if p != [] {
      assert p[0] != '*';
      assert NoStar(p[1..]) by {
        forall i | 0 <= i < |p[1..]| ensures p[1..][i] != '*' {
          assert p[1..][i] == p[i + 1];
        }
      }
      if s != [] {
        LiteralMatchesOnlyItself(p[1..], s[1..]);
        if s[0] == p[0] && s[1..] == p[1..] {
          assert s == [s[0]] + s[1..] && p == [p[0]] + p[1..];
        }
      }
    }
  }

  /** Matching is compositional: a match of `p1` against `s1` followed by a
      match of `p2` against `s2` is a match of `p1 + p2` against `s1 + s2`. */
  lemma {:induction false} MatchConcat(p1: string, s1: string, p2: string, s2: string)
    requires GlobMatch(p1, s1) && GlobMatch(p2, s2)
    ensures GlobMatch(p1 + p2, s1 + s2)
    decreases |p1| + |s1|
  {
    if p1 == [] {
      assert p1 + p2 == p2 && s1 + s2 == s2;
    } else {
      var p, s := p1 + p2, s1 + s2;
      assert p[0] == p1[0] && p[1..] == p1[1..] + p2;
      if p1[0] == '*' {
        if GlobMatch(p1[1..], s1) {
          MatchConcat(p1[1..], s1, p2, s2);
        } else {
          MatchConcat(p1, s1[1..], p2, s2);
          assert s[1..] == s1[1..] + s2;
        }
      } else {
        MatchConcat(p1[1..], s1[1..], p2, s2);
        assert s[0] == s1[0] && s[1..] == s1[1..] + s2;
      }
    }
  }

  /** Each `*` stands for any run of characters: wherever `p1` matches `s1`
      and `p2` matches `s2`, `p1 + "*" + p2` matches `s1 + t + s2` for every
      `t`, the empty one and one with line breaks included. */
  lemma StarMatchesAnyRun(p1: string, s1: string, t: string, p2: string, s2: string)
    requires GlobMatch(p1, s1) && GlobMatch(p2, s2)
    ensures GlobMatch(p1 + "*" + p2, s1 + t + s2)
  {
    StarMatchesAll(t);
    MatchConcat(p1, s1, "*", t);
    MatchConcat(p1 + "*", s1 + t, p2, s2);
  }

  /** A literal followed by `*` (such as `"foo*"`) matches exactly the
      strings that start with that literal. */
  lemma LiteralThenStar(lit: string, s: string)
    requires NoStar(lit)
    ensures GlobMatch(lit + "*", s) <==> StartsWith(s, lit)
  {
    LiteralMatchesOnlyItself(lit, lit);
    if StartsWith(s, lit) {
      StarMatchesAll(s[|lit|..]);
      MatchConcat(lit, lit, "*", s[|lit|..]);
      assert lit + s[|lit|..] == s;
    } else if GlobMatch(lit + "*", s) {
      LiteralPrefixOfMatch(lit, "*", s);
    }
  }

  /** Whatever follows it, a literal head of a pattern must literally open
      every string the pattern matches. */
  lemma {:induction false} LiteralPrefixOfMatch(lit: string, rest: string, s: string)
    requires NoStar(lit) && GlobMatch(lit + rest, s)
    ensures StartsWith(s, lit)
    decreases |lit|
  {
    if lit != [] {
      var p := lit + rest;
      assert p[0] == lit[0] && lit[0] != '*' && p[1..] == lit[1..] + rest;
      assert NoStar(lit[1..]) by {
        forall i | 0 <= i < |lit[1..]| ensures lit[1..][i] != '*' {
          assert lit[1..][i] == lit[i + 1];
        }
      }
      LiteralPrefixOfMatch(lit[1..], rest, s[1..]);
      assert s[..|lit|] == [s[0]] + s[1..][..|lit| - 1];
      assert lit == [lit[0]] + lit[1..];
    }
  }

  /** The pattern `"foo*"` matches exactly the strings starting with `"foo"`. */
  lemma FooStar(s: string)
    ensures GlobMatch("foo*", s) <==> StartsWith(s, "foo")
  {
    assert "foo" + "*" == "foo*";
    LiteralThenStar("foo", s);
  }
}
