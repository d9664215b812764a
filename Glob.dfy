/**
 * The part of `fnmatch.fnmatch` that the exclusion test relies on: a glob
 * pattern is matched against the WHOLE path string, `*` matches any run of
 * characters (including `/`), `?` matches exactly one character and every
 * other character matches itself.
 */
module Glob {

  predicate IsWildcard(c: char) {
    c == '*' || c == '?'
  }

  /** A pattern with no wildcard in it. */
  predicate IsLiteral(p: string) {
    forall i :: 0 <= i < |p| ==> !IsWildcard(p[i])
  }

  /** A pattern made of `*` only. */
  predicate AllStars(p: string) {
    forall i :: 0 <= i < |p| ==> p[i] == '*'
  }

  /** Whole-string glob match of path `s` against pattern `p`. */
  function Match(p: string, s: string): bool
    decreases |p| + |s|
  {
    if p == [] then s == []
    else if p[0] == '*' then Match(p[1..], s) || (s != [] && Match(p, s[1..]))
    else s != [] && (p[0] == '?' || p[0] == s[0]) && Match(p[1..], s[1..])
  }

  /** A pattern without wildcards matches exactly the string it spells. */
  lemma {:induction false} LiteralMatchesItself(p: string, s: string)
    requires IsLiteral(p)
    ensures Match(p, s) <==> s == p
  {
    if p != [] && s != [] {
      assert IsLiteral(p[1..]) by {
        forall i | 0 <= i < |p[1..]| ensures !IsWildcard(p[1..][i]) {
          assert p[1..][i] == p[i + 1];
        }
      }
      LiteralMatchesItself(p[1..], s[1..]);
      if s[1..] == p[1..] && s[0] == p[0] {
        assert s == [s[0]] + s[1..];
        assert p == [p[0]] + p[1..];
      }
    }
  }

  /** A leading `*` matches some prefix of `s`, possibly empty, and the rest of the pattern matches what follows. */
  lemma {:induction false} StarMatchesSomeSplit(q: string, s: string)
    ensures Match(['*'] + q, s) <==> exists k :: 0 <= k <= |s| && Match(q, s[k..])
  {
    var p := ['*'] + q;
    assert p[1..] == q;
    if Match(p, s) {
      if !Match(q, s) {
        StarMatchesSomeSplit(q, s[1..]);
        var k :| 0 <= k <= |s[1..]| && Match(q, s[1..][k..]);
        assert s[1..][k..] == s[k + 1..];
      } else {
        assert s[0..] == s;
      }
    }
    if exists k :: 0 <= k <= |s| && Match(q, s[k..]) {
      var k :| 0 <= k <= |s| && Match(q, s[k..]);
      if k == 0 {
        assert s[0..] == s;
      } else {
        assert s[1..][k - 1..] == s[k..];
        StarMatchesSomeSplit(q, s[1..]);
      }
    }
  }

  /** A non-empty pattern of stars alone matches every string. */
  lemma {:induction false} StarsMatchEverything(p: string, s: string)
    requires p != [] && AllStars(p)
    ensures Match(p, s)
    decreases |p| + |s|
  {
    if s != [] {
      StarsMatchEverything(p, s[1..]);
    } else if |p| > 1 {
      assert AllStars(p[1..]) by {
        forall i | 0 <= i < |p[1..]| ensures p[1..][i] == '*' {
          assert p[1..][i] == p[i + 1];
        }
      }
      StarsMatchEverything(p[1..], s);
    }
  }

  /**
   * A literal head anchors the match at the start of the path: `lit + q`
   * matches `s` exactly when `s` begins with `lit` and `q` matches the rest.
   */
  lemma {:induction false} LiteralHeadAnchors(lit: string, q: string, s: string)
    requires IsLiteral(lit)
    ensures Match(lit + q, s) <==> |lit| <= |s| && s[..|lit|] == lit && Match(q, s[|lit|..])
  {
    if lit == [] {
      assert lit + q == q;
      assert s[0..] == s;
    } else {
      var p := lit + q;
      assert p[0] == lit[0] && p[1..] == lit[1..] + q;
      assert IsLiteral(lit[1..]) by {
        forall i | 0 <= i < |lit[1..]| ensures !IsWildcard(lit[1..][i]) {
          assert lit[1..][i] == lit[i + 1];
        }
      }
      assert !IsWildcard(lit[0]);
      if s != [] {
        LiteralHeadAnchors(lit[1..], q, s[1..]);
        if |lit| <= |s| {
          assert s[1..][|lit| - 1..] == s[|lit|..];
          assert s[..|lit|] == [s[0]] + s[1..][..|lit| - 1];
          assert lit == [lit[0]] + lit[1..];
        }
      }
    }
  }

  /** A match ending in a literal character forces the path to end in that character. */
  lemma {:induction false} LastLiteralMatched(p: string, s: string)
    requires p != [] && !IsWildcard(p[|p| - 1])
    requires Match(p, s)
    ensures s != [] && s[|s| - 1] == p[|p| - 1]
    decreases |p| + |s|
  {
    if p[0] == '*' {
      assert |p| > 1;
      if Match(p[1..], s) {
        LastLiteralMatched(p[1..], s);
      } else {
        LastLiteralMatched(p, s[1..]);
      }
    } else if |p| > 1 {
      LastLiteralMatched(p[1..], s[1..]);
    } else {
      assert s[1..] == [];
    }
  }

  /** A match starting with a literal character forces the path to start with that character. */
  lemma FirstLiteralMatched(p: string, s: string)
    requires p != [] && !IsWildcard(p[0])
    requires Match(p, s)
    ensures s != [] && s[0] == p[0]
  {
  }

  /** No wildcard matches `/` other than by spanning it, so a literal `/` in the pattern needs one in the path. */
  lemma {:induction false} LiteralSlashNeedsSlash(p: string, s: string)
    requires '/' in p && Match(p, s)
    ensures '/' in s
    decreases |p| + |s|
  {
    if p[0] == '*' {
      assert '/' in p[1..] by {
        var k :| 0 <= k < |p| && p[k] == '/';
        assert p[1..][k - 1] == '/';
      }
      if Match(p[1..], s) {
        LiteralSlashNeedsSlash(p[1..], s);
      } else {
        LiteralSlashNeedsSlash(p, s[1..]);
        var k :| 0 <= k < |s[1..]| && s[1..][k] == '/';
        assert s[k + 1] == '/';
      }
    } else if p[0] != '/' {
      assert '/' in p[1..] by {
        var k :| 0 <= k < |p| && p[k] == '/';
        assert p[1..][k - 1] == '/';
      }
      LiteralSlashNeedsSlash(p[1..], s[1..]);
      var k :| 0 <= k < |s[1..]| && s[1..][k] == '/';
      assert s[k + 1] == '/';
    }
  }

  // A pattern made of two stars, a slash and `q` matches `s` exactly when `q`
  // matches what follows some `/` of `s`: the doubled star is no different
  // from a single one, and the `/` is mandatory.
  lemma RecursivePrefixNeedsSlash(q: string, s: string)
    ensures Match("**/" + q, s) <==> exists k :: 0 <= k < |s| && s[k] == '/' && Match(q, s[k + 1..])
  {
    var tail := ['*'] + ("/" + q);
    assert "**/" + q == ['*'] + tail;
    StarMatchesSomeSplit(tail, s);
    SlashAfterStar(q, s);
  }

  /** Helper for RecursivePrefixNeedsSlash: the single-star case. */
  lemma {:induction false} SlashAfterStar(q: string, s: string)
    ensures (exists k :: 0 <= k <= |s| && Match(['*'] + ("/" + q), s[k..]))
        <==> exists k :: 0 <= k < |s| && s[k] == '/' && Match(q, s[k + 1..])
  {
    StarMatchesSomeSplit("/" + q, s);
    if exists k :: 0 <= k <= |s| && Match(['*'] + ("/" + q), s[k..]) {
      var k :| 0 <= k <= |s| && Match(['*'] + ("/" + q), s[k..]);
      StarMatchesSomeSplit("/" + q, s[k..]);
      var j :| 0 <= j <= |s[k..]| && Match("/" + q, s[k..][j..]);
      assert s[k..][j..] == s[k + j..];
      SlashStep(q, s[k + j..]);
      assert s[k + j..][1..] == s[k + j + 1..];
    }
    if exists k :: 0 <= k < |s| && s[k] == '/' && Match(q, s[k + 1..]) {
      var k :| 0 <= k < |s| && s[k] == '/' && Match(q, s[k + 1..]);
      assert s[0..] == s;
      SlashStep(q, s[k..]);
      assert s[k..][1..] == s[k + 1..];
      assert Match("/" + q, s[k..]);
    }
  }

  lemma SlashStep(q: string, t: string)
    ensures Match("/" + q, t) <==> t != [] && t[0] == '/' && Match(q, t[1..])
  {
    assert ("/" + q)[0] == '/' && ("/" + q)[1..] == q;
  }
}
