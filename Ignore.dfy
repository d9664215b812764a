/**
 * The exclusion engine: the ignore-file lines turned into glob patterns, the
 * built-in patterns appended after them, and the "does any pattern match"
 * test applied to a root-relative path.
 */
module Ignore {

  import opened Wrappers
  import opened Glob

  /** The characters Python's `str.isspace` accepts, which `str.strip()` removes. */
  predicate IsSpace(c: char) {
    || ('\t' <= c <= '\r')
    || ('\U{1c}' <= c <= ' ')
    || c == '\U{85}' || c == '\U{a0}' || c == '\U{1680}'
    || ('\U{2000}' <= c <= '\U{200a}')
    || c == '\U{2028}' || c == '\U{2029}' || c == '\U{202f}' || c == '\U{205f}' || c == '\U{3000}'
  }

  function TrimStart(s: string): (r: string)
    ensures |r| <= |s| && r == s[|s| - |r|..]
    ensures forall k :: 0 <= k < |s| - |r| ==> IsSpace(s[k])
    ensures r == [] || !IsSpace(r[0])
  {
    if s != [] && IsSpace(s[0]) then TrimStart(s[1..]) else s
  }

  function TrimEnd(s: string): (r: string)
    ensures |r| <= |s| && r == s[..|r|]
    ensures forall k :: |r| <= k < |s| ==> IsSpace(s[k])
    ensures r == [] || !IsSpace(r[|r| - 1])
  {
    if s != [] && IsSpace(s[|s| - 1]) then TrimEnd(s[..|s| - 1]) else s
  }

  /** `r` is the slice of `s` that starts at `i`, with only white space around it. */
  ghost predicate StrippedAt(s: string, r: string, i: int) {
    && 0 <= i <= |s| - |r|
    && r == s[i..i + |r|]
    && (forall k :: 0 <= k < i ==> IsSpace(s[k]))
    && (forall k :: i + |r| <= k < |s| ==> IsSpace(s[k]))
  }

  /** Python's `str.strip()` with no argument: white space removed from both ends. */
  function Strip(s: string): (r: string)
    ensures r == [] || (!IsSpace(r[0]) && !IsSpace(r[|r| - 1]))
    ensures exists i :: StrippedAt(s, r, i)
  {
    var t := TrimStart(s);
    var r := TrimEnd(t);
    assert StrippedAt(s, r, |s| - |t|);
    r
  }

  /** The pattern already begins with the recursive-wildcard marker: two stars and a slash. */
  predicate HasRecursivePrefix(t: string) {
    |t| >= 3 && t[..3] == "**/"
  }

  /** What a normalised unanchored line must match below some `/` of the path. */
  function Unanchored(t: string): string {
    if HasRecursivePrefix(t) then t[3..] else t
  }

  /**
   * One ignore-file line turned into a glob pattern, or None when the line
   * yields no pattern.
   */
  function NormalizeLine(line: string): (r: Option<string>)
    ensures r == None <==> Strip(line) == [] || Strip(line)[0] == '#'
    ensures r.Some? && Strip(line)[0] == '/' ==> r.value == Strip(line)[1..]
    ensures r.Some? && Strip(line)[0] != '/' && HasRecursivePrefix(Strip(line)) ==> r.value == Strip(line)
    ensures r.Some? && Strip(line)[0] != '/' && !HasRecursivePrefix(Strip(line)) ==> r.value == "**/" + Strip(line)
  {
    var t := Strip(line);
    if t == [] || t[0] == '#' then None
    else if t[0] == '/' then Some(t[1..])
    else if HasRecursivePrefix(t) then Some(t)
    else Some("**/" + t)
  }

  /** The patterns of all lines, in line order. */
  function NormalizeAll(lines: seq<string>): (r: seq<string>)
    ensures |r| <= |lines|
  {
    if lines == [] then []
    else
      var init := NormalizeAll(lines[..|lines| - 1]);
      match NormalizeLine(lines[|lines| - 1])
      case None => init
      case Some(p) => init + [p]
  }

  /**
   * Reads the ignore file's lines (None when the root has no ignore file)
   * and collects one pattern per line that is neither blank nor a comment.
   */
  method LoadIgnorePatterns(ignoreFile: Option<seq<string>>) returns (patterns: seq<string>)
    ensures ignoreFile.None? ==> patterns == []
    ensures ignoreFile.Some? ==> patterns == NormalizeAll(ignoreFile.value)
  {
    patterns := [];
    if ignoreFile.Some? {
      var lines := ignoreFile.value;
      for i := 0 to |lines|
        invariant patterns == NormalizeAll(lines[..i])
      {
        NormalizeAllSnoc(lines, i);
        var line := Strip(lines[i]);
        if line != [] && line[0] != '#' {
          if line[0] == '/' {
            line := line[1..];
          } else if HasRecursivePrefix(line) {
          } else {
            line := "**/" + line;
          }
          assert NormalizeLine(lines[i]) == Some(line);
          patterns := patterns + [line];
        } else {
          assert NormalizeLine(lines[i]) == None;
        }
      }
      assert lines[..|lines|] == lines;
    }
  }

  /** One more line: its pattern, if any, goes after those of the lines before it. */
  lemma NormalizeAllSnoc(lines: seq<string>, i: nat)
    requires i < |lines|
    ensures NormalizeAll(lines[..i + 1])
         == match NormalizeLine(lines[i])
            case None => NormalizeAll(lines[..i])
            case Some(p) => NormalizeAll(lines[..i]) + [p]
  {
    assert lines[..i + 1][..i] == lines[..i];
  }

  /** Normalising the lines of two consecutive blocks gives the two results one after the other. */
  lemma {:induction false} NormalizeAllAppend(a: seq<string>, b: seq<string>)
    ensures NormalizeAll(a + b) == NormalizeAll(a) + NormalizeAll(b)
    decreases |b|
  {
    if b == [] {
      assert a + b == a;
    } else {
      var b' := b[..|b| - 1];
      assert (a + b)[..|a + b| - 1] == a + b';
      assert (a + b)[|a + b| - 1] == b[|b| - 1];
      NormalizeAllAppend(a, b');
    }
  }

  /** Every produced pattern comes from some line, and every line that yields a pattern contributes it. */
  lemma NormalizeAllMembers(lines: seq<string>, p: string)
    ensures p in NormalizeAll(lines) <==> exists i :: 0 <= i < |lines| && NormalizeLine(lines[i]) == Some(p)
  {
    if p in NormalizeAll(lines) {
      var i := PatternSource(lines, p);
    }
    if exists i :: 0 <= i < |lines| && NormalizeLine(lines[i]) == Some(p) {
      var i :| 0 <= i < |lines| && NormalizeLine(lines[i]) == Some(p);
      PatternKept(lines, i);
    }
  }

  lemma {:induction false} PatternSource(lines: seq<string>, p: string) returns (i: nat)
    requires p in NormalizeAll(lines)
    ensures i < |lines| && NormalizeLine(lines[i]) == Some(p)
  {
    var n := |lines| - 1;
    NormalizeAllLast(lines);
    if NormalizeLine(lines[n]) == Some(p) {
      i := n;
    } else {
      i := PatternSource(lines[..n], p);
      assert lines[..n][i] == lines[i];
    }
  }

  lemma {:induction false} PatternKept(lines: seq<string>, i: nat)
    requires i < |lines| && NormalizeLine(lines[i]).Some?
    ensures NormalizeLine(lines[i]).value in NormalizeAll(lines)
  {
    var n := |lines| - 1;
    var init := NormalizeAll(lines[..n]);
    var q := NormalizeLine(lines[i]).value;
    NormalizeAllLast(lines);
    if i < n {
      assert lines[..n][i] == lines[i];
      PatternKept(lines[..n], i);
      assert q in init;
    } else {
      assert i == n && NormalizeAll(lines) == init + [q];
    }
  }

  /** The patterns of all lines are those of all but the last, then the last line's own, if any. */
  lemma NormalizeAllLast(lines: seq<string>)
    requires lines != []
    ensures var init := NormalizeAll(lines[..|lines| - 1]);
            var last := NormalizeLine(lines[|lines| - 1]);
            NormalizeAll(lines) == if last.Some? then init + [last.value] else init
  {
  }

  /**
   * A line that is not anchored by a leading `/` becomes a pattern that
   * matches a path exactly when the line, without any recursive marker of
   * its own, matches what follows some `/` of the path.
   */
  lemma BareLineMatchesBelowSomeSlash(line: string, s: string)
    requires NormalizeLine(line).Some? && Strip(line)[0] != '/'
    ensures Match(NormalizeLine(line).value, s)
        <==> exists k :: 0 <= k < |s| && s[k] == '/' && Match(Unanchored(Strip(line)), s[k + 1..])
  {
    var t := Strip(line);
    var u := Unanchored(t);
    assert NormalizeLine(line).value == "**/" + u by {
      if HasRecursivePrefix(t) {
        assert t == "**/" + t[3..];
      }
    }
    RecursivePrefixNeedsSlash(u, s);
  }

  /**
   * Consequence of the rewriting: a bare ignore-file line never excludes an
   * entry directly under the root, whose relative path has no `/`.
   */
  lemma RootEntryEscapesBareLine(line: string, name: string)
    requires NormalizeLine(line).Some? && Strip(line)[0] != '/'
    requires forall k :: 0 <= k < |name| ==> name[k] != '/'
    ensures !Match(NormalizeLine(line).value, name)
  {
    BareLineMatchesBelowSomeSlash(line, name);
  }

  /** The built-in exclusions, appended after the ignore-file patterns. */
  const DefaultPatterns: seq<string> := [
    "venv/", "venv/**",
    "__pycache__/", "__pycache__/**",
    ".git/", ".git/**",
    ".idea/", ".idea/**",
    "*.pyc", "*.class", "*.jar", "*.war", "*.ear",
    "node_modules/", "node_modules/**",
    "build/", "build/**",
    "dist/", "dist/**",
    "target/", "target/**",
    "*.log", "*.tmp", "*.temp",
    "config.ini",
    "requirements.txt",
    "pyproject.toml",
    "README.md",
    "tests/", "tests/**"
  ]

  /** The active rule set: the project patterns in file order, then every built-in pattern in order. */
  function RuleSet(project: seq<string>): (r: seq<string>)
    ensures |r| == |project| + |DefaultPatterns|
    ensures r[..|project|] == project && r[|project|..] == DefaultPatterns
  {
    project + DefaultPatterns
  }

  /** The exclusion test on a root-relative path: some pattern matches it. */
  function IsIgnored(rel: string, patterns: seq<string>): (r: bool)
    ensures r <==> exists i :: 0 <= i < |patterns| && Match(patterns[i], rel)
  {
    if patterns == [] then false
    else if Match(patterns[0], rel) then true
    else
      var rest := IsIgnored(rel, patterns[1..]);
      assert forall i :: 1 <= i < |patterns| ==> patterns[i] == patterns[1..][i - 1];
      rest
  }

  /** Adding patterns never turns an exclusion into an inclusion. */
  lemma IgnoredUnderMorePatterns(rel: string, a: seq<string>, b: seq<string>)
    requires forall p :: p in a ==> p in b
    requires IsIgnored(rel, a)
    ensures IsIgnored(rel, b)
  {
    var i :| 0 <= i < |a| && Match(a[i], rel);
    assert a[i] in b;
  }

  /** The order of the patterns does not affect the verdict. */
  lemma IgnoredRegardlessOfOrder(rel: string, a: seq<string>, b: seq<string>)
    requires multiset(a) == multiset(b)
    ensures IsIgnored(rel, a) == IsIgnored(rel, b)
  {
    forall p | p in a ensures p in b {
      assert p in multiset(a);
    }
    forall p | p in b ensures p in a {
      assert p in multiset(b);
    }
    if IsIgnored(rel, a) {
      IgnoredUnderMorePatterns(rel, a, b);
    }
    if IsIgnored(rel, b) {
      IgnoredUnderMorePatterns(rel, b, a);
    }
  }

  /** A path matched by a built-in pattern is excluded whatever the ignore file holds. */
  lemma DefaultsAlwaysApply(project: seq<string>, rel: string, j: nat)
    requires j < |DefaultPatterns| && Match(DefaultPatterns[j], rel)
    ensures IsIgnored(rel, RuleSet(project))
  {
    assert RuleSet(project)[|project| + j] == DefaultPatterns[j];
  }

  /** A path matched by an ignore-file pattern is excluded too. */
  lemma ProjectPatternsApply(project: seq<string>, rel: string, j: nat)
    requires j < |project| && Match(project[j], rel)
    ensures IsIgnored(rel, RuleSet(project))
  {
    assert RuleSet(project)[j] == project[j];
  }

  /**
   * A pattern ending in `/` (`venv/`, `build/`, ...) matches no path that
   * does not itself end in `/`.
   */
  lemma SlashPatternNeedsTrailingSlash(p: string, rel: string)
    requires p != [] && p[|p| - 1] == '/'
    requires rel == [] || rel[|rel| - 1] != '/'
    ensures !Match(p, rel)
  {
    if Match(p, rel) {
      LastLiteralMatched(p, rel);
    }
  }

  /**
   * A root-level name (no `/` in it) escapes a pattern that holds a `/`, one
   * whose last character is literal and differs from the name's last
   * character, and one whose first character is literal and differs from the
   * name's first.
   */
  lemma PatternMissesRootName(p: string, name: string)
    requires name != [] && '/' !in name
    requires || '/' in p
             || (p != [] && !IsWildcard(p[|p| - 1]) && p[|p| - 1] != name[|name| - 1])
             || (p != [] && !IsWildcard(p[0]) && p[0] != name[0])
    ensures !Match(p, name)
  {
    if Match(p, name) {
      if '/' in p {
        LiteralSlashNeedsSlash(p, name);
      } else if p != [] && !IsWildcard(p[|p| - 1]) && p[|p| - 1] != name[|name| - 1] {
        LastLiteralMatched(p, name);
      } else {
        FirstLiteralMatched(p, name);
      }
    }
  }

  // The shape every built-in pattern has: it ends in a literal `/`, `c`, `s`,
  // `r`, `g`, `p`, `i`, `l` or `d`, or its third character from the end is a
  // `/` (the `dir/**` patterns), or it starts with a literal `r`
  // (`requirements.txt`).
  predicate RootNamesEscape(p: string) {
    || (p != [] && !IsWildcard(p[|p| - 1]) && p[|p| - 1] in "/csrgpild")
    || (|p| >= 3 && p[|p| - 3] == '/')
    || (p != [] && !IsWildcard(p[0]) && p[0] == 'r')
  }

  /** Every built-in pattern has that shape. */
  lemma DefaultPatternsShape()
    ensures forall j :: 0 <= j < |DefaultPatterns| ==> RootNamesEscape(DefaultPatterns[j])
  {
  }

  /**
   * A root entry name that no pattern of that shape can reach: it holds no
   * `/`, ends in none of `c`, `s`, `r`, `g`, `p`, `i`, `l`, `d`, and does
   * not start with the `r` of `requirements.txt`.
   */
  predicate DefaultsMissName(name: string) {
    && name != [] && '/' !in name
    && name[|name| - 1] !in "csrgpild" && name[0] != 'r'
  }

  /** A root entry name of that form passes every pattern of that shape. */
  lemma RootNameEscapesAll(patterns: seq<string>, name: string)
    requires DefaultsMissName(name)
    requires forall j :: 0 <= j < |patterns| ==> RootNamesEscape(patterns[j])
    ensures !IsIgnored(name, patterns)
  {
    forall j | 0 <= j < |patterns|
      ensures !Match(patterns[j], name)
    {
      var p := patterns[j];
      assert RootNamesEscape(p);
      if |p| >= 3 && p[|p| - 3] == '/' {
        assert '/' in p;
      }
      PatternMissesRootName(p, name);
    }
  }

  // A directory is matched by neither of its own two built-in patterns,
  // `dir/` and `dir/**`.
  lemma DirectoryPatternsSpareDirectory(dir: string)
    requires IsLiteral(dir) && (dir == [] || dir[|dir| - 1] != '/')
    ensures !Match(dir + "/", dir) && !Match(dir + "/**", dir)
  {
    SlashPatternNeedsTrailingSlash(dir + "/", dir);
    AnchoredDirectoryPattern(dir, dir);
  }

  // A built-in directory pattern such as `venv/**` is anchored at the root:
  // it matches exactly the paths that begin with the directory name and a `/`.
  lemma AnchoredDirectoryPattern(dir: string, rel: string)
    requires IsLiteral(dir)
    ensures Match(dir + "/**", rel) <==> |dir| < |rel| && rel[..|dir| + 1] == dir + "/"
  {
    var lit := dir + "/";
    var stars := "**";
    assert IsLiteral(lit) by {
      forall i | 0 <= i < |lit| ensures !IsWildcard(lit[i]) {
        if i < |dir| {
          assert lit[i] == dir[i];
        }
      }
    }
    assert AllStars(stars);
    assert dir + "/**" == lit + stars;
    LiteralHeadAnchors(lit, stars, rel);
    if |lit| <= |rel| {
      StarsMatchEverything(stars, rel[|lit|..]);
    }
  }
}
