/**
 * The tree walker: the `os.walk` loop that prunes excluded sub-directories
 * before descending and keeps the files that pass the exclusion test.
 * Paths are sequences of names relative to the ingestion root.
 */
module Walker {

  import opened Glob
  import opened Ignore

  /** A directory as `os.walk` lists it: its files and its sub-directories, each in listing order. */
  datatype Folder = Folder(files: seq<string>, dirs: seq<Sub>)

  datatype Sub = Sub(name: string, folder: Folder)

  /** The root-relative path string: the names joined by `/`. */
  function Join(path: seq<string>): (r: string)
    ensures path == [] ==> r == []
    ensures path != [] ==> |path[|path| - 1]| <= |r| && r[|r| - |path[|path| - 1]|..] == path[|path| - 1]
  {
    if path == [] then []
    else if |path| == 1 then path[0]
    else Join(path[..|path| - 1]) + "/" + path[|path| - 1]
  }

  /** The entry at `path` passes the exclusion test. */
  predicate Kept(path: seq<string>, patterns: seq<string>) {
    !IsIgnored(Join(path), patterns)
  }

  /** The sub-directories left in `dirs` after pruning, in order. */
  function KeptDirs(prefix: seq<string>, dirs: seq<Sub>, patterns: seq<string>): (r: seq<Sub>)
    ensures forall s :: s in r <==> s in dirs && Kept(prefix + [s.name], patterns)
  {
    if dirs == [] then []
    else
      var last := dirs[|dirs| - 1];
      KeptDirs(prefix, dirs[..|dirs| - 1], patterns)
      + (if Kept(prefix + [last.name], patterns) then [last] else [])
  }

  /** The paths of the files of one directory that pass the exclusion test, in order. */
  function KeptFiles(prefix: seq<string>, files: seq<string>, patterns: seq<string>): seq<seq<string>> {
    if files == [] then []
    else
      var path := prefix + [files[|files| - 1]];
      KeptFiles(prefix, files[..|files| - 1], patterns)
      + (if Kept(path, patterns) then [path] else [])
  }

  /**
   * The files collected from the directory at `prefix`: its own files first,
   * then, for each sub-directory that is not pruned, everything collected
   * below it.
   */
  function Collect(prefix: seq<string>, f: Folder, patterns: seq<string>): seq<seq<string>>
    decreases f
  {
    KeptFiles(prefix, f.files, patterns) + CollectDirs(prefix, f.dirs, patterns)
  }

  function CollectDirs(prefix: seq<string>, dirs: seq<Sub>, patterns: seq<string>): seq<seq<string>>
    decreases dirs
  {
    if dirs == [] then []
    else
      var last := dirs[|dirs| - 1];
      var path := prefix + [last.name];
      CollectDirs(prefix, dirs[..|dirs| - 1], patterns)
      + (if Kept(path, patterns) then Collect(path, last.folder, patterns) else [])
  }

  /** What is collected below a list of sub-directories already pruned. */
  function CollectList(prefix: seq<string>, dirs: seq<Sub>, patterns: seq<string>): seq<seq<string>> {
    if dirs == [] then []
    else
      var last := dirs[|dirs| - 1];
      CollectList(prefix, dirs[..|dirs| - 1], patterns) + Collect(prefix + [last.name], last.folder, patterns)
  }

  lemma {:induction false} PruneThenDescend(prefix: seq<string>, dirs: seq<Sub>, patterns: seq<string>)
    ensures CollectDirs(prefix, dirs, patterns) == CollectList(prefix, KeptDirs(prefix, dirs, patterns), patterns)
  {
    if dirs != [] {
      var init := dirs[..|dirs| - 1];
      var last := dirs[|dirs| - 1];
      PruneThenDescend(prefix, init, patterns);
      var kept := KeptDirs(prefix, init, patterns);
      if Kept(prefix + [last.name], patterns) {
        var kept' := kept + [last];
        assert KeptDirs(prefix, dirs, patterns) == kept';
        assert kept'[..|kept'| - 1] == kept && kept'[|kept'| - 1] == last;
        assert CollectList(prefix, kept', patterns)
            == CollectList(prefix, kept, patterns) + Collect(prefix + [last.name], last.folder, patterns);
      } else {
        assert KeptDirs(prefix, dirs, patterns) == kept;
      }
    }
  }

  lemma KeptFilesStep(prefix: seq<string>, files: seq<string>, patterns: seq<string>, i: nat)
    requires i < |files|
    ensures KeptFiles(prefix, files[..i + 1], patterns)
         == KeptFiles(prefix, files[..i], patterns)
            + (if Kept(prefix + [files[i]], patterns) then [prefix + [files[i]]] else [])
  {
    assert files[..i + 1][..i] == files[..i];
  }

  lemma CollectListStep(prefix: seq<string>, dirs: seq<Sub>, patterns: seq<string>, i: nat, done: seq<seq<string>>)
    requires i < |dirs|
    ensures done + CollectList(prefix, dirs[..i + 1], patterns)
         == done + CollectList(prefix, dirs[..i], patterns) + Collect(prefix + [dirs[i].name], dirs[i].folder, patterns)
  {
    assert dirs[..i + 1][..i] == dirs[..i];
  }

  /** When every file of a directory passes the test, all of them are kept, in listing order. */
  lemma {:induction false} KeptFilesAllKept(prefix: seq<string>, files: seq<string>, patterns: seq<string>)
    requires forall i :: 0 <= i < |files| ==> Kept(prefix + [files[i]], patterns)
    ensures KeptFiles(prefix, files, patterns) == seq(|files|, i requires 0 <= i < |files| => prefix + [files[i]])
  {
    if files != [] {
      var n := |files| - 1;
      var init := files[..n];
      assert forall i :: 0 <= i < |init| ==> init[i] == files[i];
      KeptFilesAllKept(prefix, init, patterns);
      assert Kept(prefix + [files[n]], patterns);
      var all := seq(|files|, i requires 0 <= i < |files| => prefix + [files[i]]);
      var front := seq(|init|, i requires 0 <= i < |init| => prefix + [init[i]]);
      assert all == front + [prefix + [files[n]]];
    }
  }

  /** The inner loop of the walk: the files of one directory that pass the exclusion test. */
  method KeepFiles(prefix: seq<string>, names: seq<string>, patterns: seq<string>) returns (files: seq<seq<string>>)
    ensures files == KeptFiles(prefix, names, patterns)
  {
    files := [];
    for i := 0 to |names|
      invariant files == KeptFiles(prefix, names[..i], patterns)
    {
      var path := prefix + [names[i]];
      KeptFilesStep(prefix, names, patterns, i);
      if !IsIgnored(Join(path), patterns) {
        files := files + [path];
      }
    }
    assert names[..|names|] == names;
  }

  /**
   * The walk of the directory at `prefix`: prune `dirs` (a filtering
   * comprehension in the source), collect the files that are not excluded,
   * then descend into what is left of `dirs`, in order.
   */
  method WalkFolder(prefix: seq<string>, f: Folder, patterns: seq<string>) returns (files: seq<seq<string>>)
    ensures files == Collect(prefix, f, patterns)
    decreases f
  {
    var dirs := KeptDirs(prefix, f.dirs, patterns);
    files := KeepFiles(prefix, f.files, patterns);
    ghost var here := files;
    for i := 0 to |dirs|
      invariant files == here + CollectList(prefix, dirs[..i], patterns)
    {
      var sub := dirs[i];
      assert sub in f.dirs;
      var below := WalkFolder(prefix + [sub.name], sub.folder, patterns);
      CollectListStep(prefix, dirs, patterns, i, here);
      files := files + below;
    }
    assert dirs[..|dirs|] == dirs;
    PruneThenDescend(prefix, f.dirs, patterns);
  }

  /** The file list of one ingestion run: the walk from the root. */
  method Walk(root: Folder, patterns: seq<string>) returns (files: seq<seq<string>>)
    ensures files == Collect([], root, patterns)
  {
    files := WalkFolder([], root, patterns);
  }

  /** `path`, relative to `f`, names a file of the tree. */
  ghost predicate FileAt(f: Folder, path: seq<string>)
    decreases f
  {
    if |path| == 1 then path[0] in f.files
    else |path| > 1 && exists s :: s in f.dirs && s.name == path[0] && FileAt(s.folder, path[1..])
  }

  /** Every entry from just below `prefix` down to `path` itself passes the exclusion test. */
  ghost predicate ChainKept(prefix: seq<string>, path: seq<string>, patterns: seq<string>) {
    forall k :: |prefix| < k <= |path| ==> Kept(path[..k], patterns)
  }

  lemma {:induction false} KeptFilesSound(prefix: seq<string>, files: seq<string>, patterns: seq<string>, p: seq<string>)
    requires p in KeptFiles(prefix, files, patterns)
    ensures |p| == |prefix| + 1 && p[..|prefix|] == prefix && p[|prefix|] in files && Kept(p, patterns)
  {
    var init := files[..|files| - 1];
    if p in KeptFiles(prefix, init, patterns) {
      KeptFilesSound(prefix, init, patterns, p);
      assert p[|prefix|] in files by {
        var k :| 0 <= k < |init| && init[k] == p[|prefix|];
        assert files[k] == init[k];
      }
    }
  }

  /** Soundness of the walk: a collected file exists, and it and every directory above it pass the test. */
  lemma {:induction false} CollectSound(prefix: seq<string>, f: Folder, patterns: seq<string>, p: seq<string>)
    requires p in Collect(prefix, f, patterns)
    ensures |p| > |prefix| && p[..|prefix|] == prefix
    ensures FileAt(f, p[|prefix|..])
    ensures ChainKept(prefix, p, patterns)
    decreases f, 1
  {
    if p in KeptFiles(prefix, f.files, patterns) {
      KeptFilesSound(prefix, f.files, patterns, p);
      assert p[|prefix|..] == [p[|prefix|]];
      assert p[..|p|] == p;
    } else {
      CollectDirsSound(prefix, f.dirs, patterns, p);
      var rel := p[|prefix|..];
      var s :| s in f.dirs && s.name == p[|prefix|] && FileAt(s.folder, p[|prefix| + 1..]);
      assert rel[0] == s.name && rel[1..] == p[|prefix| + 1..];
    }
  }

  lemma {:induction false} CollectDirsSound(prefix: seq<string>, dirs: seq<Sub>, patterns: seq<string>, p: seq<string>)
    requires p in CollectDirs(prefix, dirs, patterns)
    ensures |p| > |prefix| + 1 && p[..|prefix|] == prefix
    ensures exists s :: s in dirs && s.name == p[|prefix|] && FileAt(s.folder, p[|prefix| + 1..])
    ensures ChainKept(prefix, p, patterns)
    decreases dirs
  {
    var init := dirs[..|dirs| - 1];
    var last := dirs[|dirs| - 1];
    var path := prefix + [last.name];
    if p in CollectDirs(prefix, init, patterns) {
      CollectDirsSound(prefix, init, patterns, p);
      var s :| s in init && s.name == p[|prefix|] && FileAt(s.folder, p[|prefix| + 1..]);
      assert s in dirs;
    } else {
      assert Kept(path, patterns) && p in Collect(path, last.folder, patterns);
      SubSound(prefix, last, patterns, p);
    }
  }

  /** A file collected below one kept sub-directory lies inside it, along a kept chain. */
  lemma {:induction false} SubSound(prefix: seq<string>, s: Sub, patterns: seq<string>, p: seq<string>)
    requires Kept(prefix + [s.name], patterns) && p in Collect(prefix + [s.name], s.folder, patterns)
    ensures |p| > |prefix| + 1 && p[..|prefix|] == prefix && p[|prefix|] == s.name
    ensures FileAt(s.folder, p[|prefix| + 1..])
    ensures ChainKept(prefix, p, patterns)
    decreases s
  {
    var path := prefix + [s.name];
    CollectSound(path, s.folder, patterns, p);
    assert p[..|path|] == path;
    assert p[..|prefix|] == path[..|prefix|] == prefix;
    assert p[|path|..] == p[|prefix| + 1..];
  }

  lemma {:induction false} KeptFilesComplete(prefix: seq<string>, files: seq<string>, patterns: seq<string>, name: string)
    requires name in files && Kept(prefix + [name], patterns)
    ensures prefix + [name] in KeptFiles(prefix, files, patterns)
  {
    var init := files[..|files| - 1];
    if files[|files| - 1] != name {
      assert name in init by {
        var k :| 0 <= k < |files| && files[k] == name;
        assert k < |init| && init[k] == name;
      }
      KeptFilesComplete(prefix, init, patterns, name);
    }
  }

  lemma {:induction false} CollectDirsComplete(prefix: seq<string>, dirs: seq<Sub>, patterns: seq<string>, s: Sub, p: seq<string>)
    requires s in dirs && Kept(prefix + [s.name], patterns)
    requires p in Collect(prefix + [s.name], s.folder, patterns)
    ensures p in CollectDirs(prefix, dirs, patterns)
  {
    var init := dirs[..|dirs| - 1];
    if dirs[|dirs| - 1] != s {
      assert s in init by {
        var k :| 0 <= k < |dirs| && dirs[k] == s;
        assert k < |init| && init[k] == s;
      }
      CollectDirsComplete(prefix, init, patterns, s, p);
    }
  }

  /** Completeness of the walk: a file that passes the test along its whole chain is collected. */
  lemma {:induction false} CollectComplete(prefix: seq<string>, f: Folder, patterns: seq<string>, rel: seq<string>)
    requires FileAt(f, rel)
    requires ChainKept(prefix, prefix + rel, patterns)
    ensures prefix + rel in Collect(prefix, f, patterns)
    decreases f
  {
    var p := prefix + rel;
    if |rel| == 1 {
      assert p[..|p|] == p && rel == [rel[0]];
      assert Kept(p[..|p|], patterns);
      KeptFilesComplete(prefix, f.files, patterns, rel[0]);
    } else {
      var s :| s in f.dirs && s.name == rel[0] && FileAt(s.folder, rel[1..]);
      var path := prefix + [s.name];
      assert p[..|prefix| + 1] == path;
      assert (path + rel[1..]) == p;
      CollectComplete(path, s.folder, patterns, rel[1..]);
      CollectDirsComplete(prefix, f.dirs, patterns, s, p);
    }
  }

  /**
   * The walk collects exactly the files of the tree that pass the exclusion
   * test and lie under directories that all pass it too.
   */
  lemma CollectedIffChainKept(root: Folder, patterns: seq<string>, path: seq<string>)
    ensures path in Collect([], root, patterns) <==> FileAt(root, path) && ChainKept([], path, patterns)
  {
    if path in Collect([], root, patterns) {
      CollectSound([], root, patterns, path);
      assert path[0..] == path;
    }
    if FileAt(root, path) && ChainKept([], path, patterns) {
      assert [] + path == path;
      CollectComplete([], root, patterns, path);
    }
  }

  /**
   * Pruning: once a directory is excluded, nothing below it is collected,
   * even files that no pattern matches.
   */
  lemma PrunedDirectoryHidesSubtree(root: Folder, patterns: seq<string>, path: seq<string>, k: nat)
    requires 1 <= k < |path| && !Kept(path[..k], patterns)
    ensures path !in Collect([], root, patterns)
  {
    if path in Collect([], root, patterns) {
      CollectSound([], root, patterns, path);
    }
  }

  /**
   * The relative path of a directory has no trailing `/`, so a pattern that
   * ends in `/` (`venv/`, `build/`, ...) never prunes anything.
   */
  lemma SlashPatternNeverPrunes(path: seq<string>, p: string)
    requires path != [] && path[|path| - 1] != [] && path[|path| - 1][|path[|path| - 1]| - 1] != '/'
    requires p != [] && p[|p| - 1] == '/'
    ensures !Match(p, Join(path))
  {
    var rel := Join(path);
    var name := path[|path| - 1];
    assert rel[|rel| - 1] == name[|name| - 1] by {
      assert rel[|rel| - |name|..][|name| - 1] == rel[|rel| - 1];
    }
    SlashPatternNeedsTrailingSlash(p, rel);
  }

  /** The path string of two or more names begins with the first name and a `/`. */
  lemma {:induction false} JoinStartsWithHead(path: seq<string>)
    requires |path| >= 2
    ensures |path[0]| < |Join(path)| && Join(path)[..|path[0]| + 1] == path[0] + "/"
  {
    var init := path[..|path| - 1];
    var last := path[|path| - 1];
    if |path| == 2 {
      assert init == [path[0]];
      assert Join(path) == path[0] + "/" + last;
    } else {
      JoinStartsWithHead(init);
      assert init[0] == path[0];
      assert Join(path) == Join(init) + "/" + last;
    }
  }

  // A built-in pattern `dir/**` (`node_modules/**`, `build/**`, ...) keeps
  // every file below a root-level directory `dir` out of the walk, whatever
  // the ignore file holds.
  lemma RootDirectoryDefaultExcludes(root: Folder, project: seq<string>, dir: string, j: nat, path: seq<string>)
    requires j < |DefaultPatterns| && DefaultPatterns[j] == dir + "/**" && IsLiteral(dir)
    requires |path| >= 2 && path[0] == dir
    ensures path !in Collect([], root, RuleSet(project))
  {
    JoinStartsWithHead(path);
    AnchoredDirectoryPattern(dir, Join(path));
    DefaultsAlwaysApply(project, Join(path), j);
    assert path[..|path|] == path;
    CollectedIffChainKept(root, RuleSet(project), path);
  }

  // A built-in pattern `dir/**` does not prune a root-level `dir` itself,
  // but it prunes every sub-directory listed inside it: none is left in
  // `dirs`, so none of them is walked.
  lemma RootDirectoryPrunesSubdirectories(project: seq<string>, dir: string, j: nat, subs: seq<Sub>)
    requires j < |DefaultPatterns| && DefaultPatterns[j] == dir + "/**" && IsLiteral(dir)
    ensures KeptDirs([dir], subs, RuleSet(project)) == []
  {
    forall s | s in subs
      ensures !Kept([dir] + [s.name], RuleSet(project))
    {
      var path := [dir] + [s.name];
      JoinStartsWithHead(path);
      AnchoredDirectoryPattern(dir, Join(path));
      DefaultsAlwaysApply(project, Join(path), j);
    }
  }

  /** A folder without sub-directories whose files all pass the test yields exactly those files, in listing order. */
  lemma FlatFolderCollected(prefix: seq<string>, files: seq<string>, patterns: seq<string>)
    requires forall i :: 0 <= i < |files| ==> Kept(prefix + [files[i]], patterns)
    ensures Collect(prefix, Folder(files, []), patterns)
            == seq(|files|, i requires 0 <= i < |files| => prefix + [files[i]])
  {
    KeptFilesAllKept(prefix, files, patterns);
  }

  /**
   * With no ignore file, a file directly under the root is kept when its
   * name ends in none of `c`, `s`, `r`, `g`, `p`, `i`, `l`, `d` and does not
   * start with `r`: no built-in pattern matches it.
   */
  lemma RootFileKept(name: string)
    requires DefaultsMissName(name)
    ensures Kept([name], RuleSet([]))
  {
    DefaultPatternsShape();
    assert RuleSet([]) == DefaultPatterns;
    RootNameEscapesAll(RuleSet([]), name);
  }

  /**
   * With no ignore file, a root holding only files, none of whose names the
   * built-in patterns can reach, yields every file, in listing order.
   */
  lemma RootFilesCollected(names: seq<string>)
    requires forall i :: 0 <= i < |names| ==> DefaultsMissName(names[i])
    ensures Collect([], Folder(names, []), RuleSet([]))
            == seq(|names|, i requires 0 <= i < |names| => [names[i]])
  {
    forall i | 0 <= i < |names|
      ensures Kept([] + [names[i]], RuleSet([]))
    {
      assert [] + [names[i]] == [names[i]];
      RootFileKept(names[i]);
    }
    FlatFolderCollected([], names, RuleSet([]));
    assert forall i :: 0 <= i < |names| ==> [] + [names[i]] == [names[i]];
  }
}
