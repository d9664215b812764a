/**
 * The ingestion orchestrator, `parse_codebase_and_send_to_backend`: build
 * the rule set, walk the tree, then, file by file, look up a parser,
 * convert the parsed tree and post it, keeping one success flag and
 * stopping at the first connection failure.
 */
module Ingest {

  import opened Wrappers
  import opened Ignore
  import opened Languages
  import opened Ast
  import opened Walker

  /** How the handling of one file ended once a parser had been found. */
  datatype Outcome =
    | Ok           // the post was answered with a success status
    | Rejected     // `raise_for_status` raised an HTTPError
    | Unreachable  // the post raised a ConnectionError
    | Other        // any other exception while reading, parsing, converting or posting

  /**
   * What the outside world does for one file: the grammar library's answer
   * should a parser have to be constructed while handling it, the tree the
   * parser returns, and how the delivery ends.
   */
  datatype FileEffects = FileEffects(build: Option<ParserHandle>, tree: NativeTree, outcome: Outcome)

  /** The parser cache of a run: grammar name to parser. */
  type Cache = map<string, ParserHandle>

  /** One collected file (its root-relative path) with what happens to it. */
  datatype FileJob = FileJob(path: seq<string>, effects: FileEffects)

  /** The body posted for one file. */
  datatype ParseResult = ParseResult(filePath: string, language: string, rootNode: AstTree)

  /** One delivery attempt: what was posted and how it ended. */
  datatype Attempt = Attempt(payload: ParseResult, outcome: Outcome)

  /**
   * The value returned by the run (`success`), whether it stopped early,
   * every delivery attempt in order, and the parser cache left behind.
   */
  datatype RunResult = RunResult(success: bool, aborted: bool, attempts: seq<Attempt>, cache: Cache)

  /** The last name of a path: what `Path.suffix` looks at. */
  function FileName(path: seq<string>): string {
    if path == [] then "" else path[|path| - 1]
  }

  function ExtensionOf(job: FileJob): string {
    Suffix(FileName(job.path))
  }

  /** What handling one file yields: the attempt made, if any, and the parser cache afterwards. */
  datatype Step = Step(attempt: Option<Attempt>, cache: Cache)

  /**
   * One file of the send loop: look up its parser; when there is one, post
   * the converted tree under the file's path and grammar name.
   */
  function Deliver(job: FileJob, cache: Cache): (r: Step)
    // a file is posted exactly when its extension is known and its parser is cached or can be built
    ensures r.attempt.Some? <==>
      ExtensionOf(job) in LanguageMap && (LanguageMap[ExtensionOf(job)] in cache || job.effects.build.Some?)
    ensures r.attempt.None? ==> r.cache == cache
    // the body posted: the file's path, its grammar name and its converted tree; the outcome is the delivery's own
    ensures r.attempt.Some? ==>
      && r.attempt.value.payload == ParseResult(Join(job.path), LanguageMap[ExtensionOf(job)], Convert(job.effects.tree))
      && r.attempt.value.outcome == job.effects.outcome
    ensures forall l :: l in cache ==> l in r.cache && r.cache[l] == cache[l]
  {
    var res := Resolve(cache, ExtensionOf(job), job.effects.build);
    match res.found
    case None => Step(None, res.cache)
    case Some(b) => Step(Some(Attempt(ParseResult(Join(job.path), b.language, Convert(job.effects.tree)), job.effects.outcome)), res.cache)
  }

  /**
   * The send loop over `jobs`, starting from the parser cache `cache`, with
   * `deliver` handling one file (the run itself uses `Deliver`): a file with
   * no parser is skipped; a connection failure ends the run with False at
   * once; a rejection or any other failure clears the flag and the loop goes
   * on.
   */
  function SendLoop(deliver: (FileJob, Cache) -> Step, jobs: seq<FileJob>, cache: Cache): (r: RunResult)
    ensures r.aborted ==> !r.success
    ensures |r.attempts| <= |jobs|
  {
    if jobs == [] then RunResult(true, false, [], cache)
    else
      var step := deliver(jobs[0], cache);
      match step.attempt
      case None => SendLoop(deliver, jobs[1..], step.cache)
      case Some(a) =>
        if a.outcome == Unreachable then RunResult(false, true, [a], step.cache)
        else
          var rest := SendLoop(deliver, jobs[1..], step.cache);
          RunResult(rest.success && a.outcome == Ok, rest.aborted, [a] + rest.attempts, rest.cache)
  }

  /** The whole run, given the flag and the attempts of the files already handled and the run of the rest. */
  function Resume(success: bool, attempts: seq<Attempt>, rest: RunResult): RunResult {
    RunResult(success && rest.success, rest.aborted, attempts + rest.attempts, rest.cache)
  }

  lemma LoopStep(deliver: (FileJob, Cache) -> Step, jobs: seq<FileJob>, i: nat, cache: Cache)
    requires i < |jobs|
    ensures var step := deliver(jobs[i], cache);
            SendLoop(deliver, jobs[i..], cache)
            == match step.attempt
               case None => SendLoop(deliver, jobs[i + 1..], step.cache)
               case Some(a) =>
                 if a.outcome == Unreachable then RunResult(false, true, [a], step.cache)
                 else Resume(a.outcome == Ok, [a], SendLoop(deliver, jobs[i + 1..], step.cache))
  {
    assert jobs[i..][0] == jobs[i] && jobs[i..][1..] == jobs[i + 1..];
  }

  /**
   * The loop invariant of the send loop carried over one file: with the flag
   * and attempts so far, the whole run is the run of the remaining files
   * resumed from them.
   */
  lemma LoopAdvance(deliver: (FileJob, Cache) -> Step, jobs: seq<FileJob>, i: nat, start: Cache, cache: Cache,
                    success: bool, attempts: seq<Attempt>)
    requires i < |jobs|
    requires SendLoop(deliver, jobs, start) == Resume(success, attempts, SendLoop(deliver, jobs[i..], cache))
    ensures var step := deliver(jobs[i], cache);
            match step.attempt
            case None =>
              SendLoop(deliver, jobs, start) == Resume(success, attempts, SendLoop(deliver, jobs[i + 1..], step.cache))
            case Some(a) =>
              if a.outcome == Unreachable then SendLoop(deliver, jobs, start) == RunResult(false, true, attempts + [a], step.cache)
              else SendLoop(deliver, jobs, start)
                   == Resume(success && a.outcome == Ok, attempts + [a], SendLoop(deliver, jobs[i + 1..], step.cache))
  {
    LoopStep(deliver, jobs, i, cache);
    var step := deliver(jobs[i], cache);
    if step.attempt.Some? && step.attempt.value.outcome != Unreachable {
      var a := step.attempt.value;
      var later := SendLoop(deliver, jobs[i + 1..], step.cache).attempts;
      assert attempts + ([a] + later) == (attempts + [a]) + later;
    }
  }

  /**
   * One iteration of the per-file loop: look up the file's parser in the
   * registry and, when there is one, build the post for it.
   */
  method SendOne(registry: ParserRegistry, job: FileJob) returns (attempt: Option<Attempt>)
    requires registry.Valid()
    modifies registry
    ensures registry.Valid()
    ensures Step(attempt, registry.parsers) == Deliver(job, old(registry.parsers))
  {
    var found := registry.GetParser(ExtensionOf(job), job.effects.build);
    if found.None? {
      return None;
    }
    attempt := Some(Attempt(ParseResult(Join(job.path), found.value.language, Convert(job.effects.tree)), job.effects.outcome));
  }

  /**
   * The per-file loop of the orchestrator with its `all_parsed_successfully`
   * flag; `registry` is the run's parser cache. Returns the flag and the
   * delivery attempts made, in order.
   */
  method SendAll(registry: ParserRegistry, jobs: seq<FileJob>) returns (success: bool, attempts: seq<Attempt>)
    requires registry.Valid()
    modifies registry
    ensures registry.Valid()
    ensures var r := SendLoop(Deliver, jobs, old(registry.parsers));
            success == r.success && attempts == r.attempts && registry.parsers == r.cache
  {
    success := true;
    attempts := [];
    for i := 0 to |jobs|
      invariant registry.Valid()
      invariant SendLoop(Deliver, jobs, old(registry.parsers)) == Resume(success, attempts, SendLoop(Deliver, jobs[i..], registry.parsers))
    {
      LoopAdvance(Deliver, jobs, i, old(registry.parsers), registry.parsers, success, attempts);
      var sent := SendOne(registry, jobs[i]);
      if sent.None? {
        continue;
      }
      var attempt := sent.value;
      attempts := attempts + [attempt];
      match attempt.outcome {
        case Unreachable =>
          return false, attempts;
        case Rejected =>
          success := false;
        case Other =>
          success := false;
        case Ok =>
      }
    }
    assert jobs[|jobs|..] == [];
  }

  /** The files to post: every collected path with what happens to it. */
  function Jobs(files: seq<seq<string>>, effects: seq<string> -> FileEffects): (r: seq<FileJob>)
    ensures |r| == |files|
    ensures forall i :: 0 <= i < |files| ==> r[i].path == files[i]
  {
    seq(|files|, i requires 0 <= i < |files| => FileJob(files[i], effects(files[i])))
  }

  /**
   * `parse_codebase_and_send_to_backend` on the tree `root`. `ignoreFile`
   * holds the lines of the root's ignore file (None when there is none) and
   * `effects` says what the outside world does for each collected file.
   */
  method ParseCodebaseAndSend(root: Folder, ignoreFile: Option<seq<string>>, effects: seq<string> -> FileEffects)
    returns (success: bool, attempts: seq<Attempt>)
    ensures var project := if ignoreFile.None? then [] else NormalizeAll(ignoreFile.value);
            var r := SendLoop(Deliver, Jobs(Collect([], root, RuleSet(project)), effects), map[]);
            success == r.success && attempts == r.attempts
  {
    var patterns := LoadIgnorePatterns(ignoreFile);
    patterns := patterns + DefaultPatterns;
    var files := Walk(root, patterns);
    var registry := new ParserRegistry();
    success, attempts := SendAll(registry, Jobs(files, effects));
  }

  /** A run succeeds exactly when every delivery attempt it made ended in Ok. */
  lemma {:induction false} SuccessIffEveryAttemptOk(deliver: (FileJob, Cache) -> Step, jobs: seq<FileJob>, cache: Cache)
    ensures var r := SendLoop(deliver, jobs, cache);
            r.success <==> forall k :: 0 <= k < |r.attempts| ==> r.attempts[k].outcome == Ok
  {
    if jobs != [] {
      var step := deliver(jobs[0], cache);
      SuccessIffEveryAttemptOk(deliver, jobs[1..], step.cache);
      if step.attempt.Some? && step.attempt.value.outcome != Unreachable {
        var a := step.attempt.value;
        var rest := SendLoop(deliver, jobs[1..], step.cache);
        var r := SendLoop(deliver, jobs, cache);
        assert r.success == (rest.success && a.outcome == Ok);
        assert r.attempts == [a] + rest.attempts;
        assert forall k :: 1 <= k < |r.attempts| ==> r.attempts[k] == rest.attempts[k - 1];
        assert r.attempts[0] == a;
        if !r.success && a.outcome == Ok {
          var k :| 0 <= k < |rest.attempts| && rest.attempts[k].outcome != Ok;
          assert r.attempts[k + 1] == rest.attempts[k];
        }
        if r.success {
          forall k | 0 <= k < |r.attempts| ensures r.attempts[k].outcome == Ok {
            if k > 0 {
              assert r.attempts[k] == rest.attempts[k - 1];
            }
          }
        }
      } else if step.attempt.Some? {
        assert SendLoop(deliver, jobs, cache).attempts[0].outcome == Unreachable;
      }
    }
  }

  /**
   * A run stops early exactly when its last attempt met a connection
   * failure, and no earlier attempt did.
   */
  lemma {:induction false} AbortOnlyAtLastAttempt(deliver: (FileJob, Cache) -> Step, jobs: seq<FileJob>, cache: Cache)
    ensures var r := SendLoop(deliver, jobs, cache);
            && (r.aborted <==> r.attempts != [] && r.attempts[|r.attempts| - 1].outcome == Unreachable)
            && forall k :: 0 <= k < |r.attempts| - 1 ==> r.attempts[k].outcome != Unreachable
  {
    if jobs != [] {
      var step := deliver(jobs[0], cache);
      AbortOnlyAtLastAttempt(deliver, jobs[1..], step.cache);
      if step.attempt.Some? && step.attempt.value.outcome != Unreachable {
        var rest := SendLoop(deliver, jobs[1..], step.cache);
        var r := SendLoop(deliver, jobs, cache);
        assert forall k :: 1 <= k < |r.attempts| ==> r.attempts[k] == rest.attempts[k - 1];
      }
    }
  }

  /** After a connection failure nothing more is attempted, whatever files follow. */
  lemma {:induction false} AbortIgnoresLaterFiles(deliver: (FileJob, Cache) -> Step, a: seq<FileJob>, b: seq<FileJob>, cache: Cache)
    requires SendLoop(deliver, a, cache).aborted
    ensures SendLoop(deliver, a + b, cache) == SendLoop(deliver, a, cache)
  {
    var job := a[0];
    assert (a + b)[0] == job && (a + b)[1..] == a[1..] + b;
    var step := deliver(job, cache);
    if step.attempt.None? || step.attempt.value.outcome != Unreachable {
      AbortIgnoresLaterFiles(deliver, a[1..], b, step.cache);
    }
  }

  /**
   * Files that end in a rejection or another failure do not stop the run:
   * the files after them are handled from where they left the cache.
   */
  lemma {:induction false} RunContinuesPastFailures(deliver: (FileJob, Cache) -> Step, a: seq<FileJob>, b: seq<FileJob>, cache: Cache)
    requires !SendLoop(deliver, a, cache).aborted
    ensures var first := SendLoop(deliver, a, cache);
            SendLoop(deliver, a + b, cache) == Resume(first.success, first.attempts, SendLoop(deliver, b, first.cache))
  {
    if a == [] {
      assert a + b == b;
    } else {
      var job := a[0];
      assert (a + b)[0] == job && (a + b)[1..] == a[1..] + b;
      var step := deliver(job, cache);
      RunContinuesPastFailures(deliver, a[1..], b, step.cache);
      if step.attempt.Some? {
        var tail := SendLoop(deliver, a[1..], step.cache);
        var later := SendLoop(deliver, b, tail.cache).attempts;
        assert [step.attempt.value] + (tail.attempts + later) == ([step.attempt.value] + tail.attempts) + later;
      }
    }
  }

  /** The file has an extension the language table knows. */
  predicate Supported(job: FileJob) {
    ExtensionOf(job) in LanguageMap
  }

  /** The attempt made for a file with a known extension: its path, grammar name and converted tree. */
  function PostOf(job: FileJob): Attempt
    requires Supported(job)
  {
    Attempt(ParseResult(Join(job.path), LanguageMap[ExtensionOf(job)], Convert(job.effects.tree)), job.effects.outcome)
  }

  /** What the run posts for one file: its attempt when the extension is known, nothing otherwise. */
  function Posted(job: FileJob): Option<Attempt> {
    if Supported(job) then Some(PostOf(job)) else None
  }

  /** The values `f` yields over `jobs`, in order, leaving out the files it yields nothing for. */
  function FilterMap<T>(f: FileJob -> Option<T>, jobs: seq<FileJob>): (r: seq<T>)
    ensures |r| <= |jobs|
  {
    if jobs == [] then [] else (if f(jobs[0]).Some? then [f(jobs[0]).value] else []) + FilterMap(f, jobs[1..])
  }

  /** The posts of the files with a known extension, in order. */
  function Posts(jobs: seq<FileJob>): seq<Attempt> {
    FilterMap(Posted, jobs)
  }

  lemma {:induction false} FilterMapAppend<T>(f: FileJob -> Option<T>, a: seq<FileJob>, b: seq<FileJob>)
    ensures FilterMap(f, a + b) == FilterMap(f, a) + FilterMap(f, b)
  {
    if a == [] {
      assert a + b == b;
    } else {
      assert (a + b)[0] == a[0] && (a + b)[1..] == a[1..] + b;
      FilterMapAppend(f, a[1..], b);
      var head := if f(a[0]).Some? then [f(a[0]).value] else [];
      assert head + (FilterMap(f, a[1..]) + FilterMap(f, b)) == (head + FilterMap(f, a[1..])) + FilterMap(f, b);
    }
  }

  lemma FilterMapOfThree<T>(f: FileJob -> Option<T>, jobs: seq<FileJob>)
    requires |jobs| == 3 && f(jobs[0]).Some? && f(jobs[1]).Some? && f(jobs[2]).None?
    ensures FilterMap(f, jobs) == [f(jobs[0]).value, f(jobs[1]).value]
  {
    var tail := jobs[1..];
    var last := jobs[2..];
    assert FilterMap(f, last) == [] by {
      assert last[0] == jobs[2] && last[1..] == [];
    }
    assert FilterMap(f, tail) == [f(jobs[1]).value] by {
      assert tail[0] == jobs[1] && tail[1..] == last;
    }
  }

  /**
   * A file with an unknown extension, or whose parser is not cached and
   * cannot be built, is skipped: nothing is posted for it, and the flag and
   * the cache are left as they were.
   */
  lemma SkippedFileChangesNothing(job: FileJob, rest: seq<FileJob>, cache: Cache)
    requires !Supported(job) || (LanguageMap[ExtensionOf(job)] !in cache && job.effects.build.None?)
    ensures SendLoop(Deliver, [job] + rest, cache) == SendLoop(Deliver, rest, cache)
  {
    assert ([job] + rest)[0] == job && ([job] + rest)[1..] == rest;
  }

  /**
   * A posted file that is rejected or fails otherwise makes the run return
   * False, and the run goes on with the next file.
   */
  lemma FailedDeliveryContinues(job: FileJob, rest: seq<FileJob>, cache: Cache)
    requires Supported(job) && (LanguageMap[ExtensionOf(job)] in cache || job.effects.build.Some?)
    requires job.effects.outcome == Rejected || job.effects.outcome == Other
    ensures var r := SendLoop(Deliver, [job] + rest, cache);
            var later := SendLoop(Deliver, rest, Deliver(job, cache).cache);
            && !r.success
            && r.aborted == later.aborted
            && r.attempts == [PostOf(job)] + later.attempts
  {
    assert ([job] + rest)[0] == job && ([job] + rest)[1..] == rest;
  }

  /** The grammar library can construct every parser it is asked for. */
  ghost predicate ParsersConstructible(jobs: seq<FileJob>) {
    forall i :: 0 <= i < |jobs| ==> jobs[i].effects.build.Some?
  }

  /**
   * With parsers always constructible and no connection failure, the run
   * posts every file with a known extension once, in order, and nothing
   * else; it succeeds exactly when every posted file was accepted.
   */
  lemma EverySupportedFilePosted(jobs: seq<FileJob>, cache: Cache)
    requires ParsersConstructible(jobs)
    requires forall i :: 0 <= i < |jobs| ==> jobs[i].effects.outcome != Unreachable
    ensures var r := SendLoop(Deliver, jobs, cache);
            && !r.aborted
            && r.attempts == Posts(jobs)
            && (r.success <==> forall i :: 0 <= i < |jobs| && Supported(jobs[i]) ==> jobs[i].effects.outcome == Ok)
  {
    forall i, c | 0 <= i < |jobs|
      ensures Deliver(jobs[i], c).attempt == Posted(jobs[i])
    {
    }
    PostingRun(Deliver, jobs, cache);
  }

  /** The same for any step that posts exactly the supported files, with the outcome each file meets. */
  lemma {:induction false} PostingRun(deliver: (FileJob, Cache) -> Step, jobs: seq<FileJob>, cache: Cache)
    requires forall i, c :: 0 <= i < |jobs| ==>
      deliver(jobs[i], c).attempt == Posted(jobs[i])
    requires forall i :: 0 <= i < |jobs| ==> jobs[i].effects.outcome != Unreachable
    ensures var r := SendLoop(deliver, jobs, cache);
            && !r.aborted
            && r.attempts == Posts(jobs)
            && (r.success <==> forall i :: 0 <= i < |jobs| && Supported(jobs[i]) ==> jobs[i].effects.outcome == Ok)
  {
    if jobs != [] {
      var job := jobs[0];
      var rest := jobs[1..];
      assert forall i :: 0 <= i < |rest| ==> rest[i] == jobs[i + 1];
      var step := deliver(job, cache);
      PostingRun(deliver, rest, step.cache);
      var allOk := forall i :: 0 <= i < |jobs| && Supported(jobs[i]) ==> jobs[i].effects.outcome == Ok;
      var restOk := forall i :: 0 <= i < |rest| && Supported(rest[i]) ==> rest[i].effects.outcome == Ok;
      assert allOk <==> (Supported(job) ==> job.effects.outcome == Ok) && restOk;
    }
  }

  /**
   * A connection failure on the k-th file stops the run there: the files
   * with a known extension up to and including it are posted, none after
   * it, and the run returns False.
   */
  lemma ConnectionFailureStopsRun(jobs: seq<FileJob>, k: nat, cache: Cache)
    requires ParsersConstructible(jobs)
    requires k < |jobs| && Supported(jobs[k]) && jobs[k].effects.outcome == Unreachable
    requires forall i :: 0 <= i < k ==> jobs[i].effects.outcome != Unreachable
    ensures var r := SendLoop(Deliver, jobs, cache);
            && !r.success && r.aborted
            && r.attempts == Posts(jobs[..k + 1])
  {
    var before := jobs[..k];
    var upto := jobs[..k + 1];
    assert upto == before + [jobs[k]];
    assert jobs == upto + jobs[k + 1..];
    assert ParsersConstructible(before) && forall i :: 0 <= i < |before| ==> before[i].effects.outcome != Unreachable by {
      forall i | 0 <= i < |before|
        ensures before[i].effects.build.Some? && before[i].effects.outcome != Unreachable
      {
        assert before[i] == jobs[i];
      }
    }
    EverySupportedFilePosted(before, cache);
    var first := SendLoop(Deliver, before, cache);
    RunContinuesPastFailures(Deliver, before, [jobs[k]], cache);
    UnreachableFileAborts(jobs[k], first.cache);
    AbortIgnoresLaterFiles(Deliver, upto, jobs[k + 1..], cache);
    FilterMapAppend(Posted, before, [jobs[k]]);
  }

  /** A lone posted file that meets a connection failure ends its run with its post as the only attempt. */
  lemma UnreachableFileAborts(job: FileJob, cache: Cache)
    requires Supported(job) && job.effects.build.Some? && job.effects.outcome == Unreachable
    ensures SendLoop(Deliver, [job], cache) == RunResult(false, true, [PostOf(job)], Deliver(job, cache).cache)
    ensures Posts([job]) == [PostOf(job)]
  {
    assert [job][0] == job && [job][1..] == [];
  }

  /** A top-level file named stem, dot, extension is looked up by that extension. */
  lemma NamedFileExtension(job: FileJob, stem: string, ext: string)
    requires stem != [] && ext != []
    requires forall k :: 0 <= k < |ext| ==> ext[k] != '.'
    requires job.path == [stem + "." + ext]
    ensures ExtensionOf(job) == "." + ext
  {
    SuffixOfStemAndExtension(stem, ext);
  }

  /**
   * A top-level file named stem, dot, extension, whose extension the table
   * maps to `grammar`, is posted under its own name with that grammar.
   */
  lemma NamedFilePosted(job: FileJob, stem: string, ext: string, grammar: string)
    requires stem != [] && ext != []
    requires '.' !in ext
    requires job.path == [stem + "." + ext]
    requires "." + ext in LanguageMap && LanguageMap["." + ext] == grammar
    ensures Posted(job).Some? && Posted(job).value.payload.filePath == stem + "." + ext
            && Posted(job).value.payload.language == grammar
  {
    NamedFileExtension(job, stem, ext);
  }

  /** A top-level file whose extension the table does not know is not posted. */
  lemma NamedFileUnposted(job: FileJob, stem: string, ext: string)
    requires stem != [] && ext != []
    requires '.' !in ext
    requires job.path == [stem + "." + ext]
    requires "." + ext !in LanguageMap
    ensures !Supported(job) && Posted(job).None?
  {
    NamedFileExtension(job, stem, ext);
  }

  /** The scenario's Python and Java files are posted under their names with the `python` and `java` grammars. */
  lemma ScenarioSourcesPosted(python: FileJob, java: FileJob)
    requires python.path == ["complex_python.py"] && java.path == ["ComplexJava.java"]
    ensures Posted(python).Some? && Posted(python).value.payload.filePath == "complex_python.py"
            && Posted(python).value.payload.language == "python"
    ensures Posted(java).Some? && Posted(java).value.payload.filePath == "ComplexJava.java"
            && Posted(java).value.payload.language == "java"
  {
    ScenarioGrammars();
    ScenarioNames();
    NamedFilePosted(python, "complex_python", "py", "python");
    NamedFilePosted(java, "ComplexJava", "java", "java");
  }

  /** The scenario's text file is not posted. */
  lemma ScenarioTextUnposted(job: FileJob)
    requires job.path == ["unsupported.txt"]
    ensures Posted(job).None?
  {
    ScenarioGrammars();
    ScenarioNames();
    NamedFileUnposted(job, "unsupported", "txt");
  }

  /** The scenario's file names, each a stem, a dot and an extension. */
  lemma ScenarioNames()
    ensures "complex_python" + "." + "py" == "complex_python.py"
    ensures "ComplexJava" + "." + "java" == "ComplexJava.java"
    ensures "unsupported" + "." + "txt" == "unsupported.txt"
  {
  }

  /** The table entries the scenario relies on. */
  lemma ScenarioGrammars()
    ensures "." + "py" in LanguageMap && LanguageMap["." + "py"] == "python"
    ensures "." + "java" in LanguageMap && LanguageMap["." + "java"] == "java"
    ensures "." + "txt" !in LanguageMap
  {
    assert "." + "py" == ".py" && "." + "java" == ".java" && "." + "txt" == ".txt";
  }

  /** The scenario's three names lie beyond the reach of the built-in patterns. */
  lemma ScenarioNamesMissDefaults()
    ensures forall i :: 0 <= i < 3 ==> DefaultsMissName(["complex_python.py", "ComplexJava.java", "unsupported.txt"][i])
  {
    assert DefaultsMissName("complex_python.py");
    assert DefaultsMissName("ComplexJava.java");
    assert DefaultsMissName("unsupported.txt");
  }

  /** With no ignore file, the scenario's three root files are all collected, in listing order. */
  lemma ScenarioCollected()
    ensures Collect([], Folder(["complex_python.py", "ComplexJava.java", "unsupported.txt"], []), RuleSet([]))
            == [["complex_python.py"], ["ComplexJava.java"], ["unsupported.txt"]]
  {
    var names := ["complex_python.py", "ComplexJava.java", "unsupported.txt"];
    ScenarioNamesMissDefaults();
    RootFilesCollected(names);
  }

  /** The scenario below, once the three files are collected in listing order. */
  lemma ThreeJobsRun(jobs: seq<FileJob>)
    requires |jobs| == 3
    requires jobs[0].path == ["complex_python.py"] && jobs[1].path == ["ComplexJava.java"]
          && jobs[2].path == ["unsupported.txt"]
    requires forall i :: 0 <= i < 3 ==> jobs[i].effects.build.Some? && jobs[i].effects.outcome == Ok
    ensures var r := SendLoop(Deliver, jobs, map[]);
            && r.success && |r.attempts| == 2
            && r.attempts[0].payload.filePath == "complex_python.py" && r.attempts[0].payload.language == "python"
            && r.attempts[1].payload.filePath == "ComplexJava.java" && r.attempts[1].payload.language == "java"
  {
    ScenarioSourcesPosted(jobs[0], jobs[1]);
    ScenarioTextUnposted(jobs[2]);
    FilterMapOfThree(Posted, jobs);
    EverySupportedFilePosted(jobs, map[]);
  }

  /**
   * The repository's own scenario: a root holding a Python file, a Java file
   * and a text file, no ignore file, and every delivery accepted. The three
   * files pass the built-in patterns, and the run returns True with exactly
   * two posts, the Python file's and then the Java file's.
   */
  lemma ThreeFileScenario(effects: seq<string> -> FileEffects)
    requires forall path :: effects(path).build.Some? && effects(path).outcome == Ok
    ensures var root := Folder(["complex_python.py", "ComplexJava.java", "unsupported.txt"], []);
            var r := SendLoop(Deliver, Jobs(Collect([], root, RuleSet([])), effects), map[]);
            && r.success && |r.attempts| == 2
            && r.attempts[0].payload.filePath == "complex_python.py" && r.attempts[0].payload.language == "python"
            && r.attempts[1].payload.filePath == "ComplexJava.java" && r.attempts[1].payload.language == "java"
  {
    var files := Collect([], Folder(["complex_python.py", "ComplexJava.java", "unsupported.txt"], []), RuleSet([]));
    ScenarioCollected();
    ThreeJobsRun(Jobs(files, effects));
  }
}
