# Codebase ingestion of the mira CLI, modelled in Dafny

This project models the ingestion routine of `mira_cli/parser.py`. The routine:

- walks a source tree and skips paths excluded by the project's `.gitignore` and by a fixed list of built-in patterns;
- picks a tree-sitter grammar for each remaining file by its extension, keeping one lazily built parser per grammar;
- converts each parse tree into a uniform JSON-shaped node;
- posts the result to the backend, one file at a time.

The run returns `True` when every post succeeded. It returns `False` at once when the backend cannot be reached. A rejected post or any other failure clears the flag, and the run goes on.

The modules follow the pieces of the routine:

| module | file | what it holds |
|---|---|---|
| `Glob` | `Glob.dfy` | the `fnmatch` subset the patterns use. It is a whole-string match where `*` spans any characters including `/`, `?` is one character and everything else is literal. |
| `Ignore` | `Ignore.dfy` | `str.strip`, the rewriting of ignore-file lines into patterns, the loading loop, the built-in patterns, the rule set and the exclusion test. |
| `Languages` | `Languages.dfy` | the extension table, `PurePath.suffix`, and the parser cache. The cache has a specification function (`Resolve`) and the run's cache object (`ParserRegistry`), whose `GetParser` updates a map in place. |
| `Ast` | `Ast.dfy` | the native tree and the uniform node, the converter, and its structure-preservation lemmas. |
| `Walker` | `Walker.dfy` | a directory tree as ordered files and sub-directories, the collection function, and the recursive walk method. The walk prunes `dirs` before descending and filters files. |
| `Ingest` | `Ingest.dfy` | the per-file step (`Deliver`), the send loop as a function (`SendLoop`) and as a method over the parser registry (`SendAll`), the whole routine (`ParseCodebaseAndSend`), and the loop's early-exit and success-flag lemmas. |

The outside world enters as inputs:

- the lines of the ignore file (`None` when there is no file);
- the directory tree;
- for each file, what the grammar library would return when asked to build a parser (`build`, `None` when construction raises);
- the native tree the parser produces;
- how the delivery ends (`Ok`, `Rejected` for an HTTP error status, `Unreachable` for a connection error, `Other` for any other exception).

`SendLoop` takes the per-file step as a parameter. The run uses `Deliver`, and the structural lemmas about the loop hold for any step.

Where the code departs from the usual `.gitignore` semantics, or from caching every parser lookup, the model follows the code. These points are proved, not assumed:

- **Failed parser construction is retried.** A failed construction is not cached: the cache is left unchanged and the next file of that grammar tries again (`Languages.FailedConstructionIsRetried`).
- **Absent children are kept.** `convert_to_ast_node` appends the conversion of every child, so an absent child becomes a `None` entry in `children` rather than being skipped (`Ast.ConvertKeepsOutline`).
- **Patterns ending in `/` never match.** A relative path has no trailing `/`, so `venv/`, `build/` and the like match nothing (`Ignore.SlashPatternNeedsTrailingSlash`, `Walker.SlashPatternNeverPrunes`).
- **`x/**` patterns are anchored at the root, and they do not prune `x` itself.** A pattern such as `node_modules/**` matches exactly the paths that start with `node_modules/` (`Ignore.AnchoredDirectoryPattern`). So:
  - the directory itself is matched by neither `node_modules/` nor `node_modules/**`, so those two patterns do not keep the walk out of it (`Ignore.DirectoryPatternsSpareDirectory`);
  - inside it, the walk filters out the directory's own files and prunes every sub-directory, so nothing below a root-level `node_modules` is collected (`Walker.RootDirectoryPrunesSubdirectories`, `Walker.RootDirectoryDefaultExcludes`);
  - a `node_modules` below another directory has a path that does not start with `node_modules/`, so those two patterns do not exclude it (`Ignore.AnchoredDirectoryPattern`, `Ignore.SlashPatternNeedsTrailingSlash`). Another built-in pattern, such as `build/**` for `build/node_modules`, may still exclude it.
- **Bare ignore lines miss root-level entries.** Such a line becomes `**/line`, which needs a `/` in the path before the match (`Ignore.BareLineMatchesBelowSomeSlash`). So a name listed that way never excludes an entry directly under the root (`Ignore.RootEntryEscapesBareLine`).

## Model

| member | source | states |
|---|---|---|
| Glob.LiteralMatchesItself | mira_cli/parser.py:66 | a pattern without wildcards matches exactly the identical path string (whole-string match) |
| Glob.StarMatchesSomeSplit | mira_cli/parser.py:66 | `*q` matches `s` iff `q` matches some suffix of `s`; `*` spans any characters, `/` included |
| Glob.StarsMatchEverything | mira_cli/parser.py:66 | a non-empty pattern made only of `*` matches every path |
| Glob.LiteralHeadAnchors | mira_cli/parser.py:66 | a pattern starting with a literal matches only paths starting with that literal, the rest matching the rest |
| Glob.LastLiteralMatched | mira_cli/parser.py:66 | a pattern ending in a literal character matches only paths ending in that character |
| Glob.FirstLiteralMatched | mira_cli/parser.py:66 | a pattern starting with a literal character matches only paths starting with that character |
| Glob.LiteralSlashNeedsSlash | mira_cli/parser.py:66 | a pattern holding a literal `/` matches only paths holding a `/`: no wildcard stands in for a `/` it does not span |
| Glob.RecursivePrefixNeedsSlash | mira_cli/parser.py:66 | `**/q` matches `s` iff `q` matches what follows some `/` of `s` |
| Ignore.Strip | mira_cli/parser.py:47 | the result has no white space at either end and is the input with white space removed only from both ends |
| Ignore.NormalizeLine | mira_cli/parser.py:47-56 | a blank line or a `#` line gives no pattern; `/x` gives `x`; `**/x` is kept; any other `x` gives `**/x` (after stripping) |
| Ignore.NormalizeAll | mira_cli/parser.py:46-56 | at most one pattern per line |
| Ignore.LoadIgnorePatterns | mira_cli/parser.py:38-57 | no ignore file gives no patterns; otherwise the loop returns the normalised lines, in order |
| Ignore.NormalizeAllSnoc | mira_cli/parser.py:46-56 | each loop step appends the line's pattern, or nothing when the line gives none |
| Ignore.NormalizeAllAppend | mira_cli/parser.py:46-56 | the patterns of two consecutive runs of lines are the patterns of the first followed by those of the second: output order follows line order |
| Ignore.NormalizeAllMembers | mira_cli/parser.py:46-56 | a pattern is produced iff some line normalises to it |
| Ignore.PatternSource | mira_cli/parser.py:46-56 | every produced pattern comes from a line that normalises to it |
| Ignore.PatternKept | mira_cli/parser.py:46-56 | every line that normalises to a pattern contributes it |
| Ignore.NormalizeAllLast | mira_cli/parser.py:46-56 | the patterns of a file are those of all its lines but the last, followed by the last line's pattern if it has one |
| Ignore.BareLineMatchesBelowSomeSlash | mira_cli/parser.py:52-55 | a line not starting with `/` matches a path iff its unprefixed form matches what follows some `/` of the path |
| Ignore.RootEntryEscapesBareLine | mira_cli/parser.py:54-55 | such a line never matches a root-level name (one without `/`) |
| Ignore.RuleSet | mira_cli/parser.py:75-95 | the rule set is the project patterns in order followed by all the built-in patterns in order |
| Ignore.IsIgnored | mira_cli/parser.py:60-68 | a path is excluded iff at least one pattern matches it |
| Ignore.IgnoredUnderMorePatterns | mira_cli/parser.py:65-68 | adding patterns never turns an exclusion into an inclusion |
| Ignore.IgnoredRegardlessOfOrder | mira_cli/parser.py:65-68 | the verdict does not depend on the order of the patterns |
| Ignore.DefaultsAlwaysApply | mira_cli/parser.py:78-95 | a path matched by a built-in pattern is excluded whatever the ignore file holds |
| Ignore.ProjectPatternsApply | mira_cli/parser.py:75-95 | a path matched by an ignore-file pattern is excluded whatever follows it |
| Ignore.SlashPatternNeedsTrailingSlash | mira_cli/parser.py:79-93 | a pattern ending in `/` matches no path that does not end in `/` |
| Ignore.AnchoredDirectoryPattern | mira_cli/parser.py:79-93 | `dir/**` matches exactly the paths beginning with `dir/` |
| Ignore.PatternMissesRootName | mira_cli/parser.py:65-66 | a pattern misses a name without `/` when the pattern holds a `/`, or ends or starts with a literal character the name does not end or start with |
| Ignore.DefaultPatternsShape | mira_cli/parser.py:78-94 | every built-in pattern holds a `/` three characters from its end, or ends in one of `/csrgpild`, or starts with a literal `r` |
| Ignore.RootNameEscapesAll | mira_cli/parser.py:60-68 | a name without `/` that ends in none of `csrgpild` and does not start with `r` is excluded by no pattern of that shape |
| Ignore.DirectoryPatternsSpareDirectory | mira_cli/parser.py:79-93 | a directory name is matched by neither its own `dir/` nor its own `dir/**` pattern |
| Languages.LanguageOf | mira_cli/parser.py:98-134 | a grammar is found iff the extension is in the table; the grammar is the table's, and it is non-empty |
| Languages.Suffix | mira_cli/parser.py:161 | the suffix is empty or is the part of the name from its last `.`, a dot that is neither first nor last |
| Languages.SuffixOfStemAndExtension | mira_cli/parser.py:161 | `stem.ext` with a non-empty stem and a dot-free extension has suffix `.ext` |
| Languages.Resolve | mira_cli/parser.py:131-143 | fails iff the extension is unknown or the grammar is neither cached nor buildable; a failure leaves the cache alone; success returns the mapped grammar with the parser now cached for it; a cached parser is reused; the cache only gains the grammar just resolved and never replaces an entry |
| Languages.ResolvedParserIsReused | mira_cli/parser.py:136-143 | once a grammar is resolved, later requests through any extension mapped to it return the same parser and leave the cache unchanged |
| Languages.FailedConstructionIsRetried | mira_cli/parser.py:136-142 | a construction failure is not cached; the next request constructs again |
| Languages.ParserRegistry.constructor | mira_cli/parser.py:128 | the run starts with an empty cache |
| Languages.ParserRegistry.GetParser | mira_cli/parser.py:131-143 | the answer and the new cache are those of `Resolve` on the old cache; the ghost log gains a grammar exactly when a parser for it is successfully constructed, so each grammar is successfully constructed at most once per run |
| Ast.Convert | mira_cli/parser.py:16-35 | an absent node gives None; otherwise the type and the positions are copied, there are as many children as in the native node, and the value is the node's text iff the node is named and its text is non-empty (empty otherwise) |
| Ast.ConvertKeepsOutline | mira_cli/parser.py:24-35 | read in pre-order, the converted tree has the same nodes, types, positions, child counts and absent nodes as the native tree |
| Ast.ConvertAllKeepsOutline | mira_cli/parser.py:32-33 | converting a child list keeps every child, in order, none skipped |
| Ast.ConvertChildAt | mira_cli/parser.py:32-33 | the i-th converted child is the conversion of the i-th native child |
| Walker.KeptDirs | mira_cli/parser.py:149 | pruning keeps exactly the listed sub-directories whose paths pass the exclusion test |
| Walker.PruneThenDescend | mira_cli/parser.py:147-149 | descending into the pruned list collects the same files as skipping every excluded sub-directory |
| Walker.KeepFiles | mira_cli/parser.py:151-154 | the file loop keeps, in order, the files of the directory that pass the exclusion test |
| Walker.WalkFolder | mira_cli/parser.py:147-154 | the walk below a directory returns its kept files, then everything below each kept sub-directory, in listing order |
| Walker.Walk | mira_cli/parser.py:147-154 | the walk from the root returns the collection of the whole tree |
| Walker.KeptFilesSound | mira_cli/parser.py:151-154 | every kept file is a listed file of that directory and passes the exclusion test |
| Walker.CollectSound | mira_cli/parser.py:147-154 | every collected path names a file of the tree and passes the test, as does every directory above it |
| Walker.CollectDirsSound | mira_cli/parser.py:147-149 | every path collected from sub-directories lies in a listed sub-directory, and it and its ancestors pass the test |
| Walker.SubSound | mira_cli/parser.py:147-154 | a file collected below a kept sub-directory lies inside it, and the sub-directory and everything between it and the file pass the test |
| Walker.KeptFilesComplete | mira_cli/parser.py:151-154 | every listed file that passes the test is kept |
| Walker.CollectDirsComplete | mira_cli/parser.py:147-149 | everything collected below a kept sub-directory is collected |
| Walker.CollectComplete | mira_cli/parser.py:147-154 | every file of the tree that passes the test, under directories that all pass it, is collected |
| Walker.CollectedIffChainKept | mira_cli/parser.py:147-154 | a path is collected iff it names a file of the tree and it and every directory above it pass the exclusion test |
| Walker.PrunedDirectoryHidesSubtree | mira_cli/parser.py:149 | nothing below an excluded directory is collected, even files no pattern matches |
| Walker.SlashPatternNeverPrunes | mira_cli/parser.py:149 | a pattern ending in `/` never matches the path of a directory or file |
| Walker.JoinStartsWithHead | mira_cli/parser.py:64 | the relative path string of a nested entry starts with its top-level directory and `/` |
| Walker.KeptFilesAllKept | mira_cli/parser.py:151-154 | when every file of a directory passes the test, the file loop keeps all of them, in listing order |
| Walker.FlatFolderCollected | mira_cli/parser.py:147-154 | a directory without sub-directories whose files all pass the test yields exactly those files, in listing order |
| Walker.RootFileKept | mira_cli/parser.py:75-95 | with no ignore file, a root-level name the built-in patterns cannot reach is kept |
| Walker.RootFilesCollected | mira_cli/parser.py:75-95 | with no ignore file, a root holding only such files yields every one of them, in listing order |
| Walker.RootDirectoryPrunesSubdirectories | mira_cli/parser.py:149 | a built-in `dir/**` pattern prunes every sub-directory listed inside a root-level `dir`: none is left to walk, whatever the ignore file holds |
| Walker.RootDirectoryDefaultExcludes | mira_cli/parser.py:84-93 | a built-in `dir/**` pattern keeps every file below a root-level `dir` out of the walk, whatever the ignore file holds |
| Ingest.Deliver | mira_cli/parser.py:160-182 | a file is posted iff its extension is known and its parser is cached or buildable; an unposted file leaves the cache alone; the post carries the file's path, the mapped grammar and the converted tree; cached parsers are kept |
| Ingest.SendLoop | mira_cli/parser.py:156-199 | a run that stops early returns False; there is at most one attempt per file |
| Ingest.SendOne | mira_cli/parser.py:160-198 | one pass of the loop body: the attempt and the registry's new cache are those of `Deliver` on the old cache |
| Ingest.LoopAdvance | mira_cli/parser.py:156-199 | one loop iteration keeps the loop's flag and attempts a prefix of the whole run's result, or an unreachable server ends the run with exactly its result |
| Ingest.SendAll | mira_cli/parser.py:156-199 | the loop with its flag and early `return False` returns the flag and attempts of `SendLoop` from the registry's cache and leaves the registry holding the final cache |
| Ingest.ParseCodebaseAndSend | mira_cli/parser.py:71-199 | the routine's result and posts are those of the send loop, from an empty cache, over the files collected under the ignore-file patterns followed by the built-in ones |
| Ingest.SuccessIffEveryAttemptOk | mira_cli/parser.py:156-199 | the run returns True iff every delivery attempt it made ended in success |
| Ingest.AbortOnlyAtLastAttempt | mira_cli/parser.py:189-191 | the run stops early iff its last attempt met a connection error, and no earlier attempt did |
| Ingest.AbortIgnoresLaterFiles | mira_cli/parser.py:189-191 | after a connection error nothing more is attempted, whatever files follow |
| Ingest.RunContinuesPastFailures | mira_cli/parser.py:192-198 | a run that does not stop early is continued by the files that follow, from the cache it leaves |
| Ingest.SkippedFileChangesNothing | mira_cli/parser.py:164-167 | a file with an unknown extension, or whose parser is not cached and cannot be built, is skipped without a post and leaves the flag and the cache alone |
| Ingest.FilterMapAppend | mira_cli/parser.py:156-199 | the posts of two consecutive runs of files are the posts of the first followed by those of the second |
| Ingest.FailedDeliveryContinues | mira_cli/parser.py:192-198 | a rejected or otherwise failed post makes the run return False and the run continues with the next file |
| Ingest.EverySupportedFilePosted | mira_cli/parser.py:160-199 | with buildable parsers and no connection error, the run posts exactly the files with a known extension, each once, in order, and returns True iff every one of them succeeded |
| Ingest.PostingRun | mira_cli/parser.py:156-199 | for any per-file step that posts exactly the files with a known extension, the loop posts them all in order, never stops early, and returns True iff every post was accepted |
| Ingest.ConnectionFailureStopsRun | mira_cli/parser.py:189-191 | a connection error on the k-th file posts exactly the known-extension files up to and including it, none after, and returns False |
| Ingest.UnreachableFileAborts | mira_cli/parser.py:189-191 | a lone posted file that meets a connection error ends the run with False, its post being the only attempt |
| Ingest.NamedFilePosted | mira_cli/parser.py:160-167 | a root-level file `stem.ext` whose extension the table maps to a grammar is posted under its own name with that grammar |
| Ingest.NamedFileUnposted | mira_cli/parser.py:160-167 | a root-level file `stem.ext` whose extension is not in the table is not posted |
| Ingest.ScenarioCollected | tests/test_parser.py:78-86 | with no ignore file, the root holding `complex_python.py`, `ComplexJava.java` and `unsupported.txt` yields all three, in listing order |
| Ingest.ThreeJobsRun | tests/test_parser.py:86-98 | those three files, all buildable and all posts accepted, give True and exactly two posts: the Python file's with grammar `python`, then the Java file's with grammar `java` |
| Ingest.ThreeFileScenario | tests/test_parser.py:78-98 | walking that root with no ignore file and sending every collected file, all posts accepted, gives True and exactly the two posts above |

## Left out

- The tree-sitter library (`get_parser`, `parser.parse`) is foreign code. Parser construction succeeds or fails as an input, and the native tree is an input.
- The HTTP post and `raise_for_status` are network I/O. They are reduced to the per-file outcome.
- Console messages, the progress bar and the JSON debug dump are presentation only and are not modelled.
- Reading the ignore file and the source files is I/O. The ignore file is given as its lines. A failed read of a source file is one of the `Other` outcomes (`mira_cli/parser.py:170-171` sits inside the `try`).
- A failed read of the ignore file is not modelled. That read (`mira_cli/parser.py:44-46`) sits outside any `try`, so its error propagates out of the routine instead of becoming an outcome.
- The real file system and `os.walk` are replaced by a directory tree whose entries are listed in a fixed order. Symbolic links and walk errors are not modelled.
- UTF-8 decoding of node text is left out; text is taken as already decoded.
- `fnmatch` case normalisation and bracket classes are left out; only `*`, `?` and literal characters are modelled.
- `Ingest.Deliver`: the posted `filePath` is the path relative to the ingestion root. The source posts the root joined with it.
- `Ingest.Deliver`: an `Other` outcome is recorded with its payload even when the failure happened before the post (a read or parse error).
- `Ingest.Deliver`: a parser object is taken to be truthy, so a built parser is always used.
- `Ingest.SendLoop`: the contract states only the early-exit and attempt-count bounds. The loop's behaviour is stated by the lemmas that follow it in this table.
- `Languages.Suffix`: the contract says what a non-empty suffix looks like. When the suffix is non-empty is stated, for names of the form stem, dot, extension, by `Languages.SuffixOfStemAndExtension`.
- `Ignore.NormalizeAll`: the contract states only the one-pattern-per-line bound. Order and membership are stated by `Ignore.NormalizeAllAppend` and `Ignore.NormalizeAllMembers`.
- The other modules of the repository are not part of this model:
  - `mira_cli/backend_api.py`: network wrappers;
  - `mira_cli/cli.py`: command-line surface;
  - `mira_cli/shell.py`: interactive shell;
  - `mira_cli/config_loader.py`: configuration file reading;
  - `train/train.py`: model training.
