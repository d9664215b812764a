/**
 * The language registry: the static extension-to-grammar table, the file
 * suffix it is keyed by, and the per-run parser cache that `_get_parser`
 * fills lazily.
 */
module Languages {

  import opened Wrappers

  /** Extension (with its leading dot, case-sensitive) to grammar name. */
  const LanguageMap: map<string, string> := map[
    ".java" := "java",
    ".py" := "python",
    ".js" := "javascript",
    ".ts" := "typescript",
    ".c" := "c",
    ".cpp" := "cpp",
    ".go" := "go",
    ".rs" := "rust",
    ".php" := "php",
    ".rb" := "ruby",
    ".cs" := "c_sharp",
    ".swift" := "swift",
    ".kt" := "kotlin",
    ".scala" := "scala",
    ".html" := "html",
    ".css" := "css",
    ".json" := "json",
    ".xml" := "xml",
    ".yml" := "yaml",
    ".yaml" := "yaml",
    ".md" := "markdown",
    ".sh" := "bash",
    ".sql" := "sql",
    ".vue" := "vue",
    ".svelte" := "svelte",
    ".jsx" := "javascript",
    ".tsx" := "typescript"
  ]

  /**
   * `language_map.get(ext)`. Every grammar name in the table is non-empty,
   * so the source's falsiness test on the looked-up name is exactly the test
   * for an unknown extension.
   */
  function LanguageOf(ext: string): (r: Option<string>)
    ensures r.Some? <==> ext in LanguageMap
    ensures r.Some? ==> r.value == LanguageMap[ext] && r.value != ""
  {
    if ext in LanguageMap then Some(LanguageMap[ext]) else None
  }

  /** Index of the last `.` of `name`, if it has one. */
  function LastDot(name: string): (r: Option<nat>)
    ensures r.Some? ==> r.value < |name| && name[r.value] == '.'
    ensures r.Some? ==> forall k :: r.value < k < |name| ==> name[k] != '.'
    ensures r.None? ==> forall k :: 0 <= k < |name| ==> name[k] != '.'
  {
    if name == [] then None
    else if name[|name| - 1] == '.' then Some(|name| - 1)
    else LastDot(name[..|name| - 1])
  }

  /**
   * `PurePath.suffix` of a file name: from its last `.` to the end, provided
   * that dot is neither the first nor the last character; otherwise empty.
   */
  function Suffix(name: string): (r: string)
    ensures r != [] ==> 2 <= |r| < |name| && r == name[|name| - |r|..] && r[0] == '.'
    ensures r != [] ==> forall k :: 1 <= k < |r| ==> r[k] != '.'
  {
    match LastDot(name)
    case Some(i) => if 0 < i < |name| - 1 then name[i..] else ""
    case None => ""
  }

  /** A name made of a non-empty stem, a dot and a non-empty dot-free extension has that extension as its suffix. */
  lemma SuffixOfStemAndExtension(stem: string, ext: string)
    requires stem != [] && ext != []
    requires forall k :: 0 <= k < |ext| ==> ext[k] != '.'
    ensures Suffix(stem + "." + ext) == "." + ext
  {
    var name := stem + "." + ext;
    var i := |stem|;
    assert name[i] == '.';
    assert forall k :: i < k < |name| ==> name[k] == ext[k - i - 1];
    var d := LastDot(name);
    assert d.Some? && d.value == i;
    assert name[i..] == "." + ext;
  }

  /** The parser object of one grammar; opaque to this model. */
  datatype ParserHandle = ParserHandle(id: nat)

  /** What `_get_parser` returns when it succeeds: the parser and the grammar name. */
  datatype Binding = Binding(parser: ParserHandle, language: string)

  /** The answer of one `_get_parser` call and the cache as that call leaves it. */
  datatype Resolution = Resolution(found: Option<Binding>, cache: map<string, ParserHandle>)

  /**
   * `_get_parser(ext)` against the cache `cache`. `build` is what the grammar
   * library would answer if asked to construct the parser now: None when the
   * construction raises.
   */
  function Resolve(cache: map<string, ParserHandle>, ext: string, build: Option<ParserHandle>): (r: Resolution)
    // the call fails exactly for an unknown extension, or for a language that is not cached and cannot be built
    ensures r.found.None? <==> ext !in LanguageMap || (LanguageMap[ext] !in cache && build.None?)
    // a failed call leaves the cache as it was
    ensures r.found.None? ==> r.cache == cache
    // a successful call returns the mapped language with the parser the cache now holds for it
    ensures r.found.Some? ==>
      && r.found.value.language == LanguageMap[ext]
      && r.found.value.language in r.cache
      && r.cache[r.found.value.language] == r.found.value.parser
    // a cached parser is reused rather than constructed again
    ensures ext in LanguageMap && LanguageMap[ext] in cache ==> r.found == Some(Binding(cache[LanguageMap[ext]], LanguageMap[ext]))
    // the cache only grows, by the one language just resolved, and never replaces an entry
    ensures r.cache.Keys <= cache.Keys + (if ext in LanguageMap then {LanguageMap[ext]} else {})
    ensures forall l :: l in cache ==> l in r.cache && r.cache[l] == cache[l]
  {
    match LanguageOf(ext)
    case None => Resolution(None, cache)
    case Some(lang) =>
      if lang in cache then Resolution(Some(Binding(cache[lang], lang)), cache)
      else
        match build
        case None => Resolution(None, cache)
        case Some(h) => Resolution(Some(Binding(h, lang)), cache[lang := h])
  }

  /**
   * Memoisation: once a language has been resolved, later requests for it,
   * through any extension that maps to it, get the same parser whatever the
   * library would build, and leave the cache alone.
   */
  lemma ResolvedParserIsReused(cache: map<string, ParserHandle>, ext: string, build: Option<ParserHandle>,
                               ext': string, build': Option<ParserHandle>)
    requires Resolve(cache, ext, build).found.Some?
    requires ext' in LanguageMap && LanguageMap[ext'] == LanguageMap[ext]
    ensures var first := Resolve(cache, ext, build);
            var again := Resolve(first.cache, ext', build');
            again.found == first.found && again.cache == first.cache
  {
  }

  /**
   * A construction failure is not remembered: the cache is left as it was,
   * so the next request for the same extension tries to construct again and
   * succeeds if the library now can.
   */
  lemma FailedConstructionIsRetried(cache: map<string, ParserHandle>, ext: string, h: ParserHandle)
    requires ext in LanguageMap && LanguageMap[ext] !in cache
    ensures Resolve(cache, ext, None).found.None?
    ensures Resolve(Resolve(cache, ext, None).cache, ext, Some(h)).found == Some(Binding(h, LanguageMap[ext]))
  {
  }

  /**
   * The parser cache of one ingestion run (`parsers` in the source). The
   * ghost log `built` records every successful construction, in order.
   */
  class ParserRegistry {

    var parsers: map<string, ParserHandle>
    ghost var built: seq<string>

    /** Only mapped grammars are cached, each constructed exactly once. */
    ghost predicate Valid()
      reads this
    {
      && (forall l :: l in parsers ==> l in LanguageMap.Values)
      && (forall l :: l in parsers <==> l in built)
      && (forall i, j :: 0 <= i < j < |built| ==> built[i] != built[j])
    }

    constructor ()
      ensures Valid()
      ensures parsers == map[] && built == []
    {
      parsers := map[];
      built := [];
    }

    /**
     * `_get_parser(ext)`; `build` is the library's answer should the parser
     * have to be constructed during this call.
     */
    method GetParser(ext: string, build: Option<ParserHandle>) returns (found: Option<Binding>)
      requires Valid()
      modifies this
      ensures Valid()
      ensures Resolution(found, parsers) == Resolve(old(parsers), ext, build)
      ensures built == (if found.Some? && found.value.language !in old(parsers)
                        then old(built) + [found.value.language] else old(built))
    {
      var lang := LanguageOf(ext);
      if lang.None? {
        return None;
      }
      var name := lang.value;
      if name !in parsers {
        match build
        case None =>
          return None;
        case Some(h) =>
          parsers := parsers[name := h];
          built := built + [name];
      }
      found := Some(Binding(parsers[name], name));
    }
  }
}
