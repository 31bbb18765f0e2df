/**
 * Dictionary resolution of the Hebrew analysis plugin.
 *
 * At construction the plugin checks the caller's permission, chooses a
 * dictionary loader (the commercial one when it can be found and built,
 * HSpell otherwise), tries the path named by the `hebrew.dict.path` setting,
 * then walks the loader's candidate paths in order, and stores the first
 * dictionary that loads in a process-wide slot. If nothing loads, the
 * construction throws. The `hebrew_lemmatizer` token filter, the tokenizer
 * and the analyzers it registers read that slot when the host instantiates
 * them; the `niqqud` and `add_suffix` filters take no dictionary.
 *
 * The filesystem, the class lookup and the security manager are inputs.
 */
module HebrewAnalysisPlugin {

  datatype Option<T> = None | Some(value: T)

  type Path = string

  /** An opaque, successfully parsed HebMorph dictionary. */
  datatype Dict = Dict(id: nat)

  /** The two loader implementations. */
  datatype LoaderKind = Enhanced | HSpell

  /** A dictionary loader: its implementation and its ordered candidate paths. */
  datatype Loader = Loader(kind: LoaderKind, candidates: seq<Path>)

  /**
   * What a path that exists holds, as each loader sees it: `Some(d)` when
   * that loader's `loadDictionaryFromPath` returns `d`, `None` when it throws
   * an IOException (or yields nothing).
   */
  datatype FileEntry = FileEntry(asEnhanced: Option<Dict>, asHSpell: Option<Dict>)

  /** The filesystem: a path that is not a key does not exist. */
  type FileSystem = map<Path, FileEntry>

  /** Node settings, as key/value strings. */
  type Settings = map<string, string>

  const DictPathSetting: string := "hebrew.dict.path"
  const NoDictionaryMessage: string := "Could not load any dictionary. Aborting!"

  /** The outcome of looking up the commercial loader class by reflection. */
  datatype EnhancedProbe =
    | ClassNotFound
      // the class is there but its no-arg constructor is missing, not
      // accessible, abstract or throws
    | NoUsableConstructor
    | Instantiable(paths: seq<Path>)

  /** Whether a security manager is installed and what the caller holds. */
  datatype SecurityContext = NoSecurityManager | Managed(hasSpecialPermission: bool)

  datatype Exception = SecurityException | IllegalArgumentException(message: string)

  datatype Construction = Constructed(loader: Loader, dict: Dict) | Failed(error: Exception)

  // ---------------------------------------------------------------------
  // Loader selection
  // ---------------------------------------------------------------------

  /**
   * The loader the constructor settles on. The commercial loader is used
   * exactly when its class is found and its constructor succeeds; every
   * other probe outcome falls back to HSpell, and none is an error.
   */
  function SelectLoader(probe: EnhancedProbe, hspellPaths: seq<Path>): (l: Loader)
    ensures l.kind == Enhanced <==> probe.Instantiable?
    ensures l.kind == HSpell ==> l.candidates == hspellPaths
    ensures l.kind == Enhanced ==> l.candidates == probe.paths
  {
    match probe
    case Instantiable(paths) => Loader(Enhanced, paths)
    case _ => Loader(HSpell, hspellPaths)
  }

  // ---------------------------------------------------------------------
  // One load attempt (LoadDictAction.run)
  // ---------------------------------------------------------------------

  function LoadAs(kind: LoaderKind, e: FileEntry): Option<Dict>
  {
    match kind
    case Enhanced => e.asEnhanced
    case HSpell => e.asHSpell
  }

  /**
   * A single attempt: a dictionary only when the path exists and the
   * loader parses it; a missing path and a failing load both give `None`,
   * and nothing escapes.
   */
  function Attempt(loader: Loader, fs: FileSystem, path: Path): (r: Option<Dict>)
    ensures path !in fs ==> r == None
    ensures r.Some? ==> path in fs && LoadAs(loader.kind, fs[path]) == r
    ensures path in fs && LoadAs(loader.kind, fs[path]) == None ==> r == None
    ensures path in fs && LoadAs(loader.kind, fs[path]).Some? ==> r == LoadAs(loader.kind, fs[path])
  {
    if path in fs then LoadAs(loader.kind, fs[path]) else None
  }

  // ---------------------------------------------------------------------
  // Resolution: the override path, then the candidate list
  // ---------------------------------------------------------------------

  function Lookup(settings: Settings, key: string): Option<string>
  {
    if key in settings then Some(settings[key]) else None
  }

  /** The value of `hebrew.dict.path`, absent when the setting is not set. */
  function OverridePath(settings: Settings): Option<Path>
  {
    Lookup(settings, DictPathSetting)
  }

  /** The override is attempted only when it is present and non-empty. */
  predicate OverrideUsable(o: Option<Path>)
  {
    o.Some? && o.value != ""
  }

  /** The override as it is handed to a load attempt: once when usable, otherwise never. */
  function OverrideTried(o: Option<Path>): seq<Path>
  {
    if OverrideUsable(o) then [o.value] else []
  }

  /** The first dictionary the candidate paths yield, in order. */
  function Search(loader: Loader, fs: FileSystem, paths: seq<Path>): Option<Dict>
  {
    if paths == [] then None
    else match Attempt(loader, fs, paths[0])
      case Some(d) => Some(d)
      case None => Search(loader, fs, paths[1..])
  }

  /** The candidate paths that the search hands to a load attempt, in order. */
  function SearchTrace(loader: Loader, fs: FileSystem, paths: seq<Path>): seq<Path>
  {
    if paths == [] then []
    else if Attempt(loader, fs, paths[0]).Some? then [paths[0]]
    else [paths[0]] + SearchTrace(loader, fs, paths[1..])
  }

  predicate OverrideLoads(o: Option<Path>, loader: Loader, fs: FileSystem)
  {
    OverrideUsable(o) && Attempt(loader, fs, o.value).Some?
  }

  /** The dictionary that resolution settles on, if any. */
  function Resolve(o: Option<Path>, loader: Loader, fs: FileSystem): Option<Dict>
  {
    if OverrideLoads(o, loader, fs) then Attempt(loader, fs, o.value)
    else Search(loader, fs, loader.candidates)
  }

  /** Every path resolution hands to a load attempt, in order. */
  function Tried(o: Option<Path>, loader: Loader, fs: FileSystem): seq<Path>
  {
    OverrideTried(o)
    + (if OverrideLoads(o, loader, fs) then [] else SearchTrace(loader, fs, loader.candidates))
  }

  // ---------------------------------------------------------------------
  // The whole constructor, as a function of its inputs
  // ---------------------------------------------------------------------

  predicate Permitted(security: SecurityContext)
  {
    security.NoSecurityManager? || security.hasSpecialPermission
  }

  function Startup(settings: Settings, security: SecurityContext, probe: EnhancedProbe,
                   hspellPaths: seq<Path>, fs: FileSystem): Construction
  {
    if !Permitted(security) then Failed(SecurityException)
    else
      var loader := SelectLoader(probe, hspellPaths);
      match Resolve(OverridePath(settings), loader, fs)
      case Some(d) => Constructed(loader, d)
      case None => Failed(IllegalArgumentException(NoDictionaryMessage))
  }

  function StartupTried(settings: Settings, security: SecurityContext, probe: EnhancedProbe,
                        hspellPaths: seq<Path>, fs: FileSystem): seq<Path>
  {
    if !Permitted(security) then []
    else Tried(OverridePath(settings), SelectLoader(probe, hspellPaths), fs)
  }

  // ---------------------------------------------------------------------
  // Properties of the candidate search
  // ---------------------------------------------------------------------

  /**
   * One step of the search, at candidate `i`, with the paths tried so far
   * (`before`, then the first `i` candidates) extended by candidate `i`.
   */
  lemma SearchStep(loader: Loader, fs: FileSystem, before: seq<Path>, paths: seq<Path>, i: nat)
    requires i < |paths|
    ensures (before + paths[..i]) + [paths[i]] == before + paths[..i + 1]
    ensures paths[..i] + ([paths[i]] + SearchTrace(loader, fs, paths[i + 1..]))
      == paths[..i + 1] + SearchTrace(loader, fs, paths[i + 1..])
    ensures Search(loader, fs, paths[i..])
      == if Attempt(loader, fs, paths[i]).Some? then Attempt(loader, fs, paths[i]) else Search(loader, fs, paths[i + 1..])
    ensures SearchTrace(loader, fs, paths[i..])
      == [paths[i]] + if Attempt(loader, fs, paths[i]).Some? then [] else SearchTrace(loader, fs, paths[i + 1..])
  {
    assert paths[i..][1..] == paths[i + 1..];
  }

  /** Candidates that yield nothing are skipped: the search goes on past them. */
  lemma {:induction false} SearchSkipsFailures(loader: Loader, fs: FileSystem, paths: seq<Path>, i: nat)
    requires i <= |paths|
    requires forall j :: 0 <= j < i ==> Attempt(loader, fs, paths[j]).None?
    ensures Search(loader, fs, paths) == Search(loader, fs, paths[i..])
    ensures SearchTrace(loader, fs, paths) == paths[..i] + SearchTrace(loader, fs, paths[i..])
  {
    if i > 0 {
      assert paths[1..][i - 1..] == paths[i..];
      SearchSkipsFailures(loader, fs, paths[1..], i - 1);
      assert paths[..i] == [paths[0]] + paths[1..][..i - 1];
    }
  }

  /**
   * First match wins: when candidate `i` loads and every earlier one did
   * not, the search returns candidate `i`'s dictionary and tries exactly
   * the candidates up to and including `i`.
   */
  lemma SearchFirstHit(loader: Loader, fs: FileSystem, paths: seq<Path>, i: nat)
    requires i < |paths|
    requires forall j :: 0 <= j < i ==> Attempt(loader, fs, paths[j]).None?
    requires Attempt(loader, fs, paths[i]).Some?
    ensures Search(loader, fs, paths) == Attempt(loader, fs, paths[i])
    ensures SearchTrace(loader, fs, paths) == paths[..i + 1]
  {
    SearchSkipsFailures(loader, fs, paths, i);
    assert paths[..i] + [paths[i]] == paths[..i + 1];
  }

  /**
   * Conversely, a dictionary found by the search comes from the
   * lowest-index candidate that loads.
   */
  lemma {:induction false} SearchResultIsFirstHit(loader: Loader, fs: FileSystem, paths: seq<Path>)
    requires Search(loader, fs, paths).Some?
    ensures exists i :: (0 <= i < |paths|
      && Attempt(loader, fs, paths[i]) == Search(loader, fs, paths)
      && (forall j :: 0 <= j < i ==> Attempt(loader, fs, paths[j]).None?))
  {
    if Attempt(loader, fs, paths[0]).Some? {
      assert Attempt(loader, fs, paths[0]) == Search(loader, fs, paths);
    } else {
      SearchResultIsFirstHit(loader, fs, paths[1..]);
      var i :| 0 <= i < |paths[1..]|
        && Attempt(loader, fs, paths[1..][i]) == Search(loader, fs, paths[1..])
        && (forall j :: 0 <= j < i ==> Attempt(loader, fs, paths[1..][j]).None?);
      assert forall j :: 0 <= j < i + 1 ==> Attempt(loader, fs, paths[j]).None? by {
        forall j | 0 <= j < i + 1 ensures Attempt(loader, fs, paths[j]).None? {
          if j > 0 { assert paths[j] == paths[1..][j - 1]; }
        }
      }
      assert Attempt(loader, fs, paths[i + 1]) == Search(loader, fs, paths);
    }
  }

  /**
   * The search finds nothing exactly when every candidate yields nothing,
   * and then it has tried every candidate.
   */
  lemma {:induction false} SearchExhausted(loader: Loader, fs: FileSystem, paths: seq<Path>)
    ensures Search(loader, fs, paths).None?
        <==> forall i :: 0 <= i < |paths| ==> Attempt(loader, fs, paths[i]).None?
    ensures Search(loader, fs, paths).None? ==> SearchTrace(loader, fs, paths) == paths
  {
    if forall i :: 0 <= i < |paths| ==> Attempt(loader, fs, paths[i]).None? {
      SearchSkipsFailures(loader, fs, paths, |paths|);
      assert paths[|paths|..] == [] && paths[..|paths|] == paths;
    } else if Search(loader, fs, paths).Some? {
    } else {
      var k :| 0 <= k < |paths| && Attempt(loader, fs, paths[k]).Some?;
      FirstHitExists(loader, fs, paths, k);
    }
  }

  /** Some candidate loads, so there is a lowest one that does, and the search finds it. */
  lemma {:induction false} FirstHitExists(loader: Loader, fs: FileSystem, paths: seq<Path>, k: nat)
    requires k < |paths| && Attempt(loader, fs, paths[k]).Some?
    ensures Search(loader, fs, paths).Some?
  {
    if Attempt(loader, fs, paths[0]).None? {
      assert paths[1..][k - 1] == paths[k];
      FirstHitExists(loader, fs, paths[1..], k - 1);
    }
  }

  // ---------------------------------------------------------------------
  // Properties of resolution
  // ---------------------------------------------------------------------

  /**
   * Override precedence: a present, non-empty override that loads is the
   * result, and it is the only path tried.
   */
  lemma OverridePrecedence(o: Option<Path>, loader: Loader, fs: FileSystem)
    requires OverrideUsable(o)
    requires Attempt(loader, fs, o.value).Some?
    ensures Resolve(o, loader, fs) == Attempt(loader, fs, o.value)
    ensures Tried(o, loader, fs) == [o.value]
  {
  }

  /** An absent or empty override is never attempted; resolution is the candidate search. */
  lemma UnusableOverrideSkipped(o: Option<Path>, loader: Loader, fs: FileSystem)
    requires !OverrideUsable(o)
    ensures Resolve(o, loader, fs) == Search(loader, fs, loader.candidates)
    ensures Tried(o, loader, fs) == SearchTrace(loader, fs, loader.candidates)
  {
  }

  /** An override that yields nothing falls through to the candidates instead of failing. */
  lemma FailedOverrideFallsThrough(o: Option<Path>, loader: Loader, fs: FileSystem)
    requires OverrideUsable(o)
    requires Attempt(loader, fs, o.value).None?
    ensures Resolve(o, loader, fs) == Search(loader, fs, loader.candidates)
    ensures Tried(o, loader, fs) == [o.value] + SearchTrace(loader, fs, loader.candidates)
  {
  }

  /**
   * When the override does not load, the resolved dictionary is that of
   * the lowest-index candidate that loads, and every earlier candidate
   * yielded nothing.
   */
  lemma ResolvedFromFirstCandidate(o: Option<Path>, loader: Loader, fs: FileSystem)
    requires !OverrideLoads(o, loader, fs)
    requires Resolve(o, loader, fs).Some?
    ensures exists i :: (0 <= i < |loader.candidates|
      && Attempt(loader, fs, loader.candidates[i]) == Resolve(o, loader, fs)
      && (forall j :: 0 <= j < i ==> Attempt(loader, fs, loader.candidates[j]).None?))
  {
    SearchResultIsFirstHit(loader, fs, loader.candidates);
  }

  /**
   * Resolution fails exactly when the override (if it is attempted) and
   * every candidate yield nothing; it has then tried every candidate.
   */
  lemma ResolveFails(o: Option<Path>, loader: Loader, fs: FileSystem)
    ensures Resolve(o, loader, fs).None?
        <==> !OverrideLoads(o, loader, fs)
             && forall i :: 0 <= i < |loader.candidates| ==> Attempt(loader, fs, loader.candidates[i]).None?
    ensures Resolve(o, loader, fs).None?
        ==> Tried(o, loader, fs) == OverrideTried(o) + loader.candidates
  {
    SearchExhausted(loader, fs, loader.candidates);
  }

  /**
   * Construction fails with a SecurityException, before any loader lookup
   * or load attempt, exactly when a security manager is installed and the
   * caller lacks the special permission.
   */
  lemma DeniedBeforeAnyAttempt(settings: Settings, security: SecurityContext, probe: EnhancedProbe,
                               hspellPaths: seq<Path>, fs: FileSystem)
    ensures Startup(settings, security, probe, hspellPaths, fs) == Failed(SecurityException)
        <==> security.Managed? && !security.hasSpecialPermission
    ensures !Permitted(security) ==> StartupTried(settings, security, probe, hspellPaths, fs) == []
  {
  }

  /**
   * A permitted construction throws IllegalArgumentException exactly when
   * neither the override nor any candidate of the selected loader loads.
   */
  lemma StartupFailsOnlyWhenNothingLoads(settings: Settings, security: SecurityContext, probe: EnhancedProbe,
                                         hspellPaths: seq<Path>, fs: FileSystem)
    requires Permitted(security)
    ensures var loader := SelectLoader(probe, hspellPaths);
      var nothingLoads := !OverrideLoads(OverridePath(settings), loader, fs)
        && forall i :: 0 <= i < |loader.candidates| ==> Attempt(loader, fs, loader.candidates[i]).None?;
      Startup(settings, security, probe, hspellPaths, fs).Failed? <==> nothingLoads
    ensures Startup(settings, security, probe, hspellPaths, fs).Failed?
        ==> Startup(settings, security, probe, hspellPaths, fs).error == IllegalArgumentException(NoDictionaryMessage)
  {
    ResolveFails(OverridePath(settings), SelectLoader(probe, hspellPaths), fs);
  }

  /** The construction when the override loads. */
  lemma StartupByOverride(settings: Settings, security: SecurityContext, probe: EnhancedProbe,
                          hspellPaths: seq<Path>, fs: FileSystem, loader: Loader)
    requires Permitted(security) && loader == SelectLoader(probe, hspellPaths)
    requires OverrideLoads(OverridePath(settings), loader, fs)
    ensures Startup(settings, security, probe, hspellPaths, fs)
      == Constructed(loader, Attempt(loader, fs, OverridePath(settings).value).value)
    ensures StartupTried(settings, security, probe, hspellPaths, fs) == [OverridePath(settings).value]
  {
  }

  /** The construction when the override does not load: it is the candidate search's. */
  lemma StartupBySearch(settings: Settings, security: SecurityContext, probe: EnhancedProbe,
                        hspellPaths: seq<Path>, fs: FileSystem, loader: Loader)
    requires Permitted(security) && loader == SelectLoader(probe, hspellPaths)
    requires !OverrideLoads(OverridePath(settings), loader, fs)
    ensures Startup(settings, security, probe, hspellPaths, fs)
      == match Search(loader, fs, loader.candidates)
         case Some(d) => Constructed(loader, d)
         case None => Failed(IllegalArgumentException(NoDictionaryMessage))
    ensures StartupTried(settings, security, probe, hspellPaths, fs)
      == OverrideTried(OverridePath(settings)) + SearchTrace(loader, fs, loader.candidates)
  {
  }

  // ---------------------------------------------------------------------
  // Registration of the analysis components
  // ---------------------------------------------------------------------

  datatype Component =
    | HebrewLemmatizerFilter | NiqqudFilter | AddSuffixFilter
    | HebrewTokenizer
    | HebrewIndexingAnalyzer | HebrewQueryAnalyzer | HebrewQueryLightAnalyzer | HebrewExactAnalyzer

  predicate IsTokenFilter(c: Component)
  {
    c.HebrewLemmatizerFilter? || c.NiqqudFilter? || c.AddSuffixFilter?
  }

  predicate IsAnalyzer(c: Component)
  {
    c.HebrewIndexingAnalyzer? || c.HebrewQueryAnalyzer? || c.HebrewQueryLightAnalyzer? || c.HebrewExactAnalyzer?
  }

  /** The niqqud and add_suffix filters are the only components that do not take the dictionary. */
  predicate ReadsDictionary(c: Component)
  {
    !(c.NiqqudFilter? || c.AddSuffixFilter?)
  }

  /** A factory as the host receives it: the component and the dictionary handed to it. */
  datatype Factory = Factory(component: Component, dict: Option<Dict>)

  function TokenFilters(): (m: map<string, Component>)
    ensures m.Keys == {"hebrew_lemmatizer", "niqqud", "add_suffix"}
    ensures forall n :: n in m ==> IsTokenFilter(m[n])
    ensures forall n :: n in m ==> (ReadsDictionary(m[n]) <==> n == "hebrew_lemmatizer")
  {
    map["hebrew_lemmatizer" := HebrewLemmatizerFilter, "niqqud" := NiqqudFilter, "add_suffix" := AddSuffixFilter]
  }

  function Tokenizers(): (m: map<string, Component>)
    ensures m.Keys == {"hebrew"}
    ensures forall n :: n in m ==> m[n] == HebrewTokenizer && ReadsDictionary(m[n])
  {
    map["hebrew" := HebrewTokenizer]
  }

  function Analyzers(): (m: map<string, Component>)
    ensures m.Keys == {"hebrew", "hebrew_query", "hebrew_query_light", "hebrew_exact"}
    ensures forall n :: n in m ==> IsAnalyzer(m[n]) && ReadsDictionary(m[n])
  {
    map["hebrew" := HebrewIndexingAnalyzer, "hebrew_query" := HebrewQueryAnalyzer,
        "hebrew_query_light" := HebrewQueryLightAnalyzer, "hebrew_exact" := HebrewExactAnalyzer]
  }

  /** No component is registered under two names or in two of the sets. */
  lemma RegistrationsDistinct()
    ensures forall a, b :: a in TokenFilters() && b in TokenFilters() && a != b ==> TokenFilters()[a] != TokenFilters()[b]
    ensures forall a, b :: a in Analyzers() && b in Analyzers() && a != b ==> Analyzers()[a] != Analyzers()[b]
    ensures forall a, b :: a in Analyzers() && b in Tokenizers() ==> Analyzers()[a] != Tokenizers()[b]
  {
  }

  // ---------------------------------------------------------------------
  // The static state of the plugin class and its constructor
  // ---------------------------------------------------------------------

  /** The process-wide state the plugin class keeps in static fields. */
  class Statics {
    /** The loaded dictionary (`null` until a construction succeeds). */
    var dict: Option<Dict>
    /** How many times `dict` has been assigned. */
    ghost var Assignments: nat
    /** Every path handed to a load attempt so far, in order. */
    ghost var Attempted: seq<Path>

    constructor ()
      ensures dict == None && Assignments == 0 && Attempted == []
    {
      dict := None;
      Assignments := 0;
      Attempted := [];
    }

    /** The shared dictionary, as the components read it. */
    function GetDictionary(): Option<Dict>
      reads this
    {
      dict
    }

    /**
     * The factory a provider builds when the host invokes it: the
     * dictionary-backed components receive the slot's contents at that
     * moment, the others nothing.
     */
    function Provide(c: Component): Factory
      reads this
    {
      Factory(c, if ReadsDictionary(c) then dict else None)
    }

    /**
     * The plugin's constructor. It throws on a missing permission or when
     * nothing loads; otherwise it stores the resolved dictionary, with one
     * assignment, and returns.
     */
    method Construct(settings: Settings, security: SecurityContext, probe: EnhancedProbe,
                     hspellPaths: seq<Path>, fs: FileSystem) returns (r: Construction)
      modifies this
      ensures r == Startup(settings, security, probe, hspellPaths, fs)
      ensures Attempted == old(Attempted) + StartupTried(settings, security, probe, hspellPaths, fs)
      ensures r.Constructed? ==> dict == Some(r.dict) && Assignments == old(Assignments) + 1
      ensures r.Failed? ==> dict == old(dict) && Assignments == old(Assignments)
      ensures r.Constructed? ==> GetDictionary() == Some(r.dict) && EveryProviderGets(this, Some(r.dict))
    {
      if !Permitted(security) {
        return Failed(SecurityException);
      }
      var loader := SelectLoader(probe, hspellPaths);
      var pathFromSettings := Lookup(settings, DictPathSetting);
      if pathFromSettings.Some? && pathFromSettings.value != "" {
        var tmp := Attempt(loader, fs, pathFromSettings.value);
        Attempted := Attempted + [pathFromSettings.value];
        if tmp.Some? {
          dict := tmp;
          Assignments := Assignments + 1;
          StartupByOverride(settings, security, probe, hspellPaths, fs, loader);
          ProvidersByName(this);
          return Constructed(loader, tmp.value);
        }
      }
      var loaded := SearchCandidates(loader, fs);
      StartupBySearch(settings, security, probe, hspellPaths, fs, loader);
      if loaded.None? {
        return Failed(IllegalArgumentException(NoDictionaryMessage));
      }
      ProvidersByName(this);
      return Constructed(loader, loaded.value);
    }

    /**
     * The candidate loop of the constructor: the candidates are tried in
     * order, the first dictionary that loads is assigned to the slot, once,
     * and no later candidate is tried.
     */
    method SearchCandidates(loader: Loader, fs: FileSystem) returns (loaded: Option<Dict>)
      modifies this
      ensures loaded == Search(loader, fs, loader.candidates)
      ensures Attempted == old(Attempted) + SearchTrace(loader, fs, loader.candidates)
      ensures loaded.Some? ==> dict == loaded && Assignments == old(Assignments) + 1
      ensures loaded.None? ==> dict == old(dict) && Assignments == old(Assignments)
    {
      ghost var candidates := loader.candidates;
      for i := 0 to |loader.candidates|
        invariant Search(loader, fs, candidates) == Search(loader, fs, candidates[i..])
        invariant SearchTrace(loader, fs, candidates) == candidates[..i] + SearchTrace(loader, fs, candidates[i..])
        invariant Attempted == old(Attempted) + candidates[..i]
        invariant dict == old(dict) && Assignments == old(Assignments)
      {
        var tmp := Attempt(loader, fs, loader.candidates[i]);
        Attempted := Attempted + [loader.candidates[i]];
        SearchStep(loader, fs, old(Attempted), candidates, i);
        if tmp.Some? {
          dict := tmp;
          Assignments := Assignments + 1;
          return tmp;
        }
      }
      assert candidates[|candidates|..] == [] && candidates[..|candidates|] == candidates;
      return None;
    }
  }

  /**
   * What each registered provider hands to the component it builds, given
   * the slot's contents `d`: the dictionary for `hebrew_lemmatizer`, the
   * tokenizer and every analyzer; nothing for the other token filters.
   */
  ghost predicate EveryProviderGets(s: Statics, d: Option<Dict>)
    reads s
  {
    && (forall n :: n in TokenFilters() ==>
          s.Provide(TokenFilters()[n]).dict == (if n == "hebrew_lemmatizer" then d else None))
    && (forall n :: n in Tokenizers() ==> s.Provide(Tokenizers()[n]).dict == d)
    && (forall n :: n in Analyzers() ==> s.Provide(Analyzers()[n]).dict == d)
  }

  /**
   * The providers, looked up by their registered names, read the slot at
   * the moment they are invoked: each dictionary-backed one passes on what
   * `getDictionary` returns then, and each builds the component registered
   * under its name.
   */
  lemma ProvidersByName(s: Statics)
    ensures EveryProviderGets(s, s.GetDictionary())
    ensures forall n :: n in TokenFilters() ==> s.Provide(TokenFilters()[n]).component == TokenFilters()[n]
    ensures forall n :: n in Tokenizers() ==> s.Provide(Tokenizers()[n]).component == Tokenizers()[n]
    ensures forall n :: n in Analyzers() ==> s.Provide(Analyzers()[n]).component == Analyzers()[n]
  {
  }
}
