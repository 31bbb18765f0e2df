/**
 * Concrete start-ups of the plugin: an override that loads, a candidate
 * list with a missing and an unreadable entry before one that loads, a
 * start-up where nothing loads, and the fallback to HSpell when the
 * commercial loader class is absent.
 */
module Scenarios {
  import opened HebrewAnalysisPlugin

  const Custom: Path := "/dict/custom"
  const A: Path := "/a"
  const B: Path := "/b"
  const C: Path := "/c"

  /** A file both loaders parse into `d`. */
  function Readable(d: Dict): FileEntry
  {
    FileEntry(Some(d), Some(d))
  }

  /** A file that exists but that both loaders fail on. */
  const Unreadable: FileEntry := FileEntry(None, None)

  /** The override loads, so it is the only path tried and its dictionary is used. */
  lemma OverrideScenario(d: Dict, e: Dict)
    ensures var settings := map[DictPathSetting := Custom];
      var fs := map[Custom := Readable(d), A := Readable(e)];
      && Startup(settings, NoSecurityManager, ClassNotFound, [A], fs) == Constructed(Loader(HSpell, [A]), d)
      && StartupTried(settings, NoSecurityManager, ClassNotFound, [A], fs) == [Custom]
  {
    var settings := map[DictPathSetting := Custom];
    assert OverridePath(settings) == Some(Custom);
  }

  /**
   * An empty override is skipped; "/a" is missing and "/b" fails to load,
   * so the dictionary is the one at "/c", after all three were tried.
   */
  lemma CandidateScenario(d: Dict)
    ensures var settings := map[DictPathSetting := ""];
      var fs := map[B := Unreadable, C := Readable(d)];
      && Startup(settings, NoSecurityManager, ClassNotFound, [A, B, C], fs) == Constructed(Loader(HSpell, [A, B, C]), d)
      && StartupTried(settings, NoSecurityManager, ClassNotFound, [A, B, C], fs) == [A, B, C]
  {
    var settings := map[DictPathSetting := ""];
    var fs := map[B := Unreadable, C := Readable(d)];
    var loader := Loader(HSpell, [A, B, C]);
    assert OverridePath(settings) == Some("");
    assert A !in fs;
    SearchFirstHit(loader, fs, [A, B, C], 2);
  }

  /** Every candidate is missing or unreadable: the construction aborts. */
  lemma ExhaustedScenario()
    ensures var fs := map[B := Unreadable];
      Startup(map[], NoSecurityManager, ClassNotFound, [A, B], fs)
        == Failed(IllegalArgumentException(NoDictionaryMessage))
  {
    var fs := map[B := Unreadable];
    assert A !in fs;
    SearchExhausted(Loader(HSpell, [A, B]), fs, [A, B]);
  }

  /**
   * With the commercial loader absent or unconstructible, HSpell is used
   * and its candidate paths are the ones searched, even where the
   * commercial loader would have read a different dictionary.
   */
  lemma FallbackScenario(d: Dict, e: Dict)
    ensures var fs := map[A := FileEntry(Some(e), Some(d))];
      && Startup(map[], NoSecurityManager, ClassNotFound, [A], fs) == Constructed(Loader(HSpell, [A]), d)
      && Startup(map[], NoSecurityManager, NoUsableConstructor, [A], fs) == Constructed(Loader(HSpell, [A]), d)
  {
  }

  /**
   * Nothing guards the shared slot against a second construction: a later
   * successful construction replaces the dictionary an earlier one stored.
   */
  method ReconstructionReplaces(d: Dict, e: Dict)
    requires d != e
  {
    var statics := new Statics();
    var first := statics.Construct(map[DictPathSetting := A], NoSecurityManager, ClassNotFound, [], map[A := Readable(d)]);
    assert OverridePath(map[DictPathSetting := A]) == Some(A);
    assert statics.GetDictionary() == Some(d);
    var second := statics.Construct(map[DictPathSetting := B], NoSecurityManager, ClassNotFound, [], map[B := Readable(e)]);
    assert OverridePath(map[DictPathSetting := B]) == Some(B);
    assert statics.GetDictionary() == Some(e) && statics.Assignments == 2;
    assert "hebrew" in Analyzers() && statics.Provide(Analyzers()["hebrew"]).dict == Some(e);
  }

  /** A caller without the special permission fails before any path is tried. */
  method DeniedCallerTriesNothing(settings: Settings, fs: FileSystem)
  {
    var statics := new Statics();
    var r := statics.Construct(settings, Managed(false), ClassNotFound, [A], fs);
    assert r == Failed(SecurityException);
    assert statics.Attempted == [] && statics.GetDictionary() == None;
  }
}
