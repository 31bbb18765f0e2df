# Hebrew analysis plugin: dictionary resolution

This project models how the Elasticsearch Hebrew analysis plugin finds and
loads its HebMorph dictionary when the plugin is constructed, and proves
properties of that model in Dafny.

The plugin's constructor works in four steps:

1. If a security manager is installed, it checks that the caller holds the
   special permission. If not, construction throws.
2. It picks a dictionary loader. It uses the commercial
   `HebMorphDictionaryLoader` when that class can be found and built with
   its no-argument constructor. Otherwise it uses the open HSpell loader.
3. It reads the `hebrew.dict.path` setting. If the value is present and
   non-empty, it tries that path first.
4. It then tries the loader's candidate paths in order. The first
   dictionary that loads is stored in the static `dict` slot and the
   constructor returns. If nothing loads, it throws
   `IllegalArgumentException("Could not load any dictionary. Aborting!")`.

A single attempt (`LoadDictAction.run`) treats a path that does not exist
as "no result". It also treats a load that throws `IOException` as "no
result". The `hebrew_lemmatizer` token filter, the tokenizer and the
analyzers that the plugin registers read the `dict` slot when the host
instantiates them. The `niqqud` and `add_suffix` filters take no
dictionary.

Files:

- `hebrew_analysis_plugin.dfy`, module `HebrewAnalysisPlugin`. It holds
  the data model and the pure parts: loader selection, one load attempt,
  resolution as the function `Resolve` and the whole constructor as the
  function `Startup`. It also holds the lemmas about these functions and
  the registration name sets. The class `Statics` holds the static state.
  Its field `dict` is the slot. The ghost field `Assignments` counts the
  writes to `dict`. The ghost field `Attempted` lists the paths handed to
  load attempts, in order. The method `Statics.Construct` is the
  constructor, proved against `Startup`.
- `scenarios.dfy`, module `Scenarios`. It holds concrete start-ups: an
  override that loads, a missing and an unreadable candidate before one
  that loads, total failure, and the fallback to HSpell. It also holds two
  client methods. One shows that a second construction replaces the
  stored dictionary. The other shows that a denied caller tries no path.

Inputs that the plugin gets from its environment are parameters of the
model:

- The filesystem is a map from path to `FileEntry`. A path that is not a
  key does not exist. A `FileEntry` records what each of the two loaders
  makes of the file: `Some(dict)`, or `None` when that loader's
  `loadDictionaryFromPath` throws `IOException`.
- The reflective lookup of the commercial loader is an `EnhancedProbe`:
  `ClassNotFound`, `NoUsableConstructor` or `Instantiable(paths)`.
- The security manager is a `SecurityContext`.
- The HSpell loader's default candidate paths are a parameter. They are
  defined in the HebMorph library, which is not part of this model.

Two behaviours of the constructor worth noting:

- Nothing guards the static `dict` slot against a second construction
  (lines 101 and 111). Each successful construction assigns it, so a
  second construction replaces the first dictionary. `Statics.Construct`
  promises one assignment per successful construction.
  `Scenarios.ReconstructionReplaces` shows the replacement.
- The constructor first calls `sm.checkPermission(new SpecialPermission())`
  when a security manager is installed (lines 65-69). The model has this
  as the `SecurityException` outcome.

## Model

| member | source | states |
|---|---|---|
| `HebrewAnalysisPlugin.SelectLoader` | src/main/java/com/code972/elasticsearch/HebrewAnalysisPlugin.java:72-93 | The commercial loader is chosen exactly when its class is found and its no-argument constructor succeeds. Every other probe outcome gives HSpell with the HSpell candidate paths. Selection never fails. |
| `HebrewAnalysisPlugin.Attempt` | src/main/java/com/code972/elasticsearch/HebrewAnalysisPlugin.java:132-142 | An attempt gives a dictionary exactly when the path exists and the selected loader parses it, and then it is that loader's dictionary for the file. A missing path gives no result. A path the loader fails on gives no result and nothing escapes. |
| `HebrewAnalysisPlugin.SearchSkipsFailures` | src/main/java/com/code972/elasticsearch/HebrewAnalysisPlugin.java:107-115 | Candidates that yield nothing are passed over. The search result and the tried paths are those of the remaining candidates, after the failed ones. |
| `HebrewAnalysisPlugin.SearchFirstHit` | src/main/java/com/code972/elasticsearch/HebrewAnalysisPlugin.java:107-115 | When candidate i loads and every earlier one yields nothing, the search returns candidate i's dictionary. It tries exactly the candidates up to and including i, so no later candidate is tried. |
| `HebrewAnalysisPlugin.SearchResultIsFirstHit` | src/main/java/com/code972/elasticsearch/HebrewAnalysisPlugin.java:107-115 | A dictionary the search returns comes from some candidate that loads, and every candidate before it yielded nothing. |
| `HebrewAnalysisPlugin.SearchExhausted` | src/main/java/com/code972/elasticsearch/HebrewAnalysisPlugin.java:107-117 | The search finds nothing exactly when every candidate yields nothing. In that case every candidate was tried, in order. |
| `HebrewAnalysisPlugin.FirstHitExists` | src/main/java/com/code972/elasticsearch/HebrewAnalysisPlugin.java:107-115 | If any candidate loads, the search finds a dictionary. |
| `HebrewAnalysisPlugin.OverridePrecedence` | src/main/java/com/code972/elasticsearch/HebrewAnalysisPlugin.java:96-104 | A present, non-empty override that loads is the result. It is the only path tried, so no candidate is tried. |
| `HebrewAnalysisPlugin.UnusableOverrideSkipped` | src/main/java/com/code972/elasticsearch/HebrewAnalysisPlugin.java:96-107 | An absent or empty override is never attempted. Resolution is the candidate search, and only candidate paths are tried. |
| `HebrewAnalysisPlugin.FailedOverrideFallsThrough` | src/main/java/com/code972/elasticsearch/HebrewAnalysisPlugin.java:96-107 | An override that yields nothing does not fail resolution. Resolution falls through to the candidate search, and the override is tried once before the candidates. |
| `HebrewAnalysisPlugin.ResolvedFromFirstCandidate` | src/main/java/com/code972/elasticsearch/HebrewAnalysisPlugin.java:107-115 | When the override does not load, the resolved dictionary is that of some candidate that loads, and every earlier candidate yielded nothing. |
| `HebrewAnalysisPlugin.ResolveFails` | src/main/java/com/code972/elasticsearch/HebrewAnalysisPlugin.java:96-117 | Resolution fails exactly when the override (if attempted) and every candidate yield nothing. It has then tried the override (if attempted) and all candidates. |
| `HebrewAnalysisPlugin.DeniedBeforeAnyAttempt` | src/main/java/com/code972/elasticsearch/HebrewAnalysisPlugin.java:65-69 | Construction throws `SecurityException` exactly when a security manager is installed and the caller lacks the special permission. A denied construction tries no path. |
| `HebrewAnalysisPlugin.StartupFailsOnlyWhenNothingLoads` | src/main/java/com/code972/elasticsearch/HebrewAnalysisPlugin.java:95-117 | A permitted construction fails exactly when neither the override nor any candidate of the selected loader loads. Its only failure is `IllegalArgumentException` with the fixed message. |
| `HebrewAnalysisPlugin.StartupByOverride` | src/main/java/com/code972/elasticsearch/HebrewAnalysisPlugin.java:96-104 | When the override loads, construction succeeds with the override's dictionary after trying only the override. |
| `HebrewAnalysisPlugin.StartupBySearch` | src/main/java/com/code972/elasticsearch/HebrewAnalysisPlugin.java:105-117 | When the override does not load, the construction outcome is that of the candidate search. The tried paths are the override (if attempted) followed by the search's. |
| `HebrewAnalysisPlugin.TokenFilters` | src/main/java/com/code972/elasticsearch/HebrewAnalysisPlugin.java:151-157 | The token filter names are exactly hebrew_lemmatizer, niqqud and add_suffix. Only hebrew_lemmatizer takes the dictionary. |
| `HebrewAnalysisPlugin.Tokenizers` | src/main/java/com/code972/elasticsearch/HebrewAnalysisPlugin.java:160-162 | The only tokenizer name is hebrew, and its tokenizer takes the dictionary. |
| `HebrewAnalysisPlugin.Analyzers` | src/main/java/com/code972/elasticsearch/HebrewAnalysisPlugin.java:165-172 | The analyzer names are exactly hebrew, hebrew_query, hebrew_query_light and hebrew_exact. Every analyzer takes the dictionary. |
| `HebrewAnalysisPlugin.RegistrationsDistinct` | src/main/java/com/code972/elasticsearch/HebrewAnalysisPlugin.java:151-171 | Each registered name maps to a different component. The tokenizer and the analyzer both named hebrew are different components. |
| `HebrewAnalysisPlugin.Statics.constructor` | src/main/java/com/code972/elasticsearch/HebrewAnalysisPlugin.java:51 | Before any construction the slot is empty (`null`), with no writes and no attempts. |
| `HebrewAnalysisPlugin.ProvidersByName` | src/main/java/com/code972/elasticsearch/HebrewAnalysisPlugin.java:151-171 | Looked up by registered name, each provider builds the component registered under that name. The `hebrew_lemmatizer` filter, the `hebrew` tokenizer and every analyzer get what `getDictionary` returns at the moment the provider runs. The `niqqud` and `add_suffix` filters get no dictionary. |
| `HebrewAnalysisPlugin.Statics.Construct` | src/main/java/com/code972/elasticsearch/HebrewAnalysisPlugin.java:62-119 | The constructor's outcome is `Startup` of its inputs. `Attempted` grows by exactly the paths `Startup` tries, in order. On success `dict` holds the resolved dictionary after exactly one assignment, and `getDictionary` and every dictionary-backed provider, looked up by its registered name, hand out that dictionary. On failure `dict` and the write count are unchanged. |
| `HebrewAnalysisPlugin.Statics.SearchCandidates` | src/main/java/com/code972/elasticsearch/HebrewAnalysisPlugin.java:107-115 | The candidate loop returns the first dictionary that loads, in candidate order, and tries no candidate after it. It assigns `dict` once on success and leaves it untouched when nothing loads. |
| `Scenarios.OverrideScenario` | src/main/java/com/code972/elasticsearch/HebrewAnalysisPlugin.java:96-104 | With an override that loads, its dictionary is used and no candidate is tried, even one that would load. |
| `Scenarios.CandidateScenario` | src/main/java/com/code972/elasticsearch/HebrewAnalysisPlugin.java:107-142 | With an empty override, a missing "/a", an unreadable "/b" and a loadable "/c", the dictionary comes from "/c" after all three were tried. |
| `Scenarios.ExhaustedScenario` | src/main/java/com/code972/elasticsearch/HebrewAnalysisPlugin.java:107-117 | When every candidate is missing or unreadable, construction throws `IllegalArgumentException`. |
| `Scenarios.FallbackScenario` | src/main/java/com/code972/elasticsearch/HebrewAnalysisPlugin.java:72-93 | When the commercial loader class is absent or cannot be constructed, the HSpell loader reads the file. |

## Left out

- Reflection (`Class.forName`, `getConstructor`, `newInstance`) is not modelled. Its outcome is the `EnhancedProbe` input.
- Errors that the loader-selection code does not catch are not modelled. These include a failing static initialiser of the commercial class and a class that is not a `DictionaryLoader`.
- The security manager and `AccessController.doPrivileged` are not modelled. The permission check is the `SecurityContext` input. Privilege elevation is the identity.
- `File.exists()` and `loadDictionaryFromPath` are real I/O in the HebMorph library. They are replaced by the `FileSystem` map and its per-loader `FileEntry` outcomes.
- A loader that returns `null` without throwing is not a separate case. It gives "no result", the same as an `IOException`, and `FileEntry` records it as `None`.
- An unchecked exception thrown by `loadDictionaryFromPath` is not modelled. The code would let it escape the constructor, but the loader's code is not visible.
- `dictionaryPossiblePaths()` returning `null` is not modelled. Candidate lists are sequences.
- The loader's `dictionaryLoaderName()` and all `log.info`/`log.error` calls are not modelled. They only feed log messages.
- `Statics.Construct`: the candidate loop of the constructor (lines 107-115) is the separate method `Statics.SearchCandidates`, which keeps the early return and the write to `dict` inside the loop. Inlining it made the constructor's proof too costly for the verifier.
- `getRestHandlers` and the factory classes built by the provider lambdas are not modelled. They are Elasticsearch and Lucene plumbing whose code is not part of this model. Only the registered names, and which providers read the dictionary, are modelled.
- Concurrent reads of `dict` after start-up and the safe publication of the static field are not modelled.
