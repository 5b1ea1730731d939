/**
 * The evaluation-scoped project analysis: memoized cross-file queries that record what they
 * depended on. Every query answers as the memo-free reference does, whatever was asked,
 * adopted or evicted before it.
 */
module ProjectAnalysis {
  import opened Options
  import opened ProjectWorld
  import opened DependencyLog
  import opened QueryMeanings
  import opened Sequences

  // ---------------------------------------------------------------------------------------------
  // What the memo tables must contain
  // ---------------------------------------------------------------------------------------------

  ghost predicate ResolvedOk(env: Environment, resolved: map<Path, Path>) {
    forall p | p in resolved :: resolved[p] == env.resolve(p)
  }

  ghost predicate FlagsOk(answer: Path -> bool, flags: map<Path, bool>) {
    forall key | key in flags :: flags[key] == answer(key)
  }

  ghost predicate EntriesOk(w: World, entries: map<Path, seq<Path>>) {
    forall key | key in entries :: w.entries(key) == Some(entries[key])
  }

  ghost predicate GlobsOk(w: World, globs: map<(Path, string, bool), seq<Path>>) {
    forall key | key in globs :: globs[key] == w.glob(key.0, key.1, key.2)
  }

  ghost predicate AnchorsOk(env: Environment, w: World, anchors: map<Path, Option<Path>>) {
    forall key | key in anchors :: anchors[key] == AnchorAt(env, w, key)
  }

  /** The recorded identity of a source, or nothing when its bytes do not decode. */
  ghost predicate SourceAnswerOk(env: Environment, w: World, key: Path, answer: Answer) {
    || answer == SourceAnswer(FingerprintAt(w, key))
    || (answer == NoAnswer && SourceText(env, w, key).None?)
  }

  ghost predicate AnswersOk(env: Environment, w: World, answers: map<Path, Answer>) {
    forall key | key in answers :: SourceAnswerOk(env, w, key, answers[key])
  }

  ghost predicate ParsedOk(env: Environment, tree: Tree, w: World, parsed: map<Path, ParsedModule>) {
    forall key | key in parsed :: key in tree.discovered && DiscoveredModule(env, w, key) == Some(parsed[key])
  }

  ghost predicate ExternalOk(env: Environment, tree: Tree, w: World, external: map<Path, Analysis>) {
    forall key | key in external :: key !in tree.discovered && ExternalAnalysis(env, w, key) == Some(external[key])
  }

  /** A queried source keeps its analysis, if it has one, and its recorded answer. */
  ghost predicate QueriedOk(env: Environment, tree: Tree, w: World, queried: set<Path>,
                            parsed: map<Path, ParsedModule>, external: map<Path, Analysis>,
                            answers: map<Path, Answer>) {
    forall key | key in queried ::
      && key in answers
      && (AnalysisAt(env, tree, w, key).Some? ==> if key in tree.discovered then key in parsed else key in external)
  }

  ghost predicate DataclassesOk(env: Environment, tree: Tree, w: World, dataclasses: map<Path, seq<string>>,
                                answers: map<Path, Answer>) {
    forall key | key in dataclasses ::
      && key in answers
      && AnalysisAt(env, tree, w, key).Some? && dataclasses[key] == AnalysisAt(env, tree, w, key).value.dataclasses
  }

  ghost predicate SourcesOk(env: Environment, tree: Tree, w: World, parsed: map<Path, ParsedModule>,
                            external: map<Path, Analysis>, queried: set<Path>, answers: map<Path, Answer>,
                            dataclasses: map<Path, seq<string>>) {
    && ParsedOk(env, tree, w, parsed)
    && ExternalOk(env, tree, w, external)
    && AnswersOk(env, w, answers)
    && QueriedOk(env, tree, w, queried, parsed, external, answers)
    && DataclassesOk(env, tree, w, dataclasses, answers)
  }

  /** Adopting the module of a discovered file, with or without its dataclasses. */
  lemma AdoptModule(env: Environment, tree: Tree, w: World, parsed: map<Path, ParsedModule>,
                    external: map<Path, Analysis>, queried: set<Path>, answers: map<Path, Answer>,
                    dataclasses: map<Path, seq<string>>, m: ParsedModule)
    requires SourcesOk(env, tree, w, parsed, external, queried, answers, dataclasses)
    requires m.path in tree.discovered && DiscoveredModule(env, w, m.path) == Some(m)
    ensures SourcesOk(env, tree, w, parsed[m.path := m], external, queried, answers, dataclasses)
    ensures SourcesOk(env, tree, w, parsed, external, queried, answers[m.path := Identity(m.fingerprint)], dataclasses)
    ensures SourcesOk(env, tree, w, parsed, external, queried, answers[m.path := Identity(m.fingerprint)],
                      dataclasses[m.path := m.analysis.dataclasses])
  {
    assert SourceAnswerOk(env, w, m.path, Identity(m.fingerprint));
  }

  /** Giving up the shared copy of a module together with its queried mark. */
  lemma ReleaseModule(env: Environment, tree: Tree, w: World, parsed: map<Path, ParsedModule>,
                      external: map<Path, Analysis>, queried: set<Path>, answers: map<Path, Answer>,
                      dataclasses: map<Path, seq<string>>, key: Path)
    requires SourcesOk(env, tree, w, parsed, external, queried, answers, dataclasses)
    ensures SourcesOk(env, tree, w, parsed - {key}, external, queried - {key}, answers, dataclasses)
  {
  }

  /** The tables after a first source query for `key`. */
  lemma QuerySource(env: Environment, tree: Tree, w: World, parsed: map<Path, ParsedModule>,
                    external: map<Path, Analysis>, queried: set<Path>, answers: map<Path, Answer>,
                    dataclasses: map<Path, seq<string>>, key: Path,
                    parsed': map<Path, ParsedModule>, external': map<Path, Analysis>)
    requires SourcesOk(env, tree, w, parsed, external, queried, answers, dataclasses)
    requires key in tree.discovered ==>
               external' == external &&
               parsed' == match DiscoveredModule(env, w, key) case None => parsed case Some(m) => parsed[key := m]
    requires key !in tree.discovered ==>
               parsed' == parsed &&
               external' == match ExternalAnalysis(env, w, key) case None => external case Some(a) => external[key := a]
    ensures SourcesOk(env, tree, w, parsed', external', queried + {key},
                      answers[key := SourceAnswer(FingerprintAt(w, key))], dataclasses)
  {
  }

  /** Overwriting one recorded answer by another that is allowed. */
  lemma AnswerSource(env: Environment, tree: Tree, w: World, parsed: map<Path, ParsedModule>,
                     external: map<Path, Analysis>, queried: set<Path>, answers: map<Path, Answer>,
                     dataclasses: map<Path, seq<string>>, key: Path, answer: Answer)
    requires SourcesOk(env, tree, w, parsed, external, queried, answers, dataclasses)
    requires SourceAnswerOk(env, w, key, answer)
    ensures SourcesOk(env, tree, w, parsed, external, queried, answers[key := answer], dataclasses)
  {
  }

  /** Remembering the dataclasses of a file with an analysis. */
  lemma RememberDataclasses(env: Environment, tree: Tree, w: World, parsed: map<Path, ParsedModule>,
                            external: map<Path, Analysis>, queried: set<Path>, answers: map<Path, Answer>,
                            dataclasses: map<Path, seq<string>>, key: Path)
    requires SourcesOk(env, tree, w, parsed, external, queried, answers, dataclasses)
    requires key in answers && AnalysisAt(env, tree, w, key).Some?
    ensures SourcesOk(env, tree, w, parsed, external, queried, answers,
                      dataclasses[key := AnalysisAt(env, tree, w, key).value.dataclasses])
  {
  }

  /** The per-requester lists are the filtered global list, in its order. */
  ghost predicate GroupedOk(dependencies: seq<Dependency>, dependencySet: set<Dependency>,
                          byRequester: map<Path, seq<Dependency>>) {
    && (forall d :: d in dependencySet <==> d in dependencies)
    && (forall r :: OfRequester(dependencies, r) == if r in byRequester then byRequester[r] else [])
  }

  class ProjectAnalysis {
    const env: Environment
    const tree: Tree
    const world: World

    var parsedModules: map<Path, ParsedModule>
    var externalAnalyses: map<Path, Analysis>
    var queriedSources: set<Path>
    var sourceAnswers: map<Path, Answer>
    var dataclassFacts: map<Path, seq<string>>
    var dependencies: seq<Dependency>
    var dependenciesByRequester: map<Path, seq<Dependency>>
    var dependencySet: set<Dependency>
    var recordedQueries: set<QueryKey>
    var resolvedPaths: map<Path, Path>
    var existing: map<Path, bool>
    var directories: map<Path, bool>
    var files: map<Path, bool>
    var entryLists: map<Path, seq<Path>>
    var globs: map<(Path, string, bool), seq<Path>>
    var pythonAnchors: map<Path, Option<Path>>
    var entrypointModules: Option<seq<string>>
    var entrypointSymbols: seq<(string, string)>
    var entrypointFingerprint: Answer

    function CurrentLog(): Log
      reads `recordedQueries, `dependencies
    {
      Log(recordedQueries, dependencies)
    }

    ghost predicate SourcesValid()
      reads `parsedModules, `externalAnalyses, `queriedSources, `sourceAnswers, `dataclassFacts
    {
      SourcesOk(env, tree, world, parsedModules, externalAnalyses, queriedSources, sourceAnswers, dataclassFacts)
    }

    ghost predicate ListingsValid()
      reads `existing, `directories, `files, `entryLists, `globs, `pythonAnchors
    {
      && FlagsOk(world.present, existing) && FlagsOk(world.isDir, directories) && FlagsOk(world.isFile, files)
      && EntriesOk(world, entryLists) && GlobsOk(world, globs) && AnchorsOk(env, world, pythonAnchors)
    }

    ghost predicate EntrypointsValid()
      reads `entrypointModules, `entrypointSymbols, `entrypointFingerprint
    {
      if entrypointModules.None? then entrypointSymbols == [] && entrypointFingerprint == NoAnswer
      else
        && entrypointModules.value == EntrypointModulesOf(env, tree, world)
        && entrypointSymbols == EntrypointSymbolsOf(env, tree, world)
        && Admissible(env, tree, world, MetadataObservation(tree), entrypointFingerprint)
    }

    ghost predicate LogValid()
      reads `recordedQueries, `dependencies, `dependencySet, `dependenciesByRequester
    {
      && ValidLog(env, tree, world, CurrentLog())
      && GroupedOk(dependencies, dependencySet, dependenciesByRequester)
    }

    ghost predicate Valid()
      reads this
    {
      && ValidEnvironment(env) && ValidTree(env, tree)
      && ResolvedOk(env, resolvedPaths)
      && SourcesValid() && ListingsValid() && EntrypointsValid() && LogValid()
    }

    // What a query does not touch stays as it should be. ------------------------------------------

    /** What a query does not touch stays as it should be. */
    twostate lemma KeepListings()
      requires old(ListingsValid()) && FlagsOk(world.isFile, files)
      requires unchanged(`existing) && unchanged(`directories) && unchanged(`entryLists)
      requires unchanged(`globs) && unchanged(`pythonAnchors)
      ensures ListingsValid()
    {
    }

    twostate lemma KeepSources()
      requires old(SourcesValid())
      requires unchanged(`parsedModules) && unchanged(`externalAnalyses) && unchanged(`queriedSources)
      requires unchanged(`sourceAnswers) && unchanged(`dataclassFacts)
      ensures SourcesValid()
    {
    }

    twostate lemma KeepEntrypoints()
      requires old(EntrypointsValid())
      requires unchanged(`entrypointModules) && unchanged(`entrypointSymbols) && unchanged(`entrypointFingerprint)
      ensures EntrypointsValid()
    {
    }

    constructor (env: Environment, tree: Tree, world: World)
      requires ValidEnvironment(env) && ValidTree(env, tree)
      ensures Valid() && this.env == env && this.tree == tree && this.world == world
      ensures CurrentLog() == Log({}, [])
    {
      this.env, this.tree, this.world := env, tree, world;
      parsedModules, externalAnalyses, queriedSources, sourceAnswers, dataclassFacts := map[], map[], {}, map[], map[];
      dependencies, dependenciesByRequester, dependencySet, recordedQueries := [], map[], {}, {};
      resolvedPaths := map p | p in tree.discovered :: p;
      existing, directories, files, entryLists, globs, pythonAnchors := map[], map[], map[], map[], map[], map[];
      entrypointModules, entrypointSymbols, entrypointFingerprint := None, [], NoAnswer;
    }

    method Resolve(path: Path) returns (resolved: Path)
      requires ResolvedOk(env, resolvedPaths)
      modifies `resolvedPaths
      ensures ResolvedOk(env, resolvedPaths) && resolved == env.resolve(path)
    {
      if path in resolvedPaths {
        return resolvedPaths[path];
      }
      resolved := env.resolve(path);
      resolvedPaths := resolvedPaths[path := resolved];
    }

    /** What every query needs of the shared recorder. */
    ghost predicate Ready()
      reads `resolvedPaths, `recordedQueries, `dependencies, `dependencySet, `dependenciesByRequester
    {
      ValidEnvironment(env) && ResolvedOk(env, resolvedPaths) && LogValid()
    }

    /** Record one answered question, once per requester, spelling and kind. */
    method RecordAnswer(requester: Path, o: Observation, answer: Answer)
      requires Ready() && Admissible(env, tree, world, o, answer)
      modifies `resolvedPaths, `recordedQueries, `dependencies, `dependencySet, `dependenciesByRequester
      ensures Ready() && CurrentLog() == Record(env, old(CurrentLog()), requester, o, answer)
      ensures AddsOnce(env, old(CurrentLog()), CurrentLog(), requester, o, answer)
    {
      RecordAddsOnce(env, CurrentLog(), requester, o, answer);
      ghost var before := CurrentLog();
      Insert(requester, o, answer);
      RecordValid(env, tree, world, before, requester, o, answer);
    }

    method Insert(requester: Path, o: Observation, answer: Answer)
      requires ResolvedOk(env, resolvedPaths) && GroupedOk(dependencies, dependencySet, dependenciesByRequester)
      modifies `resolvedPaths, `recordedQueries, `dependencies, `dependencySet, `dependenciesByRequester
      ensures ResolvedOk(env, resolvedPaths) && GroupedOk(dependencies, dependencySet, dependenciesByRequester)
      ensures CurrentLog() == Record(env, old(CurrentLog()), requester, o, answer)
    {
      var key := KeyOf(requester, o);
      if key in recordedQueries {
        return;
      }
      recordedQueries := recordedQueries + {key};
      var queryPath := env.absolute(o.path);
      var resolvedRequester := Resolve(requester);
      var dependency := Resolve(queryPath);
      var observed := Dependency(resolvedRequester, queryPath, dependency, o.kind, answer, o.pattern, o.recursive);
      if observed !in dependencySet {
        Append(observed);
      }
    }

    method Append(d: Dependency)
      requires GroupedOk(dependencies, dependencySet, dependenciesByRequester)
      modifies `dependencies, `dependencySet, `dependenciesByRequester
      ensures GroupedOk(dependencies, dependencySet, dependenciesByRequester)
      ensures dependencies == old(dependencies) + [d]
    {
      var group := if d.requester in dependenciesByRequester then dependenciesByRequester[d.requester] else [];
      dependencySet := dependencySet + {d};
      dependencies := dependencies + [d];
      dependenciesByRequester := dependenciesByRequester[d.requester := group + [d]];
      assert dependencies[..|dependencies| - 1] == old(dependencies);
    }

    /** The dependencies observed for one requester. */
    method DependenciesFor(requester: Path) returns (r: seq<Dependency>)
      requires ResolvedOk(env, resolvedPaths) && GroupedOk(dependencies, dependencySet, dependenciesByRequester)
      modifies `resolvedPaths
      ensures ResolvedOk(env, resolvedPaths)
      ensures r == OfRequester(dependencies, env.resolve(requester))
      ensures Selects(dependencies, (d: Dependency) => d.requester == env.resolve(requester), r)
    {
      OfRequesterMeaning(dependencies, env.resolve(requester));
      var resolved := Resolve(requester);
      r := if resolved in dependenciesByRequester then dependenciesByRequester[resolved] else [];
    }

    // -------------------------------------------------------------------------------------------
    // Parsed modules
    // -------------------------------------------------------------------------------------------

    /** Hand out the strict parse of a discovered file; the shared copy is given up. `None` stands
        for the parse error that is raised. */
    method TakeParsedModule(path: Path) returns (r: Option<ParsedModule>)
      requires ResolvedOk(env, resolvedPaths) && SourcesValid() && ValidTree(env, tree) && path in tree.discovered
      modifies `resolvedPaths, `parsedModules, `queriedSources, `sourceAnswers, `dataclassFacts
      ensures ResolvedOk(env, resolvedPaths) && SourcesValid() && r == DiscoveredModule(env, world, path)
      ensures ParsesStrictly(env, world, path, r)
      ensures r.Some? ==> path !in parsedModules && path !in queriedSources
      ensures r.Some? ==> path in sourceAnswers && sourceAnswers[path] == Identity(r.value.fingerprint)
      ensures r.Some? && path != [] && path[|path| - 1] == "_test_types.py" ==>
                path in dataclassFacts && dataclassFacts[path] == r.value.analysis.dataclasses
      ensures r.None? ==> unchanged(`parsedModules) && unchanged(`queriedSources) && unchanged(`sourceAnswers)
    {
      ParseMeaning(env, world, path);
      var key := Resolve(path);
      r := if key in parsedModules then Some(parsedModules[key]) else DiscoveredModule(env, world, path);
      if r.None? {
        return;
      }
      AdoptModule(env, tree, world, parsedModules, externalAnalyses, queriedSources, sourceAnswers, dataclassFacts,
                  r.value);
      sourceAnswers := sourceAnswers[key := Identity(r.value.fingerprint)];
      if FileName(path) == TEST_TYPES_FILE {
        dataclassFacts := dataclassFacts[key := r.value.analysis.dataclasses];
      }
      ReleaseModule(env, tree, world, parsedModules, externalAnalyses, queriedSources, sourceAnswers, dataclassFacts,
                    key);
      parsedModules := parsedModules - {key};
      queriedSources := queriedSources - {key};
    }

    /** Adopt one module parsed ahead of time. */
    method Prewarm(parsed: ParsedModule)
      requires ResolvedOk(env, resolvedPaths) && SourcesValid() && ValidTree(env, tree)
      requires parsed.path in tree.discovered && DiscoveredModule(env, world, parsed.path) == Some(parsed)
      modifies `resolvedPaths, `parsedModules, `sourceAnswers, `dataclassFacts
      ensures ResolvedOk(env, resolvedPaths) && SourcesValid() && parsed.path in parsedModules
    {
      var key := Resolve(parsed.path);
      AdoptModule(env, tree, world, parsedModules, externalAnalyses, queriedSources, sourceAnswers, dataclassFacts,
                  parsed);
      if key !in parsedModules {
        parsedModules := parsedModules[key := parsed];
      }
      AdoptModule(env, tree, world, parsedModules, externalAnalyses, queriedSources, sourceAnswers, dataclassFacts,
                  parsed);
      if FileName(parsed.path) == TEST_TYPES_FILE {
        sourceAnswers := sourceAnswers[key := Identity(parsed.fingerprint)];
        dataclassFacts := dataclassFacts[key := parsed.analysis.dataclasses];
      }
    }

    // -------------------------------------------------------------------------------------------
    // Source queries
    // -------------------------------------------------------------------------------------------

    /** Tolerant analysis of a path. */
    method QueryAnalysis(requester: Path, path: Path) returns (r: Option<Analysis>)
      requires Ready() && SourcesValid()
      modifies `resolvedPaths, `recordedQueries, `dependencies, `dependencySet, `dependenciesByRequester,
               `parsedModules, `externalAnalyses, `queriedSources, `sourceAnswers
      ensures Ready() && SourcesValid()
      ensures r == AnalysisAt(env, tree, world, env.resolve(path)) && env.resolve(path) in sourceAnswers
      ensures Analyses(env, tree, world, env.resolve(path), r)
      ensures SourceAnswerOk(env, world, env.resolve(path), sourceAnswers[env.resolve(path)])
      ensures CurrentLog() == Record(env, old(CurrentLog()), requester, Plain(SourceKind, path),
                                     sourceAnswers[env.resolve(path)])
    {
      AnalysisMeaning(env, tree, world, env.resolve(path));
      var key := Resolve(path);
      r := AnalyseAndRecord(requester, path, key);
    }

    method AnalyseAndRecord(requester: Path, path: Path, key: Path) returns (r: Option<Analysis>)
      requires Ready() && SourcesValid() && key == env.resolve(path)
      modifies `resolvedPaths, `recordedQueries, `dependencies, `dependencySet, `dependenciesByRequester,
               `parsedModules, `externalAnalyses, `queriedSources, `sourceAnswers
      ensures Ready() && SourcesValid()
      ensures r == AnalysisAt(env, tree, world, key) && key in sourceAnswers
      ensures SourceAnswerOk(env, world, key, sourceAnswers[key])
      ensures CurrentLog() == Record(env, old(CurrentLog()), requester, Plain(SourceKind, path), sourceAnswers[key])
    {
      r := LoadAnalysis(key);
      label loaded:
      RecordSource(requester, path, sourceAnswers[key]);
      KeepSources@loaded();
    }

    /** The memoized part of a source query. */
    method LoadAnalysis(key: Path) returns (r: Option<Analysis>)
      requires SourcesValid()
      modifies `parsedModules, `externalAnalyses, `queriedSources, `sourceAnswers
      ensures SourcesValid() && r == AnalysisAt(env, tree, world, key)
      ensures key in sourceAnswers && SourceAnswerOk(env, world, key, sourceAnswers[key])
    {
      var parsed: Option<ParsedModule> := if key in parsedModules then Some(parsedModules[key]) else None;
      var external: Option<Analysis> := if key in externalAnalyses then Some(externalAnalyses[key]) else None;
      if key !in queriedSources {
        var answer: Answer;
        var parsedNow, externalNow := parsedModules, externalAnalyses;
        if key in tree.discovered {
          if parsed.None? {
            parsed, answer := DiscoveredModule(env, world, key), SourceAnswer(FingerprintAt(world, key));
            if parsed.Some? {
              parsedNow := parsedModules[key := parsed.value];
            }
          } else {
            answer := Identity(parsed.value.fingerprint);
            assert parsedModules == parsedModules[key := parsed.value];
          }
        } else {
          external, answer := ExternalAnalysis(env, world, key), SourceAnswer(FingerprintAt(world, key));
          if external.Some? {
            externalNow := externalAnalyses[key := external.value];
          }
        }
        QuerySource(env, tree, world, parsedModules, externalAnalyses, queriedSources, sourceAnswers, dataclassFacts,
                    key, parsedNow, externalNow);
        parsedModules, externalAnalyses := parsedNow, externalNow;
        queriedSources := queriedSources + {key};
        sourceAnswers := sourceAnswers[key := answer];
      }
      r := if parsed.Some? then Some(parsed.value.analysis) else external;
    }

    /** Decoded source without an analysis. */
    method QueryNativeSource(requester: Path, path: Path) returns (r: Option<string>)
      requires Ready() && SourcesValid()
      modifies `resolvedPaths, `recordedQueries, `dependencies, `dependencySet, `dependenciesByRequester, `sourceAnswers
      ensures Ready() && SourcesValid()
      ensures r == SourceText(env, world, env.resolve(path))
      ensures Decodes(env.decodePython, world, env.resolve(path), r)
      ensures env.resolve(path) in sourceAnswers
      ensures SourceAnswerOk(env, world, env.resolve(path), sourceAnswers[env.resolve(path)])
      ensures CurrentLog() == Record(env, old(CurrentLog()), requester, Plain(SourceKind, path),
                                     sourceAnswers[env.resolve(path)])
    {
      var key := Resolve(path);
      r := SourceText(env, world, key);
      var fingerprint := if r.None? then NoAnswer else Identity(Sha256(world.read(key).value));
      RecordFresh(requester, path, key, fingerprint);
    }

    /** Keep a fresh answer and record it. */
    method RecordFresh(requester: Path, path: Path, key: Path, answer: Answer)
      requires Ready() && SourcesValid() && key == env.resolve(path) && SourceAnswerOk(env, world, key, answer)
      modifies `resolvedPaths, `recordedQueries, `dependencies, `dependencySet, `dependenciesByRequester, `sourceAnswers
      ensures Ready() && SourcesValid() && sourceAnswers == old(sourceAnswers)[key := answer]
      ensures CurrentLog() == Record(env, old(CurrentLog()), requester, Plain(SourceKind, path), answer)
    {
      StoreAnswer(key, answer);
      label stored:
      RecordSource(requester, path, answer);
      KeepSources@stored();
    }

    method StoreAnswer(key: Path, answer: Answer)
      requires SourcesValid() && SourceAnswerOk(env, world, key, answer)
      modifies `sourceAnswers
      ensures SourcesValid() && sourceAnswers == old(sourceAnswers)[key := answer]
    {
      AnswerSource(env, tree, world, parsedModules, externalAnalyses, queriedSources, sourceAnswers, dataclassFacts,
                   key, answer);
      sourceAnswers := sourceAnswers[key := answer];
    }

    method StoreDataclasses(key: Path, names: seq<string>)
      requires SourcesValid() && key in sourceAnswers
      requires AnalysisAt(env, tree, world, key).Some? && names == AnalysisAt(env, tree, world, key).value.dataclasses
      modifies `dataclassFacts
      ensures SourcesValid() && dataclassFacts == old(dataclassFacts)[key := names]
    {
      RememberDataclasses(env, tree, world, parsedModules, externalAnalyses, queriedSources, sourceAnswers,
                          dataclassFacts, key);
      dataclassFacts := dataclassFacts[key := names];
    }

    /** Top-level dataclasses of a path. */
    method QueryDataclasses(requester: Path, path: Path) returns (r: seq<string>)
      requires Ready() && SourcesValid()
      modifies `resolvedPaths, `recordedQueries, `dependencies, `dependencySet, `dependenciesByRequester,
               `parsedModules, `externalAnalyses, `queriedSources, `sourceAnswers, `dataclassFacts
      ensures Ready() && SourcesValid()
      ensures r == DataclassesIn(AnalysisAt(env, tree, world, env.resolve(path)))
      ensures Means(env, tree, world, DataclassesOf(path), Names(r))
      ensures env.resolve(path) in sourceAnswers
      ensures SourceAnswerOk(env, world, env.resolve(path), sourceAnswers[env.resolve(path)])
      ensures CurrentLog() == Record(env, old(CurrentLog()), requester, Plain(SourceKind, path),
                                     sourceAnswers[env.resolve(path)])
    {
      ReferenceMeaning(env, tree, world, DataclassesOf(path));
      var key := Resolve(path);
      if key in dataclassFacts {
        r := KnownDataclasses(requester, path, key);
      } else {
        r := FirstDataclasses(requester, path, key);
      }
    }

    /** Record the answer kept from an earlier source query. */
    method RecordKnown(requester: Path, path: Path, key: Path)
      requires Ready() && AnswersOk(env, world, sourceAnswers) && key in sourceAnswers && key == env.resolve(path)
      modifies `resolvedPaths, `recordedQueries, `dependencies, `dependencySet, `dependenciesByRequester
      ensures Ready()
      ensures CurrentLog() == Record(env, old(CurrentLog()), requester, Plain(SourceKind, path), sourceAnswers[key])
    {
      RecordSource(requester, path, sourceAnswers[key]);
    }

    method KnownDataclasses(requester: Path, path: Path, key: Path) returns (r: seq<string>)
      requires Ready() && SourcesValid() && key in dataclassFacts && key == env.resolve(path)
      modifies `resolvedPaths, `recordedQueries, `dependencies, `dependencySet, `dependenciesByRequester
      ensures Ready() && SourcesValid()
      ensures r == DataclassesIn(AnalysisAt(env, tree, world, key))
      ensures key in sourceAnswers && SourceAnswerOk(env, world, key, sourceAnswers[key])
      ensures CurrentLog() == Record(env, old(CurrentLog()), requester, Plain(SourceKind, path), sourceAnswers[key])
    {
      RecordKnown(requester, path, key);
      r := dataclassFacts[key];
    }

    /** The first dataclass query for a file goes through its analysis. */
    method FirstDataclasses(requester: Path, path: Path, key: Path) returns (r: seq<string>)
      requires Ready() && SourcesValid() && key == env.resolve(path)
      modifies `resolvedPaths, `recordedQueries, `dependencies, `dependencySet, `dependenciesByRequester,
               `parsedModules, `externalAnalyses, `queriedSources, `sourceAnswers, `dataclassFacts
      ensures Ready() && SourcesValid()
      ensures r == DataclassesIn(AnalysisAt(env, tree, world, key))
      ensures key in sourceAnswers && SourceAnswerOk(env, world, key, sourceAnswers[key])
      ensures CurrentLog() == Record(env, old(CurrentLog()), requester, Plain(SourceKind, path), sourceAnswers[key])
    {
      var analysis := QueryAnalysis(requester, path);
      r := DataclassesIn(analysis);
      if analysis.Some? {
        StoreDataclasses(key, r);
      }
    }

    /** Record the stored answer of a source. */
    method RecordSource(requester: Path, path: Path, answer: Answer)
      requires Ready() && SourceAnswerOk(env, world, env.resolve(path), answer)
      modifies `resolvedPaths, `recordedQueries, `dependencies, `dependencySet, `dependenciesByRequester
      ensures Ready()
      ensures CurrentLog() == Record(env, old(CurrentLog()), requester, Plain(SourceKind, path), answer)
    {
      RecordAnswer(requester, Plain(SourceKind, path), answer);
    }

    /** Modules named by the project metadata. */
    method QueryEntrypointModules(requester: Path) returns (r: seq<string>)
      requires Ready() && EntrypointsValid()
      modifies `resolvedPaths, `recordedQueries, `dependencies, `dependencySet, `dependenciesByRequester,
               `entrypointModules, `entrypointSymbols, `entrypointFingerprint
      ensures Ready() && EntrypointsValid() && entrypointModules.Some?
      ensures r == EntrypointModulesOf(env, tree, world)
      ensures FoundInMetadata(env, tree, world, env.entrypointModules, r)
      ensures CurrentLog() == Record(env, old(CurrentLog()), requester, MetadataObservation(tree),
                                     entrypointFingerprint)
    {
      MetadataMeaning(env, tree, world);
      if entrypointModules.None? {
        var text := MetadataText(env, tree, world);
        if text.None? {
          entrypointModules := Some([]);
        } else {
          entrypointFingerprint := Identity(Sha256(world.read(env.resolve(MetadataPath(tree))).value));
          entrypointModules := Some(env.entrypointModules(text.value));
          entrypointSymbols := env.entrypointSymbols(text.value);
        }
      }
      RecordAnswer(requester, MetadataObservation(tree), entrypointFingerprint);
      r := entrypointModules.value;
    }

    /** Exact references of the project metadata. */
    method QueryEntrypointSymbols(requester: Path) returns (r: seq<(string, string)>)
      requires Ready() && EntrypointsValid()
      modifies `resolvedPaths, `recordedQueries, `dependencies, `dependencySet, `dependenciesByRequester,
               `entrypointModules, `entrypointSymbols, `entrypointFingerprint
      ensures Ready() && EntrypointsValid()
      ensures r == EntrypointSymbolsOf(env, tree, world)
      ensures FoundInMetadata(env, tree, world, env.entrypointSymbols, r)
      ensures entrypointModules.Some?
      ensures CurrentLog() ==
              Record(env, old(CurrentLog()), requester, MetadataObservation(tree), entrypointFingerprint)
    {
      MetadataMeaning(env, tree, world);
      var _ := QueryEntrypointModules(requester);
      r := entrypointSymbols;
    }

    // -------------------------------------------------------------------------------------------
    // File-system queries
    // -------------------------------------------------------------------------------------------

    method QueryExists(requester: Path, path: Path) returns (answer: bool)
      requires Ready() && FlagsOk(world.present, existing)
      modifies `resolvedPaths, `recordedQueries, `dependencies, `dependencySet, `dependenciesByRequester, `existing
      ensures Ready() && FlagsOk(world.present, existing)
      ensures answer == world.present(env.resolve(path))
      ensures CurrentLog() == Record(env, old(CurrentLog()), requester, Plain(ExistsKind, path), Truth(answer))
    {
      var key := Resolve(path);
      if key !in existing {
        existing := existing[key := world.present(key)];
      }
      answer := existing[key];
      RecordAnswer(requester, Plain(ExistsKind, path), Truth(answer));
    }

    method QueryIsDir(requester: Path, path: Path) returns (answer: bool)
      requires Ready() && FlagsOk(world.isDir, directories)
      modifies `resolvedPaths, `recordedQueries, `dependencies, `dependencySet, `dependenciesByRequester, `directories
      ensures Ready() && FlagsOk(world.isDir, directories)
      ensures answer == world.isDir(env.resolve(path))
      ensures CurrentLog() == Record(env, old(CurrentLog()), requester, Plain(IsDirKind, path), Truth(answer))
    {
      var key := Resolve(path);
      if key !in directories {
        directories := directories[key := world.isDir(key)];
      }
      answer := directories[key];
      RecordAnswer(requester, Plain(IsDirKind, path), Truth(answer));
    }

    method QueryIsFile(requester: Path, path: Path) returns (answer: bool)
      requires Ready() && FlagsOk(world.isFile, files)
      modifies `resolvedPaths, `recordedQueries, `dependencies, `dependencySet, `dependenciesByRequester, `files
      ensures Ready() && FlagsOk(world.isFile, files)
      ensures answer == world.isFile(env.resolve(path))
      ensures CurrentLog() == Record(env, old(CurrentLog()), requester, Plain(IsFileKind, path), Truth(answer))
    {
      var key := Resolve(path);
      if key !in files {
        files := files[key := world.isFile(key)];
      }
      answer := files[key];
      RecordAnswer(requester, Plain(IsFileKind, path), Truth(answer));
    }

    /** Direct children of a directory; `None` stands for the error of a failed listing, after
        which nothing has been recorded. */
    method QueryDirectoryEntries(requester: Path, path: Path) returns (r: Option<seq<Path>>)
      requires Ready() && EntriesOk(world, entryLists)
      modifies `resolvedPaths, `recordedQueries, `dependencies, `dependencySet, `dependenciesByRequester, `entryLists
      ensures Ready() && EntriesOk(world, entryLists)
      ensures r == world.entries(env.absolute(path))
      ensures r.None? ==> CurrentLog() == old(CurrentLog())
      ensures r.Some? ==>
                CurrentLog() == Record(env, old(CurrentLog()), requester, Plain(EntriesKind, env.absolute(path)),
                                       Paths(r.value))
    {
      var key := env.absolute(path);
      assert env.absolute(env.absolute(path)) == key;
      if key !in entryLists {
        var entries := world.entries(key);
        if entries.None? {
          return None;
        }
        entryLists := entryLists[key := entries.value];
      }
      r := Some(entryLists[key]);
      RecordAnswer(requester, Plain(EntriesKind, key), Paths(entryLists[key]));
    }

    method QueryGlob(requester: Path, path: Path, pattern: string, recursive: bool) returns (r: seq<Path>)
      requires Ready() && GlobsOk(world, globs)
      modifies `resolvedPaths, `recordedQueries, `dependencies, `dependencySet, `dependenciesByRequester, `globs
      ensures Ready() && GlobsOk(world, globs)
      ensures r == world.glob(env.absolute(path), pattern, recursive)
      ensures CurrentLog() ==
              Record(env, old(CurrentLog()), requester,
                     Observation(GlobKind, env.absolute(path), Some(pattern), recursive, false), Paths(r))
    {
      var queryPath := env.absolute(path);
      var key := (queryPath, pattern, recursive);
      if key !in globs {
        globs := globs[key := world.glob(queryPath, pattern, recursive)];
      }
      r := globs[key];
      var o := Observation(GlobKind, queryPath, Some(pattern), recursive, false);
      RecordAnswer(requester, o, Paths(r));
    }

    method QueryPythonAnchor(requester: Path, path: Path) returns (r: Option<Path>)
      requires Ready() && AnchorsOk(env, world, pythonAnchors)
      modifies `resolvedPaths, `recordedQueries, `dependencies, `dependencySet, `dependenciesByRequester, `pythonAnchors
      ensures Ready() && AnchorsOk(env, world, pythonAnchors)
      ensures r == AnchorAt(env, world, env.absolute(path))
      ensures AnchoredAt(env, world, env.absolute(path), r)
      ensures CurrentLog() == Record(env, old(CurrentLog()), requester, Plain(AnchorKind, env.absolute(path)),
                                     Paths(AnchorAnswer(r)))
    {
      AnchorMeaning(env, world, env.absolute(path));
      var key := env.absolute(path);
      if key !in pythonAnchors {
        pythonAnchors := pythonAnchors[key := AnchorAt(env, world, key)];
      }
      r := pythonAnchors[key];
      RecordAnswer(requester, Plain(AnchorKind, key), Paths(AnchorAnswer(r)));
    }

    // -------------------------------------------------------------------------------------------
    // Module lookup
    // -------------------------------------------------------------------------------------------

    /** Ask for the candidate files in order until one of them is a file. */
    method FirstExisting(requester: Path, candidates: seq<Path>) returns (r: Option<Path>)
      requires Ready() && FlagsOk(world.isFile, files)
      modifies `resolvedPaths, `recordedQueries, `dependencies, `dependencySet, `dependenciesByRequester, `files
      ensures Ready() && FlagsOk(world.isFile, files)
      ensures r == FirstFile(env, world, candidates)
      ensures Recorded(env, tree, world, old(CurrentLog()), CurrentLog(), requester, FileChecks(env, world, candidates))
    {
      ghost var done: seq<Observation> := [];
      RecordedNothing(env, tree, world, CurrentLog(), requester);
      for index := 0 to |candidates|
        invariant Ready() && FlagsOk(world.isFile, files)
        invariant Recorded(env, tree, world, old(CurrentLog()), CurrentLog(), requester, done)
        invariant done + FileChecks(env, world, candidates[index..]) == FileChecks(env, world, candidates)
        invariant FirstFile(env, world, candidates[index..]) == FirstFile(env, world, candidates)
      {
        ghost var before := CurrentLog();
        var isFile := QueryIsFile(requester, candidates[index]);
        RecordedOne(env, tree, world, before, requester, Plain(IsFileKind, candidates[index]), Truth(isFile));
        RecordedConcat(env, tree, world, old(CurrentLog()), before, CurrentLog(), requester, done,
                       [Plain(IsFileKind, candidates[index])]);
        NextFile(env, world, candidates, index, done);
        done := done + [Plain(IsFileKind, candidates[index])];
        if isFile {
          return Some(candidates[index]);
        }
      }
      assert done + [] == done;
      return None;
    }

    /** The file that defines a module, trying the sources in order. */
    method FindModule(requester: Path, parts: seq<string>) returns (r: Lookup)
      requires Ready() && FlagsOk(world.isFile, files)
      modifies `resolvedPaths, `recordedQueries, `dependencies, `dependencySet, `dependenciesByRequester, `files
      ensures Ready() && FlagsOk(world.isFile, files)
      ensures r == ModulePath(env, world, tree.sources, parts)
      ensures Leads(env, world, tree.sources, parts, r)
      ensures forall other | Leads(env, world, tree.sources, parts, other) :: other == r
      ensures Recorded(env, tree, world, old(CurrentLog()), CurrentLog(), requester,
                       ModuleChecks(env, world, tree.sources, parts))
    {
      OnlyModulePath(env, world, tree.sources, parts);
      if parts == [] {
        RecordedNothing(env, tree, world, CurrentLog(), requester);
        return Missing;
      }
      ghost var done: seq<Observation> := [];
      RecordedNothing(env, tree, world, CurrentLog(), requester);
      for index := 0 to |tree.sources|
        invariant Ready() && FlagsOk(world.isFile, files)
        invariant Recorded(env, tree, world, old(CurrentLog()), CurrentLog(), requester, done)
        invariant done + ModuleChecks(env, world, tree.sources[index..], parts) ==
                  ModuleChecks(env, world, tree.sources, parts)
        invariant ModulePath(env, world, tree.sources[index..], parts) == ModulePath(env, world, tree.sources, parts)
      {
        var candidates := Tried(tree.sources[index], parts);
        NextSource(env, world, tree.sources, parts, index, done);
        if candidates.None? {
          return Invalid;
        }
        ghost var before := CurrentLog();
        var found := FirstExisting(requester, candidates.value);
        ghost var checks := FileChecks(env, world, candidates.value);
        RecordedConcat(env, tree, world, old(CurrentLog()), before, CurrentLog(), requester, done, checks);
        done := done + checks;
        if found.Some? {
          return Found(found.value);
        }
      }
      assert done + [] == done;
      return Missing;
    }

    /** The first function of that name where a lookup led; `Raised` when naming the module's files
        was an error. */
    method FunctionAt(requester: Path, lookup: Lookup, name: string) returns (r: Response)
      requires Ready() && SourcesValid()
      modifies `resolvedPaths, `recordedQueries, `dependencies, `dependencySet, `dependenciesByRequester,
               `parsedModules, `externalAnalyses, `queriedSources, `sourceAnswers
      ensures Ready() && SourcesValid()
      ensures r == FunctionResponse(env, tree, world, lookup, name)
      ensures Recorded(env, tree, world, old(CurrentLog()), CurrentLog(), requester, LookupSource(lookup))
    {
      if lookup.Found? {
        var analysis := QueryAnalysis(requester, lookup.path);
        RecordedOne(env, tree, world, old(CurrentLog()), requester, Plain(SourceKind, lookup.path),
                    sourceAnswers[env.resolve(lookup.path)]);
        return FunctionIs(FunctionIn(analysis, name));
      }
      RecordedNothing(env, tree, world, CurrentLog(), requester);
      return if lookup.Missing? then FunctionIs(None) else Raised;
    }

    /** The first function of that name in a project module. */
    method QueryModuleFunction(requester: Path, parts: seq<string>, name: string) returns (r: Response)
      requires Ready() && FlagsOk(world.isFile, files) && SourcesValid()
      modifies `resolvedPaths, `recordedQueries, `dependencies, `dependencySet, `dependenciesByRequester, `files,
               `parsedModules, `externalAnalyses, `queriedSources, `sourceAnswers
      ensures Ready() && FlagsOk(world.isFile, files) && SourcesValid()
      ensures Means(env, tree, world, ModuleFunction(parts, name), r)
      ensures var lookup := ModulePath(env, world, tree.sources, parts);
        && r == FunctionResponse(env, tree, world, lookup, name)
        && Recorded(env, tree, world, old(CurrentLog()), CurrentLog(), requester,
                    ModuleChecks(env, world, tree.sources, parts) + LookupSource(lookup))
    {
      ReferenceMeaning(env, tree, world, ModuleFunction(parts, name));
      var lookup := FindModule(requester, parts);
      ghost var between := CurrentLog();
      r := FunctionAt(requester, lookup, name);
      RecordedConcat(env, tree, world, old(CurrentLog()), between, CurrentLog(), requester,
                     ModuleChecks(env, world, tree.sources, parts), LookupSource(lookup));
    }
  }

  lemma NextFile(env: Environment, w: World, candidates: seq<Path>, index: nat, done: seq<Observation>)
    requires index < |candidates|
    requires done + FileChecks(env, w, candidates[index..]) == FileChecks(env, w, candidates)
    ensures var here := done + [Plain(IsFileKind, candidates[index])];
            if w.isFile(env.resolve(candidates[index]))
            then here == FileChecks(env, w, candidates) &&
                 FirstFile(env, w, candidates[index..]) == Some(candidates[index])
            else here + FileChecks(env, w, candidates[index + 1..]) == FileChecks(env, w, candidates) &&
                 FirstFile(env, w, candidates[index..]) == FirstFile(env, w, candidates[index + 1..])
  {
    assert candidates[index..][1..] == candidates[index + 1..];
    assert FileChecks(env, w, candidates[index..])[0] == Plain(IsFileKind, candidates[index]);
  }

  lemma NextSource(env: Environment, w: World, sources: seq<ProjectSource>, parts: seq<string>, index: nat,
                   done: seq<Observation>)
    requires index < |sources| && parts != []
    requires done + ModuleChecks(env, w, sources[index..], parts) == ModuleChecks(env, w, sources, parts)
    ensures var candidates := Tried(sources[index], parts);
            match candidates
            case None =>
              done == ModuleChecks(env, w, sources, parts) && ModulePath(env, w, sources[index..], parts) == Invalid
            case Some(paths) =>
              var here := done + FileChecks(env, w, paths);
              match FirstFile(env, w, paths)
              case Some(path) =>
                here == ModuleChecks(env, w, sources, parts) &&
                ModulePath(env, w, sources[index..], parts) == Found(path)
              case None =>
                here + ModuleChecks(env, w, sources[index + 1..], parts) == ModuleChecks(env, w, sources, parts) &&
                ModulePath(env, w, sources[index..], parts) == ModulePath(env, w, sources[index + 1..], parts)
  {
    var rest := sources[index..];
    assert rest[1..] == sources[index + 1..];
    match Tried(sources[index], parts)
    case None => NothingMore(done);
    case Some(paths) =>
      if FirstFile(env, w, paths).Some? {
        NothingMore(FileChecks(env, w, paths));
      } else {
        Regroup(done, FileChecks(env, w, paths), ModuleChecks(env, w, sources[index + 1..], parts));
      }
  }
}
