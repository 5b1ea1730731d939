/**
 * Running a rule against the memoizing analysis. Each kind of query is answered by the method
 * that owns it; together they keep all tables right and extend the log by exactly the
 * questions behind the answer.
 */
module Evaluation {
  import opened Options
  import opened ProjectWorld
  import opened DependencyLog
  import opened ProjectAnalysis
  import opened QueryMeanings
  import opened Replay

  /** `r` is the memo-free answer, and the log has grown by exactly the questions behind it. */
  ghost predicate Answered(env: Environment, tree: Tree, w: World, before: Log, after: Log, requester: Path,
                           query: Query, r: Response)
  {
    && r == Reference(env, tree, w, query)
    && Recorded(env, tree, w, before, after, requester, Footprint(env, tree, w, query))
  }

  lemma AnsweredOne(env: Environment, tree: Tree, w: World, before: Log, after: Log, requester: Path, query: Query,
                    r: Response, o: Observation, answer: Answer)
    requires r == Reference(env, tree, w, query) && Footprint(env, tree, w, query) == [o]
    requires Admissible(env, tree, w, o, answer) && after == Record(env, before, requester, o, answer)
    ensures Answered(env, tree, w, before, after, requester, query, r)
  {
    RecordedOne(env, tree, w, before, requester, o, answer);
  }

  /** The same of one call on an analysis. */
  twostate predicate Replied(analysis: ProjectAnalysis, requester: Path, query: Query, r: Response)
    reads analysis`recordedQueries, analysis`dependencies
  {
    Answered(analysis.env, analysis.tree, analysis.world, old(analysis.CurrentLog()), analysis.CurrentLog(),
             requester, query, r)
  }

  /** Answer one query through the analysis: the memo tables never show. */
  method AnswerQuery(analysis: ProjectAnalysis, requester: Path, query: Query) returns (r: Response)
    requires analysis.Valid()
    modifies analysis
    ensures analysis.Valid()
    ensures Means(analysis.env, analysis.tree, analysis.world, query, r)
    ensures Replied(analysis, requester, query, r)
  {
    ReferenceMeaning(analysis.env, analysis.tree, analysis.world, query);
    if ReadsMetadata(query) {
      r := AnswerAboutMetadata(analysis, requester, query);
    } else {
      r := AnswerAboutProject(analysis, requester, query);
    }
  }

  predicate AnalysesFiles(query: Query) {
    query.AnalysisOf? || query.NativeSourceOf? || query.DataclassesOf? || query.ModuleFunction?
  }

  predicate ReadsMetadata(query: Query) {
    query.EntrypointModules? || query.EntrypointSymbols?
  }

  predicate TestsPath(query: Query) {
    query.Exists? || query.IsFile? || query.IsDir?
  }

  method AnswerAboutProject(analysis: ProjectAnalysis, requester: Path, query: Query) returns (r: Response)
    requires analysis.Ready() && analysis.SourcesValid() && analysis.ListingsValid() && analysis.EntrypointsValid()
    requires !ReadsMetadata(query)
    modifies analysis`resolvedPaths, analysis`recordedQueries, analysis`dependencies, analysis`dependencySet,
             analysis`dependenciesByRequester,
             analysis`parsedModules, analysis`externalAnalyses, analysis`queriedSources, analysis`sourceAnswers,
             analysis`dataclassFacts,
             analysis`existing, analysis`files, analysis`directories,
             analysis`entryLists, analysis`globs, analysis`pythonAnchors
    ensures analysis.Ready() && analysis.SourcesValid() && analysis.ListingsValid() && analysis.EntrypointsValid()
    ensures Replied(analysis, requester, query, r)
  {
    r := AnswerFromProject(analysis, requester, query);
    analysis.KeepEntrypoints();
  }

  method AnswerFromProject(analysis: ProjectAnalysis, requester: Path, query: Query) returns (r: Response)
    requires analysis.Ready() && analysis.SourcesValid() && analysis.ListingsValid()
    requires !ReadsMetadata(query)
    modifies analysis`resolvedPaths, analysis`recordedQueries, analysis`dependencies, analysis`dependencySet,
             analysis`dependenciesByRequester,
             analysis`parsedModules, analysis`externalAnalyses, analysis`queriedSources, analysis`sourceAnswers,
             analysis`dataclassFacts,
             analysis`existing, analysis`files, analysis`directories,
             analysis`entryLists, analysis`globs, analysis`pythonAnchors
    ensures analysis.Ready() && analysis.SourcesValid() && analysis.ListingsValid()
    ensures Replied(analysis, requester, query, r)
  {
    if AnalysesFiles(query) {
      r := AnswerAboutFiles(analysis, requester, query);
    } else {
      r := AnswerAboutListings(analysis, requester, query);
    }
  }

  method AnswerAboutFiles(analysis: ProjectAnalysis, requester: Path, query: Query) returns (r: Response)
    requires analysis.Ready() && analysis.SourcesValid() && analysis.ListingsValid()
    requires AnalysesFiles(query)
    modifies analysis`resolvedPaths, analysis`recordedQueries, analysis`dependencies, analysis`dependencySet,
             analysis`dependenciesByRequester,
             analysis`parsedModules, analysis`externalAnalyses, analysis`queriedSources, analysis`sourceAnswers,
             analysis`dataclassFacts, analysis`files
    ensures analysis.Ready() && analysis.SourcesValid() && analysis.ListingsValid()
    ensures Replied(analysis, requester, query, r)
  {
    r := AnswerFromFiles(analysis, requester, query);
    analysis.KeepListings();
  }

  method AnswerFromFiles(analysis: ProjectAnalysis, requester: Path, query: Query) returns (r: Response)
    requires analysis.Ready() && analysis.SourcesValid() && FlagsOk(analysis.world.isFile, analysis.files)
    requires AnalysesFiles(query)
    modifies analysis`resolvedPaths, analysis`recordedQueries, analysis`dependencies, analysis`dependencySet,
             analysis`dependenciesByRequester,
             analysis`parsedModules, analysis`externalAnalyses, analysis`queriedSources, analysis`sourceAnswers,
             analysis`dataclassFacts, analysis`files
    ensures analysis.Ready() && analysis.SourcesValid() && FlagsOk(analysis.world.isFile, analysis.files)
    ensures Replied(analysis, requester, query, r)
  {
    if query.AnalysisOf? || query.NativeSourceOf? {
      r := AnswerSource(analysis, requester, query);
    } else {
      r := AnswerDeclarations(analysis, requester, query);
    }
  }

  method AnswerAboutListings(analysis: ProjectAnalysis, requester: Path, query: Query) returns (r: Response)
    requires analysis.Ready() && analysis.SourcesValid() && analysis.ListingsValid()
    requires !AnalysesFiles(query) && !ReadsMetadata(query)
    modifies analysis`resolvedPaths, analysis`recordedQueries, analysis`dependencies, analysis`dependencySet,
             analysis`dependenciesByRequester,
             analysis`existing, analysis`files, analysis`directories,
             analysis`entryLists, analysis`globs, analysis`pythonAnchors
    ensures analysis.Ready() && analysis.SourcesValid() && analysis.ListingsValid()
    ensures Replied(analysis, requester, query, r)
  {
    r := AnswerFromListings(analysis, requester, query);
    analysis.KeepSources();
  }

  method AnswerFromListings(analysis: ProjectAnalysis, requester: Path, query: Query) returns (r: Response)
    requires analysis.Ready() && analysis.ListingsValid()
    requires !AnalysesFiles(query) && !ReadsMetadata(query)
    modifies analysis`resolvedPaths, analysis`recordedQueries, analysis`dependencies, analysis`dependencySet,
             analysis`dependenciesByRequester,
             analysis`existing, analysis`files, analysis`directories,
             analysis`entryLists, analysis`globs, analysis`pythonAnchors
    ensures analysis.Ready() && analysis.ListingsValid()
    ensures Replied(analysis, requester, query, r)
  {
    if TestsPath(query) {
      r := AnswerTest(analysis, requester, query);
    } else {
      r := AnswerListing(analysis, requester, query);
    }
  }

  method AnswerAboutMetadata(analysis: ProjectAnalysis, requester: Path, query: Query) returns (r: Response)
    requires analysis.Valid()
    requires ReadsMetadata(query)
    modifies analysis`resolvedPaths, analysis`recordedQueries, analysis`dependencies, analysis`dependencySet,
             analysis`dependenciesByRequester,
             analysis`entrypointModules, analysis`entrypointSymbols, analysis`entrypointFingerprint
    ensures analysis.Valid()
    ensures Replied(analysis, requester, query, r)
  {
    r := AnswerMetadata(analysis, requester, query);
    analysis.KeepListings();
    analysis.KeepSources();
  }

  method AnswerSource(analysis: ProjectAnalysis, requester: Path, query: Query) returns (r: Response)
    requires analysis.Ready() && analysis.SourcesValid()
    requires query.AnalysisOf? || query.NativeSourceOf?
    modifies analysis`resolvedPaths, analysis`recordedQueries, analysis`dependencies, analysis`dependencySet,
             analysis`dependenciesByRequester,
             analysis`parsedModules, analysis`externalAnalyses, analysis`queriedSources, analysis`sourceAnswers,
             analysis`dataclassFacts
    ensures analysis.Ready() && analysis.SourcesValid()
    ensures Replied(analysis, requester, query, r)
  {
    match query {
      case AnalysisOf(path) =>
        var found := analysis.QueryAnalysis(requester, path);
        r := AnalysisIs(found);
      case NativeSourceOf(path) =>
        var source := analysis.QueryNativeSource(requester, path);
        r := SourceIs(source);
    }
    ghost var answer := analysis.sourceAnswers[analysis.env.resolve(query.path)];
    AnsweredOne(analysis.env, analysis.tree, analysis.world, old(analysis.CurrentLog()), analysis.CurrentLog(),
                requester, query, r, Plain(SourceKind, query.path), answer);
  }

  method AnswerDeclarations(analysis: ProjectAnalysis, requester: Path, query: Query) returns (r: Response)
    requires analysis.Ready() && analysis.SourcesValid() && FlagsOk(analysis.world.isFile, analysis.files)
    requires query.DataclassesOf? || query.ModuleFunction?
    modifies analysis`resolvedPaths, analysis`recordedQueries, analysis`dependencies, analysis`dependencySet,
             analysis`dependenciesByRequester,
             analysis`parsedModules, analysis`externalAnalyses, analysis`queriedSources, analysis`sourceAnswers,
             analysis`dataclassFacts, analysis`files
    ensures analysis.Ready() && analysis.SourcesValid() && FlagsOk(analysis.world.isFile, analysis.files)
    ensures Replied(analysis, requester, query, r)
  {
    match query
    case DataclassesOf(path) =>
      r := AnswerDataclasses(analysis, requester, path);
    case ModuleFunction(parts, name) =>
      r := analysis.QueryModuleFunction(requester, parts, name);
  }

  method AnswerDataclasses(analysis: ProjectAnalysis, requester: Path, path: Path) returns (r: Response)
    requires analysis.Ready() && analysis.SourcesValid()
    modifies analysis`resolvedPaths, analysis`recordedQueries, analysis`dependencies, analysis`dependencySet,
             analysis`dependenciesByRequester,
             analysis`parsedModules, analysis`externalAnalyses, analysis`queriedSources, analysis`sourceAnswers,
             analysis`dataclassFacts
    ensures analysis.Ready() && analysis.SourcesValid()
    ensures Replied(analysis, requester, DataclassesOf(path), r)
  {
    var names := analysis.QueryDataclasses(requester, path);
    r := Names(names);
    ghost var answer := analysis.sourceAnswers[analysis.env.resolve(path)];
    AnsweredOne(analysis.env, analysis.tree, analysis.world, old(analysis.CurrentLog()), analysis.CurrentLog(),
                requester, DataclassesOf(path), r, Plain(SourceKind, path), answer);
  }

  method AnswerMetadata(analysis: ProjectAnalysis, requester: Path, query: Query) returns (r: Response)
    requires analysis.Ready() && analysis.EntrypointsValid()
    requires query.EntrypointModules? || query.EntrypointSymbols?
    modifies analysis`resolvedPaths, analysis`recordedQueries, analysis`dependencies, analysis`dependencySet,
             analysis`dependenciesByRequester,
             analysis`entrypointModules, analysis`entrypointSymbols, analysis`entrypointFingerprint
    ensures analysis.Ready() && analysis.EntrypointsValid()
    ensures Replied(analysis, requester, query, r)
  {
    match query
    case EntrypointModules =>
      var names := analysis.QueryEntrypointModules(requester);
      r := Names(names);
      MetadataAnswered(analysis.env, analysis.tree, analysis.world, old(analysis.CurrentLog()), requester, query,
                       analysis.entrypointFingerprint);
    case EntrypointSymbols =>
      var symbols := analysis.QueryEntrypointSymbols(requester);
      r := Symbols(symbols);
      MetadataAnswered(analysis.env, analysis.tree, analysis.world, old(analysis.CurrentLog()), requester, query,
                       analysis.entrypointFingerprint);
  }

  lemma MetadataAnswered(env: Environment, tree: Tree, w: World, before: Log, requester: Path, query: Query,
                         answer: Answer)
    requires ReadsMetadata(query) && Admissible(env, tree, w, MetadataObservation(tree), answer)
    ensures Answered(env, tree, w, before, Record(env, before, requester, MetadataObservation(tree), answer), requester,
                     query, Reference(env, tree, w, query))
  {
    AnsweredOne(env, tree, w, before, Record(env, before, requester, MetadataObservation(tree), answer), requester,
                query, Reference(env, tree, w, query), MetadataObservation(tree), answer);
  }

  method AnswerTest(analysis: ProjectAnalysis, requester: Path, query: Query) returns (r: Response)
    requires analysis.Ready() && FlagsOk(analysis.world.present, analysis.existing)
    requires FlagsOk(analysis.world.isDir, analysis.directories) && FlagsOk(analysis.world.isFile, analysis.files)
    requires TestsPath(query)
    modifies analysis`resolvedPaths, analysis`recordedQueries, analysis`dependencies, analysis`dependencySet,
             analysis`dependenciesByRequester,
             analysis`existing, analysis`files, analysis`directories
    ensures analysis.Ready() && FlagsOk(analysis.world.present, analysis.existing)
    ensures FlagsOk(analysis.world.isDir, analysis.directories) && FlagsOk(analysis.world.isFile, analysis.files)
    ensures Replied(analysis, requester, query, r)
  {
    match query
    case Exists(path) =>
      r := AnswerExists(analysis, requester, path);
    case IsDir(path) =>
      r := AnswerIsDir(analysis, requester, path);
    case IsFile(path) =>
      r := AnswerIsFile(analysis, requester, path);
  }

  method AnswerExists(analysis: ProjectAnalysis, requester: Path, path: Path) returns (r: Response)
    requires analysis.Ready() && FlagsOk(analysis.world.present, analysis.existing)
    modifies analysis`resolvedPaths, analysis`recordedQueries, analysis`dependencies, analysis`dependencySet,
             analysis`dependenciesByRequester, analysis`existing
    ensures analysis.Ready() && FlagsOk(analysis.world.present, analysis.existing)
    ensures Replied(analysis, requester, Exists(path), r)
  {
    var present := analysis.QueryExists(requester, path);
    r := Flag(present);
    AnsweredOne(analysis.env, analysis.tree, analysis.world, old(analysis.CurrentLog()), analysis.CurrentLog(),
                requester, Exists(path), r, Plain(ExistsKind, path), Truth(present));
  }

  method AnswerIsDir(analysis: ProjectAnalysis, requester: Path, path: Path) returns (r: Response)
    requires analysis.Ready() && FlagsOk(analysis.world.isDir, analysis.directories)
    modifies analysis`resolvedPaths, analysis`recordedQueries, analysis`dependencies, analysis`dependencySet,
             analysis`dependenciesByRequester, analysis`directories
    ensures analysis.Ready() && FlagsOk(analysis.world.isDir, analysis.directories)
    ensures Replied(analysis, requester, IsDir(path), r)
  {
    var isDir := analysis.QueryIsDir(requester, path);
    r := Flag(isDir);
    AnsweredOne(analysis.env, analysis.tree, analysis.world, old(analysis.CurrentLog()), analysis.CurrentLog(),
                requester, IsDir(path), r, Plain(IsDirKind, path), Truth(isDir));
  }

  method AnswerIsFile(analysis: ProjectAnalysis, requester: Path, path: Path) returns (r: Response)
    requires analysis.Ready() && FlagsOk(analysis.world.isFile, analysis.files)
    modifies analysis`resolvedPaths, analysis`recordedQueries, analysis`dependencies, analysis`dependencySet,
             analysis`dependenciesByRequester, analysis`files
    ensures analysis.Ready() && FlagsOk(analysis.world.isFile, analysis.files)
    ensures Replied(analysis, requester, IsFile(path), r)
  {
    var isFile := analysis.QueryIsFile(requester, path);
    r := Flag(isFile);
    AnsweredOne(analysis.env, analysis.tree, analysis.world, old(analysis.CurrentLog()), analysis.CurrentLog(),
                requester, IsFile(path), r, Plain(IsFileKind, path), Truth(isFile));
  }

  method AnswerListing(analysis: ProjectAnalysis, requester: Path, query: Query) returns (r: Response)
    requires analysis.Ready() && EntriesOk(analysis.world, analysis.entryLists)
    requires GlobsOk(analysis.world, analysis.globs) && AnchorsOk(analysis.env, analysis.world, analysis.pythonAnchors)
    requires query.DirectoryEntries? || query.Glob? || query.PythonAnchor?
    modifies analysis`resolvedPaths, analysis`recordedQueries, analysis`dependencies, analysis`dependencySet,
             analysis`dependenciesByRequester,
             analysis`entryLists, analysis`globs, analysis`pythonAnchors
    ensures analysis.Ready() && EntriesOk(analysis.world, analysis.entryLists)
    ensures GlobsOk(analysis.world, analysis.globs) && AnchorsOk(analysis.env, analysis.world, analysis.pythonAnchors)
    ensures Replied(analysis, requester, query, r)
  {
    if query.DirectoryEntries? {
      r := AnswerEntries(analysis, requester, query.path);
    } else {
      r := AnswerSearch(analysis, requester, query);
    }
  }

  method AnswerEntries(analysis: ProjectAnalysis, requester: Path, path: Path) returns (r: Response)
    requires analysis.Ready() && EntriesOk(analysis.world, analysis.entryLists)
    modifies analysis`resolvedPaths, analysis`recordedQueries, analysis`dependencies, analysis`dependencySet,
             analysis`dependenciesByRequester, analysis`entryLists
    ensures analysis.Ready() && EntriesOk(analysis.world, analysis.entryLists)
    ensures Replied(analysis, requester, DirectoryEntries(path), r)
  {
    RecordedNothing(analysis.env, analysis.tree, analysis.world, analysis.CurrentLog(), requester);
    var entries := analysis.QueryDirectoryEntries(requester, path);
    if entries.None? {
      return Raised;
    }
    r := PathList(entries.value);
    AnsweredOne(analysis.env, analysis.tree, analysis.world, old(analysis.CurrentLog()), analysis.CurrentLog(),
                requester, DirectoryEntries(path), r,
                Plain(EntriesKind, analysis.env.absolute(path)), Paths(entries.value));
  }

  method AnswerSearch(analysis: ProjectAnalysis, requester: Path, query: Query) returns (r: Response)
    requires analysis.Ready()
    requires GlobsOk(analysis.world, analysis.globs) && AnchorsOk(analysis.env, analysis.world, analysis.pythonAnchors)
    requires query.Glob? || query.PythonAnchor?
    modifies analysis`resolvedPaths, analysis`recordedQueries, analysis`dependencies, analysis`dependencySet,
             analysis`dependenciesByRequester,
             analysis`globs, analysis`pythonAnchors
    ensures analysis.Ready()
    ensures GlobsOk(analysis.world, analysis.globs) && AnchorsOk(analysis.env, analysis.world, analysis.pythonAnchors)
    ensures Replied(analysis, requester, query, r)
  {
    match query
    case Glob(path, pattern, recursive) =>
      r := AnswerGlob(analysis, requester, path, pattern, recursive);
    case PythonAnchor(path) =>
      r := AnswerAnchor(analysis, requester, path);
  }

  lemma GlobAnswered(env: Environment, tree: Tree, w: World, before: Log, requester: Path,
                     path: Path, pattern: string, recursive: bool)
    requires ValidEnvironment(env)
    ensures var o := Observation(GlobKind, env.absolute(path), Some(pattern), recursive, false);
      var paths := w.glob(env.absolute(path), pattern, recursive);
      Answered(env, tree, w, before, Record(env, before, requester, o, Paths(paths)), requester,
               Glob(path, pattern, recursive), PathList(paths))
  {
    var o := Observation(GlobKind, env.absolute(path), Some(pattern), recursive, false);
    var paths := w.glob(env.absolute(path), pattern, recursive);
    AnsweredOne(env, tree, w, before, Record(env, before, requester, o, Paths(paths)), requester,
                Glob(path, pattern, recursive), PathList(paths), o, Paths(paths));
  }

  method AnswerGlob(analysis: ProjectAnalysis, requester: Path, path: Path, pattern: string, recursive: bool)
    returns (r: Response)
    requires analysis.Ready() && GlobsOk(analysis.world, analysis.globs)
    modifies analysis`resolvedPaths, analysis`recordedQueries, analysis`dependencies, analysis`dependencySet,
             analysis`dependenciesByRequester, analysis`globs
    ensures analysis.Ready() && GlobsOk(analysis.world, analysis.globs)
    ensures Replied(analysis, requester, Glob(path, pattern, recursive), r)
  {
    GlobAnswered(analysis.env, analysis.tree, analysis.world, analysis.CurrentLog(), requester,
                 path, pattern, recursive);
    var paths := analysis.QueryGlob(requester, path, pattern, recursive);
    r := PathList(paths);
  }

  lemma AnchorAnswered(env: Environment, tree: Tree, w: World, before: Log, requester: Path, path: Path)
    requires ValidEnvironment(env)
    ensures var o, anchor := Plain(AnchorKind, env.absolute(path)), AnchorAt(env, w, env.absolute(path));
      Answered(env, tree, w, before, Record(env, before, requester, o, Paths(AnchorAnswer(anchor))), requester,
               PythonAnchor(path), AnchorIs(anchor))
  {
    var o, anchor := Plain(AnchorKind, env.absolute(path)), AnchorAt(env, w, env.absolute(path));
    assert env.absolute(env.absolute(path)) == env.absolute(path);
    AnsweredOne(env, tree, w, before, Record(env, before, requester, o, Paths(AnchorAnswer(anchor))), requester,
                PythonAnchor(path), AnchorIs(anchor), o, Paths(AnchorAnswer(anchor)));
  }

  method AnswerAnchor(analysis: ProjectAnalysis, requester: Path, path: Path) returns (r: Response)
    requires analysis.Ready() && AnchorsOk(analysis.env, analysis.world, analysis.pythonAnchors)
    modifies analysis`resolvedPaths, analysis`recordedQueries, analysis`dependencies, analysis`dependencySet,
             analysis`dependenciesByRequester, analysis`pythonAnchors
    ensures analysis.Ready() && AnchorsOk(analysis.env, analysis.world, analysis.pythonAnchors)
    ensures Replied(analysis, requester, PythonAnchor(path), r)
  {
    AnchorAnswered(analysis.env, analysis.tree, analysis.world, analysis.CurrentLog(), requester, path);
    var anchor := analysis.QueryPythonAnchor(requester, path);
    r := AnchorIs(anchor);
  }

  /** List what has been recorded so far: all dependencies, or those of one requester. */
  method ListDependencies(analysis: ProjectAnalysis, requester: Path, step: Step) returns (r: Response)
    requires analysis.Valid() && ReadsLog(step)
    modifies analysis`resolvedPaths
    ensures analysis.Valid()
    ensures Takes(analysis.env, analysis.tree, analysis.world, requester, step, old(analysis.CurrentLog()), r,
                  analysis.CurrentLog())
  {
    if step == ListAll {
      r := DependencyList(analysis.dependencies);
    } else {
      var listed := analysis.DependenciesFor(Bound(requester, step));
      r := DependencyList(listed);
    }
  }

  /** Take one step of a rule. */
  method TakeStep(analysis: ProjectAnalysis, requester: Path, step: Step) returns (r: Response)
    requires analysis.Valid() && !step.Finish?
    modifies analysis
    ensures analysis.Valid()
    ensures Takes(analysis.env, analysis.tree, analysis.world, requester, step, old(analysis.CurrentLog()), r,
                  analysis.CurrentLog())
  {
    if step.Ask? {
      r := AnswerQuery(analysis, Bound(requester, step), step.query);
    } else {
      r := ListDependencies(analysis, requester, step);
    }
  }

  /**
   * Run a rule that finishes from the current log on, within any number of steps. The result is that of a run
   * in which every question has its memo-free answer and is in the log afterwards, whoever asked what before.
   */
  method RunRule(analysis: ProjectAnalysis, requester: Path, rule: Rule, ghost most: nat)
    returns (result: string, ghost responses: seq<Response>, ghost logs: seq<Log>)
    requires analysis.Valid()
    requires Bounded(analysis.env, analysis.tree, analysis.world, requester, rule, analysis.CurrentLog(), most)
    modifies analysis
    ensures analysis.Valid()
    ensures IsRun(analysis.env, analysis.tree, analysis.world, requester, rule, responses, logs)
    ensures result == rule(responses).result
    ensures logs[0] == old(analysis.CurrentLog()) && logs[|responses|] == analysis.CurrentLog()
  {
    var seen: seq<Response> := [];
    logs := [analysis.CurrentLog()];
    while !rule(seen).Finish?
      invariant analysis.Valid() && Ran(analysis, requester, rule, seen, logs) && logs[0] == old(analysis.CurrentLog())
      invariant |seen| <= most
      decreases most - |seen|
    {
      var response := Advance(analysis, requester, rule, seen, logs);
      seen, logs := seen + [response], logs + [analysis.CurrentLog()];
      TrailWithin(analysis.env, analysis.tree, analysis.world, requester, rule, seen, logs, most);
    }
    responses := seen;
    result := rule(seen).result;
  }

  /** The rule has run so far with the responses `seen`, and the analysis holds the log after them. */
  ghost predicate Ran(analysis: ProjectAnalysis, requester: Path, rule: Rule, seen: seq<Response>, logs: seq<Log>)
    reads analysis`recordedQueries, analysis`dependencies
  {
    && IsTrail(analysis.env, analysis.tree, analysis.world, requester, rule, seen, logs)
    && logs[|seen|] == analysis.CurrentLog()
  }

  method Advance(analysis: ProjectAnalysis, requester: Path, rule: Rule, seen: seq<Response>, ghost logs: seq<Log>)
    returns (response: Response)
    requires analysis.Valid() && Ran(analysis, requester, rule, seen, logs) && !rule(seen).Finish?
    modifies analysis
    ensures analysis.Valid() && Ran(analysis, requester, rule, seen + [response], logs + [analysis.CurrentLog()])
  {
    response := TakeStep(analysis, requester, rule(seen));
    LongerTrail(analysis.env, analysis.tree, analysis.world, requester, rule, seen, logs, response,
                analysis.CurrentLog());
  }

  lemma TrailWithin(env: Environment, tree: Tree, w: World, requester: Path, rule: Rule, seen: seq<Response>,
                    logs: seq<Log>, most: nat)
    requires IsTrail(env, tree, w, requester, rule, seen, logs)
    requires Bounded(env, tree, w, requester, rule, logs[0], most)
    ensures |seen| <= most
  {
  }

  lemma LongerTrail(env: Environment, tree: Tree, w: World, requester: Path, rule: Rule, seen: seq<Response>,
                    logs: seq<Log>, response: Response, after: Log)
    requires IsTrail(env, tree, w, requester, rule, seen, logs)
    requires Takes(env, tree, w, requester, rule(seen), logs[|seen|], response, after)
    ensures IsTrail(env, tree, w, requester, rule, seen + [response], logs + [after])
  {
    var more, longer := seen + [response], logs + [after];
    assert seen[..|seen|] == seen;
    forall i | 0 <= i < |more|
      ensures Takes(env, tree, w, requester, rule(more[..i]), longer[i], more[i], longer[i + 1])
    {
      assert more[..i] == seen[..i];
    }
  }
}
