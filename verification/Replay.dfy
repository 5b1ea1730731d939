/** Reusing a result whose recorded dependencies still hold: the rule would give it again. */
module Replay {
  import opened Options
  import opened ProjectWorld
  import opened DependencyLog

  // ---------------------------------------------------------------------------------------------
  // Rules
  // ---------------------------------------------------------------------------------------------

  /**
   * What a rule does after the responses it has seen: ask the next question, on its own behalf or naming
   * another requester; list the dependencies recorded so far, all of them or those of one requester; or
   * finish. A query that raises is a response like any other: rules may catch it.
   */
  datatype Step =
    | Ask(query: Query, named: Option<Path>)
    | ListAll
    | ListFor(named: Option<Path>)
    | Finish(result: string)

  type Rule = seq<Response> -> Step

  /** The requester a step is taken for. */
  function Bound(requester: Path, step: Step): Path
    requires step.Ask? || step.ListFor?
  {
    if step.named.None? then requester else step.named.value
  }

  /** The step reads the log instead of the project. */
  predicate ReadsLog(step: Step) {
    step.ListAll? || step.ListFor?
  }

  /** In world `w` the step is answered with `response` and takes the log from `before` to `after`. */
  ghost predicate Takes(env: Environment, tree: Tree, w: World, requester: Path, step: Step, before: Log,
                        response: Response, after: Log)
  {
    match step
    case Ask(query, _) =>
      && response == Reference(env, tree, w, query)
      && Recorded(env, tree, w, before, after, Bound(requester, step), Footprint(env, tree, w, query))
    case ListAll => response == DependencyList(before.dependencies) && after == before
    case ListFor(_) =>
      && response == DependencyList(OfRequester(before.dependencies, env.resolve(Bound(requester, step))))
      && after == before
    case Finish(_) => false
  }

  /** The first steps of a rule: `logs` are the logs before, between and after them. */
  ghost predicate IsTrail(env: Environment, tree: Tree, w: World, requester: Path, rule: Rule,
                          responses: seq<Response>, logs: seq<Log>)
  {
    && |logs| == |responses| + 1
    && forall i | 0 <= i < |responses| ::
         Takes(env, tree, w, requester, rule(responses[..i]), logs[i], responses[i], logs[i + 1])
  }

  ghost predicate IsRun(env: Environment, tree: Tree, w: World, requester: Path, rule: Rule,
                        responses: seq<Response>, logs: seq<Log>)
  {
    IsTrail(env, tree, w, requester, rule, responses, logs) && rule(responses).Finish?
  }

  /** The run never reads the log. */
  predicate IgnoresLog(rule: Rule, responses: seq<Response>) {
    forall i | 0 <= i < |responses| :: !ReadsLog(rule(responses[..i]))
  }

  lemma {:induction false} TrailsAgree(env: Environment, tree: Tree, w: World, p: Path, q: Path, rule: Rule,
                                       a: seq<Response>, la: seq<Log>, b: seq<Response>, lb: seq<Log>, n: nat)
    requires IsTrail(env, tree, w, p, rule, a, la) && IgnoresLog(rule, a) && IsTrail(env, tree, w, q, rule, b, lb)
    requires n <= |a| && n <= |b|
    ensures a[..n] == b[..n]
  {
    if n > 0 {
      TrailsAgree(env, tree, w, p, q, rule, a, la, b, lb, n - 1);
      assert Takes(env, tree, w, p, rule(a[..n - 1]), la[n - 1], a[n - 1], la[n]);
      assert Takes(env, tree, w, q, rule(b[..n - 1]), lb[n - 1], b[n - 1], lb[n]);
      assert a[..n] == a[..n - 1] + [a[n - 1]] && b[..n] == b[..n - 1] + [b[n - 1]];
    }
  }

  lemma TrailGoesOn(env: Environment, tree: Tree, w: World, requester: Path, rule: Rule, responses: seq<Response>,
                    logs: seq<Log>)
    requires IsTrail(env, tree, w, requester, rule, responses, logs)
    ensures forall n | 0 <= n < |responses| :: !rule(responses[..n]).Finish?
  {
    forall n | 0 <= n < |responses| ensures !rule(responses[..n]).Finish? {
      assert Takes(env, tree, w, requester, rule(responses[..n]), logs[n], responses[n], logs[n + 1]);
    }
  }

  /** Nothing goes on behind a run that ignores the log, whatever the log is and whoever asks. */
  lemma TrailsEndWithTheRun(env: Environment, tree: Tree, w: World, p: Path, q: Path, rule: Rule,
                            a: seq<Response>, la: seq<Log>, b: seq<Response>, lb: seq<Log>)
    requires IsRun(env, tree, w, p, rule, a, la) && IgnoresLog(rule, a) && IsTrail(env, tree, w, q, rule, b, lb)
    ensures |b| <= |a|
  {
    TrailGoesOn(env, tree, w, q, rule, b, lb);
    assert a[..|a|] == a;
    if |b| > |a| {
      TrailsAgree(env, tree, w, p, q, rule, a, la, b, lb, |a|);
    }
  }

  /** A run that ignores the log is the only one in its world, whatever was asked before and by whom. */
  lemma RunIsUnique(env: Environment, tree: Tree, w: World, p: Path, q: Path, rule: Rule,
                    a: seq<Response>, la: seq<Log>, b: seq<Response>, lb: seq<Log>)
    requires IsRun(env, tree, w, p, rule, a, la) && IgnoresLog(rule, a) && IsRun(env, tree, w, q, rule, b, lb)
    ensures a == b
  {
    TrailsEndWithTheRun(env, tree, w, p, q, rule, a, la, b, lb);
    TrailGoesOn(env, tree, w, p, rule, a, la);
    assert b[..|b|] == b && a[..|a|] == a;
    TrailsAgree(env, tree, w, p, q, rule, a, la, b, lb, |b|);
  }

  /** From the log `start` on the rule takes at most `most` steps. */
  ghost predicate Bounded(env: Environment, tree: Tree, w: World, requester: Path, rule: Rule, start: Log, most: nat) {
    forall responses: seq<Response>, logs: seq<Log> |
      IsTrail(env, tree, w, requester, rule, responses, logs) && logs[0] == start :: |responses| <= most
  }

  /** A rule with a run that ignores the log finishes after as many steps from every log. */
  lemma QuietRulesAreBounded(env: Environment, tree: Tree, w: World, requester: Path, rule: Rule,
                             run: seq<Response>, logs: seq<Log>, start: Log)
    requires IsRun(env, tree, w, requester, rule, run, logs) && IgnoresLog(rule, run)
    ensures Bounded(env, tree, w, requester, rule, start, |run|)
  {
    forall responses: seq<Response>, others: seq<Log> |
      IsTrail(env, tree, w, requester, rule, responses, others) && others[0] == start
      ensures |responses| <= |run|
    {
      TrailsEndWithTheRun(env, tree, w, requester, requester, rule, run, logs, responses, others);
    }
  }

  // ---------------------------------------------------------------------------------------------
  // What a run records
  // ---------------------------------------------------------------------------------------------

  /** The questions behind step `i` of the run have been asked. */
  ghost predicate StepAsked(env: Environment, tree: Tree, w: World, requester: Path, rule: Rule,
                            responses: seq<Response>, i: nat, log: Log)
    requires i < |responses|
  {
    var step := rule(responses[..i]);
    step.Ask? ==> Asked(log, Bound(requester, step), Footprint(env, tree, w, step.query))
  }

  lemma StillAsked(log: Log, more: Log, requester: Path, footprint: seq<Observation>)
    requires Asked(log, requester, footprint) && Grows(log, more)
    ensures Asked(more, requester, footprint)
  {
  }

  lemma OneMoreAsked(env: Environment, tree: Tree, w: World, requester: Path, rule: Rule, responses: seq<Response>,
                     n: nat, between: Log, after: Log)
    requires ValidEnvironment(env) && ValidLog(env, tree, w, between) && n < |responses|
    requires Takes(env, tree, w, requester, rule(responses[..n]), between, responses[n], after)
    requires forall i | 0 <= i < n :: StepAsked(env, tree, w, requester, rule, responses, i, between)
    ensures ValidLog(env, tree, w, after) && Grows(between, after)
    ensures forall i | 0 <= i <= n :: StepAsked(env, tree, w, requester, rule, responses, i, after)
  {
    var step := rule(responses[..n]);
    if step.Ask? {
      RecordedMeaning(env, tree, w, between, after, Bound(requester, step), Footprint(env, tree, w, step.query));
    }
    forall i | 0 <= i < n ensures StepAsked(env, tree, w, requester, rule, responses, i, after) {
      var earlier := rule(responses[..i]);
      assert StepAsked(env, tree, w, requester, rule, responses, i, between);
      if earlier.Ask? {
        StillAsked(between, after, Bound(requester, earlier), Footprint(env, tree, w, earlier.query));
      }
    }
  }

  /** Along a trail the log stays valid and only grows, and every question of the run gets into it. */
  lemma {:induction false} TrailMeaning(env: Environment, tree: Tree, w: World, requester: Path, rule: Rule,
                                        responses: seq<Response>, logs: seq<Log>, n: nat)
    requires ValidEnvironment(env) && IsTrail(env, tree, w, requester, rule, responses, logs)
    requires ValidLog(env, tree, w, logs[0]) && n < |logs|
    ensures ValidLog(env, tree, w, logs[n]) && Grows(logs[0], logs[n])
    ensures forall i | 0 <= i < n :: StepAsked(env, tree, w, requester, rule, responses, i, logs[n])
  {
    if n > 0 {
      TrailMeaning(env, tree, w, requester, rule, responses, logs, n - 1);
      var m := n - 1;
      assert Takes(env, tree, w, requester, rule(responses[..m]), logs[m], responses[m], logs[m + 1]);
      OneMoreAsked(env, tree, w, requester, rule, responses, m, logs[m], logs[n]);
    }
  }

  // ---------------------------------------------------------------------------------------------
  // Runs exist
  // ---------------------------------------------------------------------------------------------

  lemma {:induction false} FileChecksAreTests(env: Environment, w: World, candidates: seq<Path>)
    ensures forall o | o in FileChecks(env, w, candidates) :: o.kind == IsFileKind && !o.metadata
  {
    if candidates != [] {
      FileChecksAreTests(env, w, candidates[1..]);
    }
  }

  lemma {:induction false} ModuleChecksAreTests(env: Environment, w: World, sources: seq<ProjectSource>,
                                                parts: seq<string>)
    ensures forall o | o in ModuleChecks(env, w, sources, parts) :: o.kind == IsFileKind && !o.metadata
  {
    if parts != [] && sources != [] && Tried(sources[0], parts).Some? {
      FileChecksAreTests(env, w, Tried(sources[0], parts).value);
      ModuleChecksAreTests(env, w, sources[1..], parts);
    }
  }

  lemma DirectAnswer(env: Environment, tree: Tree, w: World, o: Observation) returns (answer: Answer)
    requires if o.metadata then o == MetadataObservation(tree)
             else Observe(env, w, o.kind, o.path, o.pattern, o.recursive).Some?
    ensures Admissible(env, tree, w, o, answer)
  {
    if o.metadata {
      var content := w.read(env.resolve(o.path));
      answer := if content.None? || env.decodeUtf8(content.value).None? then NoAnswer
                else Identity(Sha256(content.value));
    } else {
      answer := Observe(env, w, o.kind, o.path, o.pattern, o.recursive).value;
    }
  }

  /** Every question behind a query has an answer. */
  lemma FootprintIsAnswerable(env: Environment, tree: Tree, w: World, query: Query)
    requires ValidEnvironment(env)
    ensures Answerable(env, tree, w, Footprint(env, tree, w, query))
  {
    forall o | o in Footprint(env, tree, w, query) ensures exists answer :: Admissible(env, tree, w, o, answer) {
      if query.ModuleFunction? {
        ModuleChecksAreTests(env, w, tree.sources, query.moduleParts);
      }
      if query.DirectoryEntries? {
        assert env.absolute(env.absolute(query.path)) == env.absolute(query.path);
      }
      var answer := DirectAnswer(env, tree, w, o);
    }
  }

  /** Questions with these responses can be asked from every log. */
  lemma {:induction false} TrailExists(env: Environment, tree: Tree, w: World, requester: Path, rule: Rule,
                                       responses: seq<Response>, start: Log, n: nat)
    returns (logs: seq<Log>)
    requires ValidEnvironment(env) && n <= |responses|
    requires forall i | 0 <= i < n :: AnswersStep(env, tree, w, rule(responses[..i]), responses[i])
    ensures |logs| == n + 1 && logs[0] == start
    ensures forall i | 0 <= i < n ::
              Takes(env, tree, w, requester, rule(responses[..i]), logs[i], responses[i], logs[i + 1])
  {
    if n == 0 {
      logs := [start];
    } else {
      var before := TrailExists(env, tree, w, requester, rule, responses, start, n - 1);
      var step := rule(responses[..n - 1]);
      assert AnswersStep(env, tree, w, step, responses[n - 1]);
      FootprintIsAnswerable(env, tree, w, step.query);
      var after := CanRecord(env, tree, w, before[n - 1], Bound(requester, step), Footprint(env, tree, w, step.query));
      logs := before + [after];
    }
  }

  /** The step is a question and this is its answer. */
  predicate AnswersStep(env: Environment, tree: Tree, w: World, step: Step, response: Response) {
    step.Ask? && response == Reference(env, tree, w, step.query)
  }

  // ---------------------------------------------------------------------------------------------
  // Dependencies that still hold
  // ---------------------------------------------------------------------------------------------

  /** Asking again in world `w` gives the recorded answer. */
  predicate StillHolds(env: Environment, w: World, d: Dependency) {
    Observe(env, w, d.kind, d.queryPath, d.pattern, d.recursive) == Some(d.answer)
  }

  ghost predicate AllHold(env: Environment, w: World, log: Log, requester: Path) {
    forall d | d in log.dependencies && d.requester == env.resolve(requester) :: StillHolds(env, w, d)
  }

  /** The one condition on the recorded world: its project metadata decodes as Python source
      exactly when it is UTF-8, except that undecodable metadata without entry points is harmless. */
  predicate CoherentMetadata(env: Environment, tree: Tree, w: World) {
    match w.read(env.resolve(MetadataPath(tree)))
    case None => true
    case Some(content) =>
      match env.decodeUtf8(content)
      case None => env.decodePython(content).None?
      case Some(text) =>
        env.decodePython(content).Some? || (env.entrypointModules(text) == [] && env.entrypointSymbols(text) == [])
  }

  /** Source `key` is the same in both worlds, or unreadable now and undecodable then. */
  predicate SameSource(env: Environment, w1: World, w2: World, key: Path) {
    w1.read(key) == w2.read(key) || (w2.read(key).None? && SourceText(env, w1, key).None?)
  }

  /** The question `o` has the same answer in both worlds. */
  predicate SameObservation(env: Environment, w1: World, w2: World, o: Observation) {
    if o.kind == SourceKind then SameSource(env, w1, w2, env.resolve(o.path))
    else Observe(env, w1, o.kind, o.path, o.pattern, o.recursive) ==
         Observe(env, w2, o.kind, o.path, o.pattern, o.recursive)
  }

  lemma ObserveAbsolute(env: Environment, w: World, kind: Kind, path: Path, pattern: Option<string>, recursive: bool)
    requires ValidEnvironment(env)
    ensures Observe(env, w, kind, env.absolute(path), pattern, recursive) ==
            Observe(env, w, kind, path, pattern, recursive)
  {
    assert env.resolve(env.absolute(path)) == env.resolve(path);
    assert env.absolute(env.absolute(path)) == env.absolute(path);
  }

  /** A dependency that still holds settles every question with its identity. */
  lemma HeldDependency(env: Environment, tree: Tree, w1: World, w2: World, requester: Path, o: Observation,
                       d: Dependency)
    requires ValidEnvironment(env) && CoherentMetadata(env, tree, w1)
    requires Honest(env, tree, w1, d) && Answers(env, d, KeyOf(requester, o)) && StillHolds(env, w2, d)
    ensures SameObservation(env, w1, w2, o)
  {
    var r: Path, p: Observation :| Admissible(env, tree, w1, p, d.answer) && Answers(env, d, KeyOf(r, p));
    ObserveAbsolute(env, w1, o.kind, o.path, o.pattern, o.recursive);
    ObserveAbsolute(env, w2, o.kind, o.path, o.pattern, o.recursive);
    ObserveAbsolute(env, w1, p.kind, p.path, p.pattern, p.recursive);
    assert env.resolve(o.path) == d.dependency == env.resolve(p.path);
  }

  lemma AskedObservation(env: Environment, tree: Tree, w1: World, w2: World, log: Log, requester: Path, o: Observation)
    requires ValidEnvironment(env) && CoherentMetadata(env, tree, w1) && ValidLog(env, tree, w1, log)
    requires KeyOf(requester, o) in log.keys && AllHold(env, w2, log, requester)
    ensures SameObservation(env, w1, w2, o)
  {
    var d :| d in log.dependencies && Answers(env, d, KeyOf(requester, o));
    HeldDependency(env, tree, w1, w2, requester, o, d);
  }

  // ---------------------------------------------------------------------------------------------
  // Queries that read the same
  // ---------------------------------------------------------------------------------------------

  ghost predicate SameFootprint(env: Environment, w1: World, w2: World, footprint: seq<Observation>) {
    forall o | o in footprint :: SameObservation(env, w1, w2, o)
  }

  lemma SameAnalysis(env: Environment, tree: Tree, w1: World, w2: World, key: Path)
    requires SameSource(env, w1, w2, key)
    ensures AnalysisAt(env, tree, w1, key) == AnalysisAt(env, tree, w2, key)
    ensures SourceText(env, w1, key) == SourceText(env, w2, key)
  {
  }

  lemma SameMetadata(env: Environment, tree: Tree, w1: World, w2: World)
    requires CoherentMetadata(env, tree, w1) && SameSource(env, w1, w2, env.resolve(MetadataPath(tree)))
    ensures EntrypointModulesOf(env, tree, w1) == EntrypointModulesOf(env, tree, w2)
    ensures EntrypointSymbolsOf(env, tree, w1) == EntrypointSymbolsOf(env, tree, w2)
  {
  }

  lemma {:induction false} SameFiles(env: Environment, w1: World, w2: World, candidates: seq<Path>)
    requires SameFootprint(env, w1, w2, FileChecks(env, w1, candidates))
    ensures FileChecks(env, w1, candidates) == FileChecks(env, w2, candidates)
    ensures FirstFile(env, w1, candidates) == FirstFile(env, w2, candidates)
  {
    if candidates != [] {
      var checks := FileChecks(env, w1, candidates);
      assert checks[0] in checks;
      assert SameObservation(env, w1, w2, Plain(IsFileKind, candidates[0]));
      if !w1.isFile(env.resolve(candidates[0])) {
        assert forall o | o in FileChecks(env, w1, candidates[1..]) :: o in checks;
        SameFiles(env, w1, w2, candidates[1..]);
      }
    }
  }

  lemma {:induction false} SameLookup(env: Environment, w1: World, w2: World, sources: seq<ProjectSource>,
                                      parts: seq<string>)
    requires SameFootprint(env, w1, w2, ModuleChecks(env, w1, sources, parts))
    ensures ModuleChecks(env, w1, sources, parts) == ModuleChecks(env, w2, sources, parts)
    ensures ModulePath(env, w1, sources, parts) == ModulePath(env, w2, sources, parts)
  {
    if parts != [] && sources != [] && Tried(sources[0], parts).Some? {
      var candidates := Tried(sources[0], parts).value;
      var checks := ModuleChecks(env, w1, sources, parts);
      assert forall o | o in FileChecks(env, w1, candidates) :: o in checks;
      SameFiles(env, w1, w2, candidates);
      if FirstFile(env, w1, candidates).None? {
        assert forall o | o in ModuleChecks(env, w1, sources[1..], parts) :: o in checks;
        SameLookup(env, w1, w2, sources[1..], parts);
      }
    }
  }

  lemma SameFunction(env: Environment, tree: Tree, w1: World, w2: World, parts: seq<string>, name: string)
    requires SameFootprint(env, w1, w2, Footprint(env, tree, w1, ModuleFunction(parts, name)))
    ensures Reference(env, tree, w2, ModuleFunction(parts, name)) ==
            Reference(env, tree, w1, ModuleFunction(parts, name))
    ensures Footprint(env, tree, w2, ModuleFunction(parts, name)) ==
            Footprint(env, tree, w1, ModuleFunction(parts, name))
  {
    var footprint := Footprint(env, tree, w1, ModuleFunction(parts, name));
    var checks, lookup := ModuleChecks(env, w1, tree.sources, parts), ModulePath(env, w1, tree.sources, parts);
    assert footprint == checks + LookupSource(lookup);
    assert forall o | o in checks :: o in footprint;
    SameLookup(env, w1, w2, tree.sources, parts);
    if lookup.Found? {
      assert footprint[|checks|] == Plain(SourceKind, lookup.path);
      assert Plain(SourceKind, lookup.path) in footprint;
      SameAnalysis(env, tree, w1, w2, env.resolve(lookup.path));
    }
  }

  lemma SameAnchor(env: Environment, w1: World, w2: World, path: Path)
    requires ValidEnvironment(env) && SameObservation(env, w1, w2, Plain(AnchorKind, env.absolute(path)))
    ensures AnchorAt(env, w1, env.absolute(path)) == AnchorAt(env, w2, env.absolute(path))
  {
    var a, b := AnchorAt(env, w1, env.absolute(path)), AnchorAt(env, w2, env.absolute(path));
    assert env.absolute(env.absolute(path)) == env.absolute(path);
    assert AnchorAnswer(a) == AnchorAnswer(b);
    if a.Some? { assert AnchorAnswer(a)[0] == a.value; }
    if b.Some? { assert AnchorAnswer(b)[0] == b.value; }
  }

  /** The one query that raises without a trace: a listing of something that cannot be listed. */
  predicate FailedListing(env: Environment, w: World, query: Query) {
    query.DirectoryEntries? && w.entries(env.absolute(query.path)).None?
  }

  /** A query whose questions have the same answers asks the same questions and answers the same. */
  lemma SameQuery(env: Environment, tree: Tree, w1: World, w2: World, query: Query)
    requires ValidEnvironment(env) && CoherentMetadata(env, tree, w1) && !FailedListing(env, w1, query)
    requires SameFootprint(env, w1, w2, Footprint(env, tree, w1, query))
    ensures Reference(env, tree, w2, query) == Reference(env, tree, w1, query)
    ensures Footprint(env, tree, w2, query) == Footprint(env, tree, w1, query)
  {
    if query.ModuleFunction? {
      SameFunction(env, tree, w1, w2, query.moduleParts, query.name);
    } else {
      var footprint := Footprint(env, tree, w1, query);
      assert footprint[0] in footprint;
      match query
      case AnalysisOf(path) => SameAnalysis(env, tree, w1, w2, env.resolve(path));
      case NativeSourceOf(path) => SameAnalysis(env, tree, w1, w2, env.resolve(path));
      case DataclassesOf(path) => SameAnalysis(env, tree, w1, w2, env.resolve(path));
      case EntrypointModules => SameMetadata(env, tree, w1, w2);
      case EntrypointSymbols => SameMetadata(env, tree, w1, w2);
      case PythonAnchor(path) => SameAnchor(env, w1, w2, path);
      case DirectoryEntries(path) => assert env.absolute(env.absolute(path)) == env.absolute(path);
      case Glob(path, _, _) => assert env.absolute(env.absolute(path)) == env.absolute(path);
      case _ =>
    }
  }

  // ---------------------------------------------------------------------------------------------
  // Replay
  // ---------------------------------------------------------------------------------------------

  /** No listing that the run asks for fails. */
  predicate ListsOnlyDirectories(env: Environment, w: World, rule: Rule, responses: seq<Response>) {
    forall i | 0 <= i < |responses| :: rule(responses[..i]).Ask? ==> !FailedListing(env, w, rule(responses[..i]).query)
  }

  /** Every question of the run is recorded for the requester the run belongs to. */
  predicate AsksForItself(env: Environment, rule: Rule, responses: seq<Response>, requester: Path) {
    forall i | 0 <= i < |responses| ::
      rule(responses[..i]).Ask? ==> env.resolve(Bound(requester, rule(responses[..i]))) == env.resolve(requester)
  }

  lemma StepHolds(env: Environment, tree: Tree, w1: World, w2: World, step: Step, log: Log, requester: Path)
    requires ValidEnvironment(env) && CoherentMetadata(env, tree, w1) && ValidLog(env, tree, w1, log)
    requires step.Ask? && !FailedListing(env, w1, step.query)
    requires env.resolve(Bound(requester, step)) == env.resolve(requester)
    requires Asked(log, Bound(requester, step), Footprint(env, tree, w1, step.query)) &&
             AllHold(env, w2, log, requester)
    ensures Reference(env, tree, w2, step.query) == Reference(env, tree, w1, step.query)
    ensures Footprint(env, tree, w2, step.query) == Footprint(env, tree, w1, step.query)
  {
    var bound := Bound(requester, step);
    assert AllHold(env, w2, log, bound);
    forall o | o in Footprint(env, tree, w1, step.query) ensures SameObservation(env, w1, w2, o) {
      assert KeyOf(bound, o) in log.keys;
      AskedObservation(env, tree, w1, w2, log, bound, o);
    }
    SameQuery(env, tree, w1, w2, step.query);
  }

  /**
   * Replay soundness: where everything recorded for its requester still holds, a rule that has ignored the
   * log has the same run, query by query with the same questions, from whatever log it starts.
   */
  lemma ReplaySound(env: Environment, tree: Tree, w1: World, w2: World, requester: Path, rule: Rule,
                    responses: seq<Response>, logs: seq<Log>, start: Log)
    returns (again: seq<Log>)
    requires ValidEnvironment(env) && CoherentMetadata(env, tree, w1)
    requires IsRun(env, tree, w1, requester, rule, responses, logs) && ValidLog(env, tree, w1, logs[0])
    requires IgnoresLog(rule, responses)
    requires ListsOnlyDirectories(env, w1, rule, responses) && AsksForItself(env, rule, responses, requester)
    requires AllHold(env, w2, logs[|responses|], requester)
    ensures IsRun(env, tree, w2, requester, rule, responses, again) && again[0] == start
    ensures forall i | 0 <= i < |responses| ::
              rule(responses[..i]).Ask? &&
              Footprint(env, tree, w2, rule(responses[..i]).query) ==
              Footprint(env, tree, w1, rule(responses[..i]).query)
  {
    TrailMeaning(env, tree, w1, requester, rule, responses, logs, |responses|);
    forall i | 0 <= i < |responses|
      ensures AnswersStep(env, tree, w2, rule(responses[..i]), responses[i])
      ensures rule(responses[..i]).Ask? &&
              Footprint(env, tree, w2, rule(responses[..i]).query) ==
              Footprint(env, tree, w1, rule(responses[..i]).query)
    {
      assert Takes(env, tree, w1, requester, rule(responses[..i]), logs[i], responses[i], logs[i + 1]);
      assert StepAsked(env, tree, w1, requester, rule, responses, i, logs[|responses|]);
      StepHolds(env, tree, w1, w2, rule(responses[..i]), logs[|responses|], requester);
    }
    again := TrailExists(env, tree, w2, requester, rule, responses, start, |responses|);
  }
}
