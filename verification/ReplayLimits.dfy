/** When recorded results may be reused, exactly: the conditions of replay soundness cannot be dropped. */
module ReplayLimits {
  import opened Options
  import opened ProjectWorld
  import opened DependencyLog
  import opened Replay

  // ---------------------------------------------------------------------------------------------
  // Safety
  // ---------------------------------------------------------------------------------------------

  /** From some log of world `w` on the rule runs with these responses and leaves `log` behind. */
  ghost predicate RecordsRun(env: Environment, tree: Tree, w: World, requester: Path, rule: Rule,
                             responses: seq<Response>, log: Log)
  {
    exists logs: seq<Log> :: IsRunTo(env, tree, w, requester, rule, responses, logs, log)
  }

  ghost predicate IsRunTo(env: Environment, tree: Tree, w: World, requester: Path, rule: Rule,
                          responses: seq<Response>, logs: seq<Log>, log: Log)
  {
    && IsRun(env, tree, w, requester, rule, responses, logs)
    && ValidLog(env, tree, w, logs[0]) && logs[|responses|] == log
  }

  /** The rule has a run from `start`. */
  ghost predicate RunsFrom(env: Environment, tree: Tree, w: World, requester: Path, rule: Rule, start: Log) {
    exists responses: seq<Response>, logs: seq<Log> ::
      IsRun(env, tree, w, requester, rule, responses, logs) && logs[0] == start
  }

  /** Every run has this result. */
  ghost predicate OnlyResult(env: Environment, tree: Tree, w: World, requester: Path, rule: Rule, result: string) {
    forall responses: seq<Response>, log: Log ::
      RecordsRun(env, tree, w, requester, rule, responses, log) ==>
        rule(responses).Finish? && rule(responses).result == result
  }

  /** Whatever was asked before in world `w`, the rule finishes, and always with this result. */
  ghost predicate Gives(env: Environment, tree: Tree, w: World, requester: Path, rule: Rule, result: string) {
    && (forall start | ValidLog(env, tree, w, start) :: RunsFrom(env, tree, w, requester, rule, start))
    && OnlyResult(env, tree, w, requester, rule, result)
  }

  /** Which habits the runs of a rule are known to have. */
  datatype Habits = Habits(asksForItself: bool, listsOnlyDirectories: bool, ignoresLog: bool)

  predicate Keeps(habits: Habits, env: Environment, w: World, requester: Path, rule: Rule, responses: seq<Response>) {
    && (habits.asksForItself ==> AsksForItself(env, rule, responses, requester))
    && (habits.listsOnlyDirectories ==> ListsOnlyDirectories(env, w, rule, responses))
    && (habits.ignoresLog ==> IgnoresLog(rule, responses))
  }

  /** Whatever is recorded in `w1` for a run with these habits may be reused wherever it still holds. */
  ghost predicate ReplaySafe(habits: Habits, env: Environment, tree: Tree, w1: World) {
    forall w2: World, requester: Path, rule: Rule, responses: seq<Response>, log: Log ::
      && RecordsRun(env, tree, w1, requester, rule, responses, log)
      && Keeps(habits, env, w1, requester, rule, responses)
      && AllHold(env, w2, log, requester)
      ==> rule(responses).Finish? && Gives(env, tree, w2, requester, rule, rule(responses).result)
  }

  lemma RecordedRunReplays(env: Environment, tree: Tree, w1: World, w2: World, requester: Path, rule: Rule,
                           responses: seq<Response>, log: Log)
    requires ValidEnvironment(env) && CoherentMetadata(env, tree, w1)
    requires RecordsRun(env, tree, w1, requester, rule, responses, log) && AllHold(env, w2, log, requester)
    requires Keeps(Habits(true, true, true), env, w1, requester, rule, responses)
    ensures rule(responses).Finish? && Gives(env, tree, w2, requester, rule, rule(responses).result)
  {
    var logs: seq<Log> :| IsRunTo(env, tree, w1, requester, rule, responses, logs, log);
    forall start | ValidLog(env, tree, w2, start) ensures RunsFrom(env, tree, w2, requester, rule, start) {
      var again := ReplaySound(env, tree, w1, w2, requester, rule, responses, logs, start);
    }
    var again := ReplaySound(env, tree, w1, w2, requester, rule, responses, logs, Log({}, []));
    forall others: seq<Response>, last: Log | RecordsRun(env, tree, w2, requester, rule, others, last)
      ensures others == responses
    {
      var trail: seq<Log> :| IsRunTo(env, tree, w2, requester, rule, others, trail, last);
      RunIsUnique(env, tree, w2, requester, requester, rule, responses, again, others, trail);
    }
  }

  // ---------------------------------------------------------------------------------------------
  // Rules that are replayed wrongly
  // ---------------------------------------------------------------------------------------------

  /** Take these steps, and report whether the last response is the expected one. */
  function Taking(steps: seq<Step>, expected: Response): Rule {
    (seen: seq<Response>) =>
      if |seen| < |steps| then steps[|seen|]
      else Finish(if seen != [] && seen[|seen| - 1] == expected then "as expected" else "otherwise")
  }

  lemma Verdict(steps: seq<Step>, expected: Response, seen: seq<Response>)
    requires |seen| == |steps| > 0
    ensures var step := Taking(steps, expected)(seen);
      step.Finish? && (step.result == "as expected" <==> seen[|seen| - 1] == expected)
  {
    assert "as expected"[0] != "otherwise"[0];
  }

  lemma RunRecords(env: Environment, tree: Tree, w: World, requester: Path, rule: Rule, responses: seq<Response>,
                   logs: seq<Log>)
    requires IsRun(env, tree, w, requester, rule, responses, logs) && ValidLog(env, tree, w, logs[0])
    ensures RecordsRun(env, tree, w, requester, rule, responses, logs[|responses|])
  {
    assert IsRunTo(env, tree, w, requester, rule, responses, logs, logs[|responses|]);
  }

  /** The run of a rule that takes one step. */
  lemma OneStep(env: Environment, tree: Tree, w: World, requester: Path, step: Step, expected: Response,
                start: Log, response: Response, after: Log)
    requires ValidLog(env, tree, w, start) && Takes(env, tree, w, requester, step, start, response, after)
    ensures RecordsRun(env, tree, w, requester, Taking([step], expected), [response], after)
  {
    Verdict([step], expected, [response]);
    assert [response][..0] == [];
    RunRecords(env, tree, w, requester, Taking([step], expected), [response], [start, after]);
  }

  lemma TwoSteps(env: Environment, tree: Tree, w: World, requester: Path, first: Step, second: Step, expected: Response,
                 start: Log, one: Response, between: Log, two: Response, after: Log)
    requires ValidLog(env, tree, w, start) && Takes(env, tree, w, requester, first, start, one, between)
    requires Takes(env, tree, w, requester, second, between, two, after)
    ensures RecordsRun(env, tree, w, requester, Taking([first, second], expected), [one, two], after)
  {
    var replies := [one, two];
    Verdict([first, second], expected, replies);
    assert replies[..0] == [] && replies[..1] == [one];
    RunRecords(env, tree, w, requester, Taking([first, second], expected), replies, [start, between, after]);
  }

  /** What makes a recorded run a case of wrong reuse: in `w2` the rule may report something else. */
  ghost predicate WrongReuse(habits: Habits, env: Environment, tree: Tree, w1: World, w2: World, requester: Path,
                             rule: Rule, responses: seq<Response>, log: Log)
  {
    && RecordsRun(env, tree, w1, requester, rule, responses, log)
    && Keeps(habits, env, w1, requester, rule, responses)
    && AllHold(env, w2, log, requester)
    && exists again: seq<Response>, last: Log :: OtherResult(env, tree, w2, requester, rule, responses, again, last)
  }

  ghost predicate OtherResult(env: Environment, tree: Tree, w2: World, requester: Path, rule: Rule,
                              responses: seq<Response>, again: seq<Response>, last: Log)
  {
    && RecordsRun(env, tree, w2, requester, rule, again, last)
    && rule(responses).Finish? && rule(again).Finish? && rule(again).result != rule(responses).result
  }

  lemma IsWrongReuse(habits: Habits, env: Environment, tree: Tree, w1: World, w2: World, requester: Path, rule: Rule,
                     responses: seq<Response>, log: Log, again: seq<Response>, last: Log)
    requires RecordsRun(env, tree, w1, requester, rule, responses, log)
    requires Keeps(habits, env, w1, requester, rule, responses) && AllHold(env, w2, log, requester)
    requires OtherResult(env, tree, w2, requester, rule, responses, again, last)
    ensures WrongReuse(habits, env, tree, w1, w2, requester, rule, responses, log)
  {
  }

  lemma NotGiven(env: Environment, tree: Tree, w: World, requester: Path, rule: Rule, responses: seq<Response>,
                 again: seq<Response>, last: Log)
    requires OtherResult(env, tree, w, requester, rule, responses, again, last)
    ensures !Gives(env, tree, w, requester, rule, rule(responses).result)
  {
  }

  lemma WrongReuseIsUnsafe(wrong: Habits, habits: Habits, env: Environment, tree: Tree, w1: World, w2: World,
                           requester: Path, rule: Rule, responses: seq<Response>, log: Log)
    requires WrongReuse(wrong, env, tree, w1, w2, requester, rule, responses, log)
    requires habits.asksForItself ==> wrong.asksForItself
    requires habits.listsOnlyDirectories ==> wrong.listsOnlyDirectories
    requires habits.ignoresLog ==> wrong.ignoresLog
    ensures !ReplaySafe(habits, env, tree, w1)
  {
    var again: seq<Response>, last: Log :| OtherResult(env, tree, w2, requester, rule, responses, again, last);
    NotGiven(env, tree, w2, requester, rule, responses, again, last);
  }

  lemma EmptyIsValid(env: Environment, tree: Tree, w: World)
    ensures ValidLog(env, tree, w, Log({}, []))
  {
  }

  lemma Answered(env: Environment, tree: Tree, w: World, requester: Path, step: Step, start: Log) returns (after: Log)
    requires ValidEnvironment(env) && step.Ask?
    ensures Takes(env, tree, w, requester, step, start, Reference(env, tree, w, step.query), after)
  {
    FootprintIsAnswerable(env, tree, w, step.query);
    after := CanRecord(env, tree, w, start, Bound(requester, step), Footprint(env, tree, w, step.query));
  }

  lemma OtherAnswer(env: Environment, tree: Tree, w: World, requester: Path, step: Step, expected: Response)
    returns (changed: Response, last: Log)
    requires ValidEnvironment(env) && step.Ask? && Reference(env, tree, w, step.query) != expected
    ensures OtherResult(env, tree, w, requester, Taking([step], expected), [expected], [changed], last)
  {
    changed := Reference(env, tree, w, step.query);
    EmptyIsValid(env, tree, w);
    last := Answered(env, tree, w, requester, step, Log({}, []));
    OneStep(env, tree, w, requester, step, expected, Log({}, []), changed, last);
    Verdict([step], expected, [expected]);
    Verdict([step], expected, [changed]);
  }

  /** A rule that asks one question, where the answer differs and what is recorded says nothing of it. */
  lemma OneQuestion(habits: Habits, env: Environment, tree: Tree, w1: World, w2: World, requester: Path, step: Step,
                    log: Log)
    requires ValidEnvironment(env) && step.Ask?
    requires Reference(env, tree, w1, step.query) != Reference(env, tree, w2, step.query)
    requires Takes(env, tree, w1, requester, step, Log({}, []), Reference(env, tree, w1, step.query), log)
    requires AllHold(env, w2, log, requester)
    requires habits.asksForItself ==> step.named.None?
    requires habits.listsOnlyDirectories ==> !step.query.DirectoryEntries?
    ensures var expected := Reference(env, tree, w1, step.query);
      WrongReuse(habits, env, tree, w1, w2, requester, Taking([step], expected), [expected], log)
  {
    var expected := Reference(env, tree, w1, step.query);
    EmptyIsValid(env, tree, w1);
    OneStep(env, tree, w1, requester, step, expected, Log({}, []), expected, log);
    OneStepHabits(habits, env, w1, requester, step, expected, expected);
    var changed, last := OtherAnswer(env, tree, w2, requester, step, expected);
    IsWrongReuse(habits, env, tree, w1, w2, requester, Taking([step], expected), [expected], log, [changed], last);
  }

  lemma OneStepHabits(habits: Habits, env: Environment, w: World, requester: Path, step: Step, expected: Response,
                      response: Response)
    requires habits.asksForItself && step.Ask? ==> step.named.None?
    requires habits.listsOnlyDirectories && step.Ask? ==> !step.query.DirectoryEntries?
    requires habits.ignoresLog ==> !ReadsLog(step)
    ensures Keeps(habits, env, w, requester, Taking([step], expected), [response])
  {
    assert [response][..0] == [];
  }

  // A failed listing ----------------------------------------------------------------------------

  /** `w` with an empty directory at `p`. */
  function WithDirectory(w: World, p: Path): World {
    w.(entries := q => if q == p then Some([]) else w.entries(q))
  }

  /**
   * A listing that fails leaves no trace: the rule that catches the failure and reports it is reused
   * in the world where the directory has appeared.
   */
  lemma FailedListingIsUnsafe(env: Environment, tree: Tree, w1: World, requester: Path, p: Path)
    requires ValidEnvironment(env) && w1.entries(env.absolute(p)).None?
    ensures WrongReuse(Habits(true, false, true), env, tree, w1, WithDirectory(w1, env.absolute(p)), requester,
                       Taking([Ask(DirectoryEntries(p), None)], Raised), [Raised], Log({}, []))
  {
    var step, empty := Ask(DirectoryEntries(p), None), Log({}, []);
    RecordedNothing(env, tree, w1, empty, requester);
    OneQuestion(Habits(true, false, true), env, tree, w1, WithDirectory(w1, env.absolute(p)), requester, step, empty);
  }

  // Another requester ---------------------------------------------------------------------------

  /** `w` where what is at `key` has come or gone. */
  function Toggled(w: World, key: Path): World {
    w.(present := q => if q == key then !w.present(q) else w.present(q))
  }

  /** What is left in the log for the other requester. */
  function ForeignLog(env: Environment, w: World, other: Path, p: Path): Log {
    var o := Plain(ExistsKind, p);
    Log({KeyOf(other, o)}, [DependencyOf(env, other, o, Truth(w.present(env.resolve(p))))])
  }

  lemma ForeignStepRecorded(env: Environment, tree: Tree, w: World, requester: Path, other: Path, p: Path)
    ensures Takes(env, tree, w, requester, Ask(Exists(p), Some(other)), Log({}, []),
                  Flag(w.present(env.resolve(p))), ForeignLog(env, w, other, p))
  {
    var o, answer := Plain(ExistsKind, p), Truth(w.present(env.resolve(p)));
    RecordedOne(env, tree, w, Log({}, []), other, o, answer);
    assert Record(env, Log({}, []), other, o, answer) == ForeignLog(env, w, other, p);
  }

  lemma ForeignLogHolds(env: Environment, w1: World, w2: World, requester: Path, other: Path, p: Path)
    requires env.resolve(requester) != env.resolve(other)
    ensures AllHold(env, w2, ForeignLog(env, w1, other, p), requester)
  {
  }

  /** A question that names another requester is recorded for that one: the run itself records nothing. */
  lemma ForeignQuestionIsUnsafe(env: Environment, tree: Tree, w1: World, requester: Path, other: Path, p: Path)
    requires ValidEnvironment(env) && env.resolve(requester) != env.resolve(other)
    ensures var expected := Flag(w1.present(env.resolve(p)));
      WrongReuse(Habits(false, true, true), env, tree, w1, Toggled(w1, env.resolve(p)), requester,
                 Taking([Ask(Exists(p), Some(other))], expected), [expected], ForeignLog(env, w1, other, p))
  {
    ForeignStepRecorded(env, tree, w1, requester, other, p);
    ForeignLogHolds(env, w1, Toggled(w1, env.resolve(p)), requester, other, p);
    OneQuestion(Habits(false, true, true), env, tree, w1, Toggled(w1, env.resolve(p)), requester,
                Ask(Exists(p), Some(other)), ForeignLog(env, w1, other, p));
  }

  // The log itself ------------------------------------------------------------------------------

  /** The log that another question leaves behind is a valid one. */
  lemma ForeignLogIsValid(env: Environment, tree: Tree, w: World, other: Path, p: Path)
    requires ValidEnvironment(env)
    ensures ValidLog(env, tree, w, ForeignLog(env, w, other, p))
  {
    EmptyIsValid(env, tree, w);
    ForeignStepRecorded(env, tree, w, other, other, p);
    RecordedMeaning(env, tree, w, Log({}, []), ForeignLog(env, w, other, p), other, [Plain(ExistsKind, p)]);
  }

  lemma ListedLogs(env: Environment, tree: Tree, w: World, requester: Path, step: Step, other: Path, p: Path)
    requires step == ListAll || (step.ListFor? && env.resolve(Bound(requester, step)) == env.resolve(other))
    ensures Takes(env, tree, w, requester, step, Log({}, []), DependencyList([]), Log({}, []))
    ensures var log := ForeignLog(env, w, other, p);
      |log.dependencies| == 1 && Takes(env, tree, w, requester, step, log, DependencyList(log.dependencies), log)
  {
    var log := ForeignLog(env, w, other, p);
    assert log.dependencies[..0] == [] && OfRequester(log.dependencies[..0], env.resolve(other)) == [];
  }

  /**
   * Listing the recorded dependencies records nothing, and what is listed depends on what was asked before:
   * the rule that reports an empty list on a fresh log is reused in the very same world, where from the
   * log with one earlier question it would report something else. This is so for the list of all
   * dependencies and for the list of one requester.
   */
  lemma ListedLogIsUnsafe(env: Environment, tree: Tree, w: World, requester: Path, step: Step, other: Path, p: Path)
    requires ValidEnvironment(env)
    requires step == ListAll || (step.ListFor? && env.resolve(Bound(requester, step)) == env.resolve(other))
    ensures WrongReuse(Habits(true, true, false), env, tree, w, w, requester,
                       Taking([step], DependencyList([])), [DependencyList([])], Log({}, []))
  {
    var empty, log := Log({}, []), ForeignLog(env, w, other, p);
    var nothing, listed := DependencyList([]), DependencyList(log.dependencies);
    var rule := Taking([step], nothing);
    EmptyIsValid(env, tree, w);
    ForeignLogIsValid(env, tree, w, other, p);
    ListedLogs(env, tree, w, requester, step, other, p);
    OneStep(env, tree, w, requester, step, nothing, empty, nothing, empty);
    OneStep(env, tree, w, requester, step, nothing, log, listed, log);
    Verdict([step], nothing, [nothing]);
    Verdict([step], nothing, [listed]);
    OneStepHabits(Habits(true, true, false), env, w, requester, step, nothing, nothing);
    IsWrongReuse(Habits(true, true, false), env, tree, w, w, requester, rule, [nothing], empty, [listed], log);
  }

  // Metadata that decodes in one way only -------------------------------------------------------

  /** The same world without its project metadata. */
  function WithoutMetadata(env: Environment, tree: Tree, w: World): World {
    w.(read := p => if p == env.resolve(MetadataPath(tree)) then None else w.read(p))
  }

  /** Two questions about one spelling of the metadata leave one dependency: the first answer. */
  lemma SecondAnswerIsDropped(env: Environment, tree: Tree, w: World, o: Observation, p: Observation, answer: Answer,
                              later: Answer)
    requires KeyOf([], o) == KeyOf([], p)
    requires Admissible(env, tree, w, o, answer) && Admissible(env, tree, w, p, later)
    ensures var one := Log({KeyOf([], o)}, [DependencyOf(env, [], o, answer)]);
      Recorded(env, tree, w, Log({}, []), one, [], [o]) && Recorded(env, tree, w, one, one, [], [p])
  {
    var one := Log({KeyOf([], o)}, [DependencyOf(env, [], o, answer)]);
    assert Record(env, Log({}, []), [], o, answer) == one;
    assert Record(env, one, [], p, later) == one;
    RecordedOne(env, tree, w, Log({}, []), [], o, answer);
    RecordedOne(env, tree, w, one, [], p, later);
  }

  /** The two questions that expose the metadata, in the order that records it as absent. */
  function ExposingSteps(env: Environment, tree: Tree, w: World): (steps: (Step, Step))
    requires !CoherentMetadata(env, tree, w)
    ensures steps.0.Ask? && steps.1.Ask? && steps.0.named.None? && steps.1.named.None?
    ensures !steps.0.query.DirectoryEntries? && !steps.1.query.DirectoryEntries?
  {
    var plain := Ask(NativeSourceOf(MetadataPath(tree)), None);
    match env.decodeUtf8(w.read(env.resolve(MetadataPath(tree))).value)
    case None => (Ask(EntrypointModules, None), plain)
    case Some(text) =>
      (plain, Ask(if env.entrypointModules(text) != [] then EntrypointModules else EntrypointSymbols, None))
  }

  /** All that is recorded: the metadata is absent. */
  function AbsentMetadata(env: Environment, tree: Tree): Log {
    var o := Plain(SourceKind, MetadataPath(tree));
    Log({KeyOf([], o)}, [DependencyOf(env, [], o, NoAnswer)])
  }

  lemma ExposedAnswerChanges(env: Environment, tree: Tree, w1: World)
    requires !CoherentMetadata(env, tree, w1)
    ensures var query := ExposingSteps(env, tree, w1).1.query;
      Reference(env, tree, WithoutMetadata(env, tree, w1), query) != Reference(env, tree, w1, query)
  {
  }

  lemma ExposingStepsRecorded(env: Environment, tree: Tree, w1: World)
    requires ValidEnvironment(env) && !CoherentMetadata(env, tree, w1)
    ensures var (first, second) := ExposingSteps(env, tree, w1);
      && Takes(env, tree, w1, [], first, Log({}, []), Reference(env, tree, w1, first.query), AbsentMetadata(env, tree))
      && Takes(env, tree, w1, [], second, AbsentMetadata(env, tree), Reference(env, tree, w1, second.query),
               AbsentMetadata(env, tree))
  {
    var metadata, plain := MetadataObservation(tree), Plain(SourceKind, MetadataPath(tree));
    var present := Identity(Sha256(w1.read(env.resolve(MetadataPath(tree))).value));
    assert Admissible(env, tree, w1, plain, present);
    if ExposingSteps(env, tree, w1).0.query == EntrypointModules {
      SecondAnswerIsDropped(env, tree, w1, metadata, plain, NoAnswer, present);
    } else {
      assert Admissible(env, tree, w1, metadata, present);
      SecondAnswerIsDropped(env, tree, w1, plain, metadata, NoAnswer, present);
    }
  }

  lemma AbsentMetadataHolds(env: Environment, tree: Tree, w1: World)
    requires ValidEnvironment(env)
    ensures AllHold(env, WithoutMetadata(env, tree, w1), AbsentMetadata(env, tree), [])
  {
    ObserveAbsolute(env, WithoutMetadata(env, tree, w1), SourceKind, MetadataPath(tree), None, false);
  }

  lemma PlainQuestionsAreUnsafe(env: Environment, tree: Tree, w1: World, w2: World, first: Step, second: Step, log: Log)
    requires ValidEnvironment(env)
    requires first.Ask? && second.Ask? && first.named.None? && second.named.None?
    requires !first.query.DirectoryEntries? && !second.query.DirectoryEntries?
    requires Reference(env, tree, w2, second.query) != Reference(env, tree, w1, second.query)
    requires Takes(env, tree, w1, [], first, Log({}, []), Reference(env, tree, w1, first.query), log)
    requires Takes(env, tree, w1, [], second, log, Reference(env, tree, w1, second.query), log)
    requires AllHold(env, w2, log, [])
    ensures var expected := Reference(env, tree, w1, second.query);
      WrongReuse(Habits(true, true, true), env, tree, w1, w2, [], Taking([first, second], expected),
                 [Reference(env, tree, w1, first.query), expected], log)
  {
    var expected, changed := Reference(env, tree, w1, second.query), Reference(env, tree, w2, second.query);
    var one, other := Reference(env, tree, w1, first.query), Reference(env, tree, w2, first.query);
    var rule, empty := Taking([first, second], expected), Log({}, []);
    EmptyIsValid(env, tree, w1);
    EmptyIsValid(env, tree, w2);
    TwoSteps(env, tree, w1, [], first, second, expected, empty, one, log, expected, log);
    var between := Answered(env, tree, w2, [], first, empty);
    var last := Answered(env, tree, w2, [], second, between);
    TwoSteps(env, tree, w2, [], first, second, expected, empty, other, between, changed, last);
    Verdict([first, second], expected, [one, expected]);
    Verdict([first, second], expected, [other, changed]);
    PlainHabits(env, w1, first, second, expected, [one, expected]);
    IsWrongReuse(Habits(true, true, true), env, tree, w1, w2, [], rule, [one, expected], log, [other, changed], last);
  }

  /** Metadata that decodes in one way only is recorded as absent although it was read: the rule
      that asks for it both ways would be replayed wrongly once the file is gone. */
  lemma IncoherentMetadataIsUnsafe(env: Environment, tree: Tree, w1: World)
    requires ValidEnvironment(env) && !CoherentMetadata(env, tree, w1)
    ensures var (first, second) := ExposingSteps(env, tree, w1);
      var expected := Reference(env, tree, w1, second.query);
      WrongReuse(Habits(true, true, true), env, tree, w1, WithoutMetadata(env, tree, w1), [],
                 Taking([first, second], expected), [Reference(env, tree, w1, first.query), expected],
                 AbsentMetadata(env, tree))
  {
    var (first, second) := ExposingSteps(env, tree, w1);
    ExposingStepsRecorded(env, tree, w1);
    ExposedAnswerChanges(env, tree, w1);
    AbsentMetadataHolds(env, tree, w1);
    var w2, log := WithoutMetadata(env, tree, w1), AbsentMetadata(env, tree);
    PlainQuestionsAreUnsafe(env, tree, w1, w2, first, second, log);
  }

  lemma PlainHabits(env: Environment, w: World, first: Step, second: Step, expected: Response, replies: seq<Response>)
    requires first.Ask? && second.Ask? && first.named.None? && second.named.None? && |replies| == 2
    requires !first.query.DirectoryEntries? && !second.query.DirectoryEntries?
    ensures Keeps(Habits(true, true, true), env, w, [], Taking([first, second], expected), replies)
  {
    assert replies[..0] == [] && replies[..1] == [replies[0]];
  }

  // ---------------------------------------------------------------------------------------------
  // The exact conditions
  // ---------------------------------------------------------------------------------------------

  /** Every listing a rule can ask for succeeds. */
  ghost predicate EveryListingSucceeds(env: Environment, w: World) {
    forall p: Path :: w.entries(env.absolute(p)).Some?
  }

  /** All requesters are one: naming another is no different from asking for oneself. */
  ghost predicate OneRequester(env: Environment) {
    forall a: Path, b: Path :: env.resolve(a) == env.resolve(b)
  }

  /** What runs must be known to do, and the recorded world to be like, for reuse to be safe. */
  ghost predicate Trusted(habits: Habits, env: Environment, tree: Tree, w1: World) {
    && habits.ignoresLog
    && CoherentMetadata(env, tree, w1)
    && (habits.listsOnlyDirectories || EveryListingSucceeds(env, w1))
    && (habits.asksForItself || OneRequester(env))
  }

  lemma TrustedIsSafe(habits: Habits, env: Environment, tree: Tree, w1: World)
    requires ValidEnvironment(env) && Trusted(habits, env, tree, w1)
    ensures ReplaySafe(habits, env, tree, w1)
  {
    forall w2: World, requester: Path, rule: Rule, responses: seq<Response>, log: Log |
      && RecordsRun(env, tree, w1, requester, rule, responses, log)
      && Keeps(habits, env, w1, requester, rule, responses)
      && AllHold(env, w2, log, requester)
      ensures rule(responses).Finish? && Gives(env, tree, w2, requester, rule, rule(responses).result)
    {
      RecordedRunReplays(env, tree, w1, w2, requester, rule, responses, log);
    }
  }

  lemma IncoherentIsUnsafe(habits: Habits, env: Environment, tree: Tree, w1: World)
    requires ValidEnvironment(env) && !CoherentMetadata(env, tree, w1)
    ensures !ReplaySafe(habits, env, tree, w1)
  {
    IncoherentMetadataIsUnsafe(env, tree, w1);
    var (first, second) := ExposingSteps(env, tree, w1);
    var expected := Reference(env, tree, w1, second.query);
    WrongReuseIsUnsafe(Habits(true, true, true), habits, env, tree, w1, WithoutMetadata(env, tree, w1), [],
                       Taking([first, second], expected), [Reference(env, tree, w1, first.query), expected],
                       AbsentMetadata(env, tree));
  }

  lemma FailureIsUnsafe(habits: Habits, env: Environment, tree: Tree, w1: World)
    requires ValidEnvironment(env) && !habits.listsOnlyDirectories && !EveryListingSucceeds(env, w1)
    ensures !ReplaySafe(habits, env, tree, w1)
  {
    var p: Path :| w1.entries(env.absolute(p)).None?;
    FailedListingIsUnsafe(env, tree, w1, [], p);
    WrongReuseIsUnsafe(Habits(true, false, true), habits, env, tree, w1, WithDirectory(w1, env.absolute(p)), [],
                       Taking([Ask(DirectoryEntries(p), None)], Raised), [Raised], Log({}, []));
  }

  lemma NamingIsUnsafe(habits: Habits, env: Environment, tree: Tree, w1: World)
    requires ValidEnvironment(env) && !habits.asksForItself && !OneRequester(env)
    ensures !ReplaySafe(habits, env, tree, w1)
  {
    var requester: Path, other: Path :| env.resolve(requester) != env.resolve(other);
    var expected := Flag(w1.present(env.resolve([])));
    ForeignQuestionIsUnsafe(env, tree, w1, requester, other, []);
    WrongReuseIsUnsafe(Habits(false, true, true), habits, env, tree, w1, Toggled(w1, env.resolve([])), requester,
                       Taking([Ask(Exists([]), Some(other))], expected), [expected], ForeignLog(env, w1, other, []));
  }

  lemma ListingIsUnsafe(habits: Habits, env: Environment, tree: Tree, w1: World)
    requires ValidEnvironment(env) && !habits.ignoresLog
    ensures !ReplaySafe(habits, env, tree, w1)
  {
    ListedLogIsUnsafe(env, tree, w1, [], ListAll, [], []);
    WrongReuseIsUnsafe(Habits(true, true, false), habits, env, tree, w1, w1, [],
                       Taking([ListAll], DependencyList([])), [DependencyList([])], Log({}, []));
  }

  /**
   * What is recorded in a world may be reused wherever it holds if and only if the runs are known to ignore
   * the log, the world's metadata is coherent, every listing succeeds there or the runs are known to list
   * only directories, and there is but one requester or the runs are known to ask for themselves.
   */
  lemma ReplaySafeExactly(habits: Habits, env: Environment, tree: Tree, w1: World)
    requires ValidEnvironment(env)
    ensures ReplaySafe(habits, env, tree, w1) <==> Trusted(habits, env, tree, w1)
  {
    if Trusted(habits, env, tree, w1) {
      TrustedIsSafe(habits, env, tree, w1);
    } else if !habits.ignoresLog {
      ListingIsUnsafe(habits, env, tree, w1);
    } else if !CoherentMetadata(env, tree, w1) {
      IncoherentIsUnsafe(habits, env, tree, w1);
    } else if !habits.listsOnlyDirectories && !EveryListingSucceeds(env, w1) {
      FailureIsUnsafe(habits, env, tree, w1);
    } else {
      NamingIsUnsafe(habits, env, tree, w1);
    }
  }
}
