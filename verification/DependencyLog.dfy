/** The dependencies recorded while queries are answered, as a value: which questions were asked by
    whom, and with which answers. */
module DependencyLog {
  import opened Options
  import opened ProjectWorld
  import opened Sequences

  /** A question as the recorder identifies it: by spelling, without its answer. */
  datatype QueryKey = QueryKey(requester: Path, path: Path, kind: Kind, pattern: Option<string>, recursive: bool)

  datatype Log = Log(keys: set<QueryKey>, dependencies: seq<Dependency>)

  function KeyOf(requester: Path, o: Observation): QueryKey {
    QueryKey(requester, o.path, o.kind, o.pattern, o.recursive)
  }

  function DependencyOf(env: Environment, requester: Path, o: Observation, answer: Answer): Dependency {
    Dependency(env.resolve(requester), env.absolute(o.path), env.resolve(env.absolute(o.path)), o.kind, answer,
               o.pattern, o.recursive)
  }

  /** Recording one answered question: only the first answer to a question is kept. */
  function Record(env: Environment, log: Log, requester: Path, o: Observation, answer: Answer): Log {
    if KeyOf(requester, o) in log.keys then log else
      var d := DependencyOf(env, requester, o, answer);
      Log(log.keys + {KeyOf(requester, o)}, if d in log.dependencies then log.dependencies else log.dependencies + [d])
  }

  /**
   * The question enters the log with its answer unless the requester has asked it in the same words before; one
   * dependency is kept once.
   */
  predicate AddsOnce(env: Environment, before: Log, after: Log, requester: Path, o: Observation, answer: Answer) {
    var key := QueryKey(requester, o.path, o.kind, o.pattern, o.recursive);
    var absolute := env.absolute(o.path);
    var d := Dependency(env.resolve(requester), absolute, env.resolve(absolute), o.kind, answer, o.pattern,
                        o.recursive);
    if key in before.keys then after == before
    else
      && after.keys == before.keys + {key}
      && after.dependencies == if d in before.dependencies then before.dependencies else before.dependencies + [d]
  }

  lemma RecordAddsOnce(env: Environment, before: Log, requester: Path, o: Observation, answer: Answer)
    ensures AddsOnce(env, before, Record(env, before, requester, o, answer), requester, o, answer)
  {
  }

  /** The answers that may be recorded for a question in world `w`. A source question may be
      answered with nothing although the file is readable, when its bytes do not decode; the
      metadata question must be, when they are not UTF-8. */
  predicate Admissible(env: Environment, tree: Tree, w: World, o: Observation, answer: Answer) {
    var observed := Observe(env, w, o.kind, o.path, o.pattern, o.recursive);
    if o.metadata then
      && o == MetadataObservation(tree)
      && answer ==
         match w.read(env.resolve(o.path))
         case None => NoAnswer
         case Some(content) => if env.decodeUtf8(content).None? then NoAnswer else Identity(Sha256(content))
    else
      || observed == Some(answer)
      || (o.kind == SourceKind && answer == NoAnswer && SourceText(env, w, env.resolve(o.path)).None?)
  }

  /** Recording the questions of a footprint in order, with the given answers. */
  function RecordAll(env: Environment, log: Log, requester: Path, footprint: seq<Observation>,
                     answers: seq<Answer>): Log
    requires |answers| == |footprint|
    decreases |footprint|
  {
    if footprint == [] then log
    else RecordAll(env, Record(env, log, requester, footprint[0], answers[0]), requester, footprint[1..], answers[1..])
  }

  predicate AllAdmissible(env: Environment, tree: Tree, w: World, footprint: seq<Observation>, answers: seq<Answer>) {
    |answers| == |footprint| && forall i | 0 <= i < |footprint| :: Admissible(env, tree, w, footprint[i], answers[i])
  }

  /** `after` is `before` with the questions of `footprint` recorded in order. */
  ghost predicate Recorded(env: Environment, tree: Tree, w: World, before: Log, after: Log, requester: Path,
                           footprint: seq<Observation>) {
    exists answers: seq<Answer> ::
      AllAdmissible(env, tree, w, footprint, answers) && after == RecordAll(env, before, requester, footprint, answers)
  }

  /** The answer that a direct observation gives. */
  ghost predicate Answerable(env: Environment, tree: Tree, w: World, footprint: seq<Observation>) {
    forall o | o in footprint :: exists answer :: Admissible(env, tree, w, o, answer)
  }

  /** Questions that have answers can be recorded behind every log. */
  lemma {:induction false} CanRecord(env: Environment, tree: Tree, w: World, before: Log, requester: Path,
                                     footprint: seq<Observation>)
    returns (after: Log)
    requires Answerable(env, tree, w, footprint)
    ensures Recorded(env, tree, w, before, after, requester, footprint)
    decreases |footprint|
  {
    if footprint == [] {
      after := before;
      RecordedNothing(env, tree, w, before, requester);
    } else {
      var o := footprint[0];
      assert o in footprint && forall p | p in footprint[1..] :: p in footprint;
      var answer :| Admissible(env, tree, w, o, answer);
      var between := Record(env, before, requester, o, answer);
      RecordedOne(env, tree, w, before, requester, o, answer);
      after := CanRecord(env, tree, w, between, requester, footprint[1..]);
      RecordedConcat(env, tree, w, before, between, after, requester, [o], footprint[1..]);
      assert [o] + footprint[1..] == footprint;
    }
  }

  // ---------------------------------------------------------------------------------------------
  // Shape of a log
  // ---------------------------------------------------------------------------------------------

  function OfRequester(dependencies: seq<Dependency>, requester: Path): seq<Dependency> {
    if dependencies == [] then []
    else
      var n := |dependencies| - 1;
      OfRequester(dependencies[..n], requester) +
      (if dependencies[n].requester == requester then [dependencies[n]] else [])
  }

  lemma {:induction false} OfRequesterIsChosen(dependencies: seq<Dependency>, requester: Path)
    ensures OfRequester(dependencies, requester) == Chosen(dependencies, (d: Dependency) => d.requester == requester)
  {
    if dependencies != [] {
      OfRequesterIsChosen(dependencies[..|dependencies| - 1], requester);
    }
  }

  /** The dependencies of the requester, in their order. */
  lemma OfRequesterMeaning(dependencies: seq<Dependency>, requester: Path)
    ensures Selects(dependencies, (d: Dependency) => d.requester == requester, OfRequester(dependencies, requester))
  {
    OfRequesterIsChosen(dependencies, requester);
    ChosenIsSelected(dependencies, (d: Dependency) => d.requester == requester);
  }

  predicate Distinct(dependencies: seq<Dependency>) {
    forall i, j | 0 <= i < j < |dependencies| :: dependencies[i] != dependencies[j]
  }

  /** The dependency answers the question behind the key. */
  predicate Answers(env: Environment, d: Dependency, key: QueryKey) {
    && d.requester == env.resolve(key.requester)
    && d.queryPath == env.absolute(key.path) && d.dependency == env.resolve(key.path)
    && d.kind == key.kind && d.pattern == key.pattern && d.recursive == key.recursive
  }

  /** The recorded answer is one that some observation of the same question may have. */
  ghost predicate Honest(env: Environment, tree: Tree, w: World, d: Dependency) {
    exists requester: Path, o: Observation ::
      Admissible(env, tree, w, o, d.answer) && Answers(env, d, KeyOf(requester, o))
  }

  ghost predicate ValidLog(env: Environment, tree: Tree, w: World, log: Log) {
    && Distinct(log.dependencies)
    && (forall key | key in log.keys :: exists d | d in log.dependencies :: Answers(env, d, key))
    && (forall d | d in log.dependencies :: Honest(env, tree, w, d))
  }

  lemma RecordValid(env: Environment, tree: Tree, w: World, log: Log, requester: Path, o: Observation, answer: Answer)
    requires ValidEnvironment(env) && ValidLog(env, tree, w, log) && Admissible(env, tree, w, o, answer)
    ensures ValidLog(env, tree, w, Record(env, log, requester, o, answer))
    ensures log.dependencies <= Record(env, log, requester, o, answer).dependencies
  {
    var after := Record(env, log, requester, o, answer);
    if KeyOf(requester, o) !in log.keys {
      var d := DependencyOf(env, requester, o, answer);
      assert Answers(env, d, KeyOf(requester, o));
      assert Honest(env, tree, w, d);
      forall key | key in after.keys ensures exists e | e in after.dependencies :: Answers(env, e, key) {
        if key in log.keys {
          var e :| e in log.dependencies && Answers(env, e, key);
          assert e in after.dependencies;
        } else {
          assert d in after.dependencies;
        }
      }
    }
  }

  // ---------------------------------------------------------------------------------------------
  // What recording a footprint leaves behind
  // ---------------------------------------------------------------------------------------------

  /** Every question of the footprint has been asked by the requester. */
  predicate Asked(log: Log, requester: Path, footprint: seq<Observation>) {
    forall o | o in footprint :: KeyOf(requester, o) in log.keys
  }

  predicate Grows(before: Log, after: Log) {
    before.keys <= after.keys && before.dependencies <= after.dependencies
  }

  lemma RecordedMeaning(env: Environment, tree: Tree, w: World, before: Log, after: Log, requester: Path,
                        footprint: seq<Observation>)
    requires ValidEnvironment(env) && ValidLog(env, tree, w, before)
    requires Recorded(env, tree, w, before, after, requester, footprint)
    ensures ValidLog(env, tree, w, after) && Grows(before, after) && Asked(after, requester, footprint)
  {
    var answers: seq<Answer> :|
      AllAdmissible(env, tree, w, footprint, answers) && after == RecordAll(env, before, requester, footprint, answers);
    RecordAllMeaning(env, tree, w, before, requester, footprint, answers);
  }

  lemma {:induction false} RecordAllMeaning(env: Environment, tree: Tree, w: World, before: Log, requester: Path,
                                            footprint: seq<Observation>, answers: seq<Answer>)
    requires ValidEnvironment(env) && ValidLog(env, tree, w, before) && AllAdmissible(env, tree, w, footprint, answers)
    ensures var after := RecordAll(env, before, requester, footprint, answers);
            ValidLog(env, tree, w, after) && Grows(before, after) && Asked(after, requester, footprint)
    decreases |footprint|
  {
    if footprint != [] {
      var next := Record(env, before, requester, footprint[0], answers[0]);
      RecordValid(env, tree, w, before, requester, footprint[0], answers[0]);
      RecordAllMeaning(env, tree, w, next, requester, footprint[1..], answers[1..]);
      AskedFirst(RecordAll(env, before, requester, footprint, answers), requester, footprint);
    }
  }

  lemma AskedFirst(log: Log, requester: Path, footprint: seq<Observation>)
    requires footprint != [] && KeyOf(requester, footprint[0]) in log.keys && Asked(log, requester, footprint[1..])
    ensures Asked(log, requester, footprint)
  {
    assert footprint == [footprint[0]] + footprint[1..];
  }

  lemma RecordedNothing(env: Environment, tree: Tree, w: World, log: Log, requester: Path)
    ensures Recorded(env, tree, w, log, log, requester, [])
  {
    assert AllAdmissible(env, tree, w, [], []) && RecordAll(env, log, requester, [], []) == log;
  }

  lemma RecordedOne(env: Environment, tree: Tree, w: World, before: Log, requester: Path, o: Observation,
                    answer: Answer)
    requires Admissible(env, tree, w, o, answer)
    ensures Recorded(env, tree, w, before, Record(env, before, requester, o, answer), requester, [o])
  {
    assert [o][1..] == [] && [answer][1..] == [];
    assert AllAdmissible(env, tree, w, [o], [answer]);
    assert RecordAll(env, before, requester, [o], [answer]) == Record(env, before, requester, o, answer);
  }

  lemma {:induction false} RecordAllConcat(env: Environment, log: Log, requester: Path,
                                           first: seq<Observation>, second: seq<Observation>,
                                           answers: seq<Answer>, more: seq<Answer>)
    requires |answers| == |first| && |more| == |second|
    ensures RecordAll(env, log, requester, first + second, answers + more) ==
            RecordAll(env, RecordAll(env, log, requester, first, answers), requester, second, more)
    decreases |first|
  {
    if first == [] {
      assert first + second == second && answers + more == more;
    } else {
      assert (first + second)[1..] == first[1..] + second && (answers + more)[1..] == answers[1..] + more;
      RecordAllConcat(env, Record(env, log, requester, first[0], answers[0]), requester, first[1..], second,
                      answers[1..], more);
    }
  }

  lemma RecordedConcat(env: Environment, tree: Tree, w: World, a: Log, b: Log, c: Log, requester: Path,
                       first: seq<Observation>, second: seq<Observation>)
    requires Recorded(env, tree, w, a, b, requester, first) && Recorded(env, tree, w, b, c, requester, second)
    ensures Recorded(env, tree, w, a, c, requester, first + second)
  {
    var answers: seq<Answer> :| AllAdmissible(env, tree, w, first, answers)
        && b == RecordAll(env, a, requester, first, answers);
    var more: seq<Answer> :| AllAdmissible(env, tree, w, second, more)
        && c == RecordAll(env, b, requester, second, more);
    RecordAllConcat(env, a, requester, first, second, answers, more);
    AdmissibleConcat(env, tree, w, first, second, answers, more);
  }

  lemma AdmissibleConcat(env: Environment, tree: Tree, w: World, first: seq<Observation>, second: seq<Observation>,
                         answers: seq<Answer>, more: seq<Answer>)
    requires AllAdmissible(env, tree, w, first, answers) && AllAdmissible(env, tree, w, second, more)
    ensures AllAdmissible(env, tree, w, first + second, answers + more)
  {
    forall i | 0 <= i < |first + second| ensures Admissible(env, tree, w, (first + second)[i], (answers + more)[i]) {
      if i < |first| {
        assert (first + second)[i] == first[i] && (answers + more)[i] == answers[i];
      } else {
        assert (first + second)[i] == second[i - |first|] && (answers + more)[i] == more[i - |first|];
      }
    }
  }
}
