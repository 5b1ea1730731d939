/**
 * Following a rule through the re-exports of the repository's modules. A module may define the rule,
 * import it from another under a name of its own, or do neither; modules may import from one
 * another in a circle.
 */
module Reexports {
  import opened Chains
  import opened Options
  import opened Sequences

  datatype Reference = Reference(moduleName: string, symbolName: string)

  datatype Alias = Alias(importedName: string, boundName: string)

  datatype Import = Import(topLevel: bool, fromImport: bool, relativeLevel: nat,
                           moduleParts: seq<string>, aliases: seq<Alias>)

  datatype Statement = Statement(functionName: Option<string>, className: Option<string>,
                                 assignmentTargets: seq<string>, ruleDecorated: bool)

  datatype ModuleFacts = ModuleFacts(statements: seq<Statement>, imports: seq<Import>)

  type Modules = map<string, ModuleFacts>

  // ---------- One step ----------

  predicate Binds(statement: Statement, symbol: string) {
    || statement.functionName == Some(symbol)
    || statement.className == Some(symbol)
    || symbol in statement.assignmentTargets
  }

  function Matching(statements: seq<Statement>, symbol: string): seq<Statement> {
    if statements == [] then []
    else (if Binds(statements[0], symbol) then [statements[0]] else []) + Matching(statements[1..], symbol)
  }

  function MatchingAliases(aliases: seq<Alias>, symbol: string): seq<Alias> {
    if aliases == [] then []
    else (if aliases[0].boundName == symbol then [aliases[0]] else []) + MatchingAliases(aliases[1..], symbol)
  }

  function DotJoined(parts: seq<string>): string
    requires parts != []
  {
    if |parts| == 1 then parts[0] else parts[0] + "." + DotJoined(parts[1..])
  }

  function ReexportCandidate(imported: Import, symbol: string): Option<Reference> {
    if !imported.topLevel || !imported.fromImport || imported.relativeLevel != 0 then None
    else
      var matching := MatchingAliases(imported.aliases, symbol);
      if |matching| != 1 || imported.moduleParts == [] then None
      else Some(Reference(DotJoined(imported.moduleParts), matching[0].importedName))
  }

  function Candidates(imports: seq<Import>, symbol: string): set<Reference> {
    set i | i in imports && ReexportCandidate(i, symbol).Some? :: ReexportCandidate(i, symbol).value
  }

  lemma OnlyOne<T>(s: set<T>, a: T, b: T)
    requires |s| == 1 && a in s && b in s
    ensures a == b
  {
    assert |s - {a}| == 0;
  }

  function TheOnly<T>(s: set<T>): (a: T)
    requires |s| == 1
    ensures s == {a}
  {
    assert forall a <- s, b <- s :: a == b by {
      forall a <- s, b <- s ensures a == b {
        OnlyOne(s, a, b);
      }
    }
    assert s != {};
    var a :| a in s;
    a
  }

  /**
   * What the module of a reference says about it: the rule is here (or in a module unknown to the
   * repository), it is nowhere, or exactly one import re-exports it.
   */
  function StepFrom(modules: Modules, reference: Reference): Step<Reference> {
    if reference.moduleName !in modules then Here
    else
      var facts := modules[reference.moduleName];
      var matching := Matching(facts.statements, reference.symbolName);
      if |matching| == 1 && matching[0].ruleDecorated then Here
      else if matching != [] then Nowhere
      else
        var candidates := Candidates(facts.imports, reference.symbolName);
        if |candidates| != 1 then Nowhere else Follow(TheOnly(candidates))
  }

  // ---------- What one step means ----------

  lemma {:induction false} MatchingSelects(statements: seq<Statement>, symbol: string)
    ensures Selects(statements, (s: Statement) => Binds(s, symbol), Matching(statements, symbol))
  {
    MatchingIsChosen(statements, symbol);
    ChosenIsSelected(statements, (s: Statement) => Binds(s, symbol));
  }

  lemma {:induction false} MatchingIsChosen(statements: seq<Statement>, symbol: string)
    ensures Matching(statements, symbol) == Chosen(statements, (s: Statement) => Binds(s, symbol))
  {
    if statements != [] {
      MatchingIsChosen(statements[1..], symbol);
      ChosenInFront(statements[0], statements[1..], (s: Statement) => Binds(s, symbol));
      assert statements == [statements[0]] + statements[1..];
    }
  }

  lemma {:induction false} AliasesAreChosen(aliases: seq<Alias>, symbol: string)
    ensures MatchingAliases(aliases, symbol) == Chosen(aliases, (a: Alias) => a.boundName == symbol)
  {
    if aliases != [] {
      AliasesAreChosen(aliases[1..], symbol);
      ChosenInFront(aliases[0], aliases[1..], (a: Alias) => a.boundName == symbol);
      assert aliases == [aliases[0]] + aliases[1..];
    }
  }

  /** The text of the parts with dots between them, whatever way the parts are cut in two. */
  lemma {:induction false} DotJoinedConcat(a: seq<string>, b: seq<string>)
    requires a != [] && b != []
    ensures DotJoined(a + b) == DotJoined(a) + "." + DotJoined(b)
  {
    if |a| == 1 {
      assert (a + b)[1..] == b;
    } else {
      assert (a + b)[1..] == a[1..] + b;
      DotJoinedConcat(a[1..], b);
    }
  }

  /** Statement `k` is a function or a class of this name or assigns to it. */
  ghost predicate DeclaredAt(facts: ModuleFacts, symbol: string, k: nat) {
    && k < |facts.statements|
    && (|| facts.statements[k].functionName == Some(symbol)
        || facts.statements[k].className == Some(symbol)
        || symbol in facts.statements[k].assignmentTargets)
  }

  /** Alias `j` of the import binds the name, and no other does. */
  ghost predicate OnlyAliasAt(imported: Import, symbol: string, j: nat) {
    && j < |imported.aliases| && imported.aliases[j].boundName == symbol
    && forall i | 0 <= i < |imported.aliases| && imported.aliases[i].boundName == symbol :: i == j
  }

  /** An absolute top-level `from` import that binds the name once, to this reference. */
  ghost predicate ReexportsAs(imported: Import, symbol: string, target: Reference) {
    && imported.topLevel && imported.fromImport && imported.relativeLevel == 0 && imported.moduleParts != []
    && target.moduleName == DotJoined(imported.moduleParts)
    && exists j: nat :: OnlyAliasAt(imported, symbol, j) && imported.aliases[j].importedName == target.symbolName
  }

  lemma AliasMeaning(imported: Import, symbol: string)
    ensures |MatchingAliases(imported.aliases, symbol)| == 1 <==> exists j: nat :: OnlyAliasAt(imported, symbol, j)
    ensures forall j: nat | OnlyAliasAt(imported, symbol, j) ::
              MatchingAliases(imported.aliases, symbol) == [imported.aliases[j]]
  {
    var binds := (a: Alias) => a.boundName == symbol;
    AliasesAreChosen(imported.aliases, symbol);
    ChosenIsSelected(imported.aliases, binds);
    SelectedOne(imported.aliases, binds, Chosen(imported.aliases, binds));
    forall j: nat ensures OnlyAt(imported.aliases, binds, j) <==> OnlyAliasAt(imported, symbol, j) {
    }
  }

  lemma CandidateMeaning(imported: Import, symbol: string, target: Reference)
    ensures ReexportCandidate(imported, symbol) == Some(target) <==> ReexportsAs(imported, symbol, target)
  {
    AliasMeaning(imported, symbol);
  }

  lemma DeclarationMeaning(facts: ModuleFacts, symbol: string)
    ensures |Matching(facts.statements, symbol)| == 1 <==>
            exists k: nat :: DeclaredAt(facts, symbol, k) && forall i: nat | DeclaredAt(facts, symbol, i) :: i == k
    ensures forall k: nat | DeclaredAt(facts, symbol, k) && (forall i: nat | DeclaredAt(facts, symbol, i) :: i == k) ::
              Matching(facts.statements, symbol) == [facts.statements[k]]
    ensures Matching(facts.statements, symbol) == [] <==> forall k: nat :: !DeclaredAt(facts, symbol, k)
  {
    var binds := (s: Statement) => Binds(s, symbol);
    MatchingSelects(facts.statements, symbol);
    SelectedOne(facts.statements, binds, Matching(facts.statements, symbol));
    forall k: nat ensures DeclaredAt(facts, symbol, k) <==> k < |facts.statements| && binds(facts.statements[k]) {
    }
    forall k: nat
      ensures OnlyAt(facts.statements, binds, k) <==>
              DeclaredAt(facts, symbol, k) && forall i: nat | DeclaredAt(facts, symbol, i) :: i == k
    {
    }
  }

  lemma CandidatesMeaning(imports: seq<Import>, symbol: string, target: Reference)
    ensures Candidates(imports, symbol) == {target} <==>
            && (exists i <- imports :: ReexportsAs(i, symbol, target))
            && forall i <- imports, other | ReexportsAs(i, symbol, other) :: other == target
  {
    forall v ensures v in Candidates(imports, symbol) <==> exists i <- imports :: ReexportsAs(i, symbol, v) {
      CandidateMembers(imports, symbol, v);
    }
    if Candidates(imports, symbol) == {target} {
      assert target in Candidates(imports, symbol);
      forall i <- imports, other | ReexportsAs(i, symbol, other) ensures other == target {
        assert other in Candidates(imports, symbol);
      }
    }
  }

  lemma CandidateMembers(imports: seq<Import>, symbol: string, v: Reference)
    ensures v in Candidates(imports, symbol) <==> exists i <- imports :: ReexportsAs(i, symbol, v)
  {
    forall i ensures ReexportCandidate(i, symbol) == Some(v) <==> ReexportsAs(i, symbol, v) {
      CandidateMeaning(i, symbol, v);
    }
  }

  /**
   * The search stops at a reference whose module is unknown or declares the name once, as a decorated rule. It
   * goes on to another reference exactly where the module does not declare the name and all its imports that
   * re-export the name, at least one, agree on that reference.
   */
  lemma StepMeaning(modules: Modules, reference: Reference, next: Reference)
    ensures var symbol := reference.symbolName;
      StepFrom(modules, reference).Here? <==>
      || reference.moduleName !in modules
      || var facts := modules[reference.moduleName];
         exists k: nat :: DeclaredAt(facts, symbol, k) && facts.statements[k].ruleDecorated
                          && forall i: nat | DeclaredAt(facts, symbol, i) :: i == k
    ensures var symbol := reference.symbolName;
      StepFrom(modules, reference) == Follow(next) <==>
      && reference.moduleName in modules
      && var facts := modules[reference.moduleName];
         && (forall k: nat :: !DeclaredAt(facts, symbol, k))
         && (exists i <- facts.imports :: ReexportsAs(i, symbol, next))
         && forall i <- facts.imports, other | ReexportsAs(i, symbol, other) :: other == next
  {
    if reference.moduleName in modules {
      var facts, symbol := modules[reference.moduleName], reference.symbolName;
      DeclarationMeaning(facts, symbol);
      CandidatesMeaning(facts.imports, symbol, next);
      SingleCandidate(Candidates(facts.imports, symbol), next);
    }
  }

  lemma SingleCandidate(candidates: set<Reference>, next: Reference)
    ensures candidates == {next} <==> |candidates| == 1 && TheOnly(candidates) == next
  {
  }

  // ---------- The search ----------

  /** The alias `a` of import `i` of module `m`, as a reference. */
  function Target(imported: Import, a: Alias): Reference
    requires imported.moduleParts != []
  {
    Reference(DotJoined(imported.moduleParts), a.importedName)
  }

  /** Every reference some import of some module could lead to. */
  function Targets(modules: Modules): set<Reference> {
    set m, i, a | m in modules && i in modules[m].imports && i.moduleParts != [] && a in i.aliases :: Target(i, a)
  }

  lemma {:induction false} MatchingAliasIsAnAlias(aliases: seq<Alias>, symbol: string)
    ensures forall a <- MatchingAliases(aliases, symbol) :: a in aliases && a.boundName == symbol
  {
    if aliases != [] {
      MatchingAliasIsAnAlias(aliases[1..], symbol);
    }
  }

  lemma FollowedIsATarget(modules: Modules, reference: Reference)
    requires StepFrom(modules, reference).Follow?
    ensures StepFrom(modules, reference).next in Targets(modules)
  {
    var facts := modules[reference.moduleName];
    var candidates := Candidates(facts.imports, reference.symbolName);
    var c := TheOnly(candidates);
    assert c in candidates;
    var imported :| imported in facts.imports && ReexportCandidate(imported, reference.symbolName) == Some(c);
    MatchingAliasIsAnAlias(imported.aliases, reference.symbolName);
    assert c == Target(imported, MatchingAliases(imported.aliases, reference.symbolName)[0]);
  }

  function Resolve(modules: Modules, reference: Reference, visited: set<Reference>): Option<Reference>
    decreases Targets(modules) + {reference} - visited
  {
    if reference in visited then None
    else
      match StepFrom(modules, reference)
      case Here => Some(reference)
      case Nowhere => None
      case Follow(next) =>
        FollowedIsATarget(modules, reference);
        assert reference in Targets(modules) + {reference} - visited;
        Resolve(modules, next, visited + {reference})
  }

  // ---------- What the search means ----------

  ghost function StepOf(modules: Modules): Reference -> Step<Reference> {
    reference => StepFrom(modules, reference)
  }

  lemma {:induction false} ResolveFollows(modules: Modules, start: Reference, n: nat, reference: Reference,
                                          visited: set<Reference>)
    requires Reached(StepOf(modules), start, n) == Some(reference) && Passed(StepOf(modules), start, n, visited)
    ensures var answer := Resolve(modules, reference, visited);
      && (answer.Some? ==> Ends(StepOf(modules), start, answer.value))
      && (answer.None? ==> Cycles(StepOf(modules), start) || GetsStuck(StepOf(modules), start))
    decreases Targets(modules) + {reference} - visited
  {
    var step := StepOf(modules);
    if reference in visited {
      PassedCycles(step, start, n, visited, reference);
    } else {
      match step(reference)
      case Here =>
        assert EndsAt(step, start, n, reference);
      case Nowhere =>
        assert BreaksAt(step, start, n);
      case Follow(next) =>
        FollowedIsATarget(modules, reference);
        PassOne(step, start, n, visited, reference);
        assert reference in Targets(modules) + {reference} - visited;
        assert Reached(step, start, n + 1) == Some(next);
        ResolveFollows(modules, start, n + 1, next, visited + {reference});
    }
  }

  /**
   * The search finds the reference at which the chain of re-exports ends, and nothing exactly when the
   * chain comes back to itself or gets stuck.
   */
  lemma ResolveMeaning(modules: Modules, start: Reference)
    ensures forall end :: Resolve(modules, start, {}) == Some(end) <==> Ends(StepOf(modules), start, end)
    ensures Resolve(modules, start, {}).None? <==> Cycles(StepOf(modules), start) || GetsStuck(StepOf(modules), start)
  {
    var step := StepOf(modules);
    var answer := Resolve(modules, start, {});
    assert Passed(step, start, 0, {});
    ResolveFollows(modules, start, 0, start, {});
    forall end | Ends(step, start, end)
      ensures answer == Some(end)
    {
      EndExcludesTheRest(step, start, end);
      var m: nat :| EndsAt(step, start, m, answer.value);
      var n: nat :| EndsAt(step, start, n, end);
      EndIsUnique(step, start, m, answer.value, n, end);
    }
    if answer.Some? {
      EndExcludesTheRest(step, start, answer.value);
    }
  }

  /** Following one re-export does not change where the search ends. */
  lemma FollowingKeepsTheAnswer(modules: Modules, start: Reference)
    requires StepFrom(modules, start).Follow?
    ensures Resolve(modules, start, {}) == Resolve(modules, StepFrom(modules, start).next, {})
  {
    var next := StepFrom(modules, start).next;
    ResolveMeaning(modules, start);
    ResolveMeaning(modules, next);
    forall end ensures Ends(StepOf(modules), start, end) <==> Ends(StepOf(modules), next, end) {
      EndsAfterOneStep(StepOf(modules), start, end);
    }
    SameOption(Resolve(modules, start, {}), Resolve(modules, next, {}));
  }

  lemma SameOption(a: Option<Reference>, b: Option<Reference>)
    requires forall end :: a == Some(end) <==> b == Some(end)
    ensures a == b
  {
    if a.Some? {
      assert b == Some(a.value);
    }
    if b.Some? {
      assert a == Some(b.value);
    }
  }
}
