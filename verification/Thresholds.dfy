/** Threshold resolution: the most specific matching override wins, with role and global fallbacks. */
module Thresholds {
  import opened Options
  import opened PathText
  import opened GlobPattern
  import opened BraceExpansion
  import opened BraceTree
  import opened BraceWorklist
  import opened PatternValidation
  import opened PathDominance
  import opened PatternCounts
  import opened PatternSpecificity
  import opened CandidateTable

  datatype ThresholdOverride = ThresholdOverride(paths: seq<string>, thresholds: map<string, int>, reason: string)

  datatype Config = Config(
    thresholds: map<string, int>,
    roleThresholds: map<string, map<string, int>>,
    overrides: seq<ThresholdOverride>)

  /** The winning override of a resolution. */
  datatype Match = Match(pattern: string, reason: string, order: nat)

  datatype Resolution = Resolution(threshold: string, effectiveValue: int, path: string, matched: Option<Match>)

  /** What configuration loading guarantees: defaults for every name, validated override patterns. */
  ghost predicate ValidConfig(config: Config, name: string) {
    name in config.thresholds && forall o | 0 <= o < |config.overrides| :: ValidOverride(config.overrides[o])
  }

  ghost predicate ValidOverride(override: ThresholdOverride) {
    forall pattern | pattern in override.paths :: Validated(pattern)
  }

  // ---------------------------------------------------------------------------------------------
  // Specification
  // ---------------------------------------------------------------------------------------------

  /** The strongest specificity with which a configured pattern matches `path`. */
  ghost function Strength(pattern: string, path: string): Option<Specificity>
    requires Validated(pattern)
  {
    Strongest(Expand(TreeOf(pattern)), path)
  }

  /** `expansion` is an expansion of the pattern, and matches. */
  ghost predicate MatchesAs(pattern: string, path: string, expansion: string)
    requires Validated(pattern)
  {
    expansion in Expand(TreeOf(pattern)) && Matches(Expression(expansion), path)
  }

  /** No matching expansion is more specific than this one. */
  ghost predicate MatchesBestAs(pattern: string, path: string, best: string)
    requires Validated(pattern)
  {
    && MatchesAs(pattern, path, best)
    && forall x | MatchesAs(pattern, path, x) :: LessSpecific(x, best) || AsSpecific(x, best)
  }

  lemma StrengthBounds(pattern: string, path: string, x: string)
    requires Validated(pattern) && MatchesAs(pattern, path, x)
    ensures Strength(pattern, path).Some? && AtMost(PathPatternSpecificity(x), Strength(pattern, path).value)
  {
    var expanded := Expand(TreeOf(pattern));
    var i :| 0 <= i < |expanded| && expanded[i] == x;
    StrongestIsAnUpperBound(expanded, path, i);
  }

  lemma StrengthIsBest(pattern: string, path: string) returns (best: string)
    requires Validated(pattern) && Strength(pattern, path).Some?
    ensures MatchesBestAs(pattern, path, best) && Strength(pattern, path) == Some(PathPatternSpecificity(best))
  {
    var i := StrongestIsAttained(Expand(TreeOf(pattern)), path);
    best := Expand(TreeOf(pattern))[i];
    forall x | MatchesAs(pattern, path, x) ensures LessSpecific(x, best) || AsSpecific(x, best) {
      StrengthBounds(pattern, path, x);
      BelowByCounts(x, best);
    }
  }

  lemma NoStrength(pattern: string, path: string)
    requires Validated(pattern)
    ensures Strength(pattern, path).None? <==> forall x :: !MatchesAs(pattern, path, x)
  {
    forall x | MatchesAs(pattern, path, x) ensures Strength(pattern, path).Some? {
      StrengthBounds(pattern, path, x);
    }
    if Strength(pattern, path).Some? {
      var best := StrengthIsBest(pattern, path);
    }
  }

  lemma StrengthMeaning(pattern: string, path: string) returns (best: string)
    requires Validated(pattern)
    ensures Strength(pattern, path).None? <==> forall x :: !MatchesAs(pattern, path, x)
    ensures Strength(pattern, path).Some? ==> MatchesBestAs(pattern, path, best)
    ensures Strength(pattern, path).Some? ==> Strength(pattern, path).value == Counts(best)
  {
    best := "";
    NoStrength(pattern, path);
    if Strength(pattern, path).Some? {
      best := StrengthIsBest(pattern, path);
      ComponentsMeaning(best);
    }
  }

  /**
   * `matching_path_pattern_specificity`: the counts of a matching expansion than which no other one is more
   * specific, and nothing exactly when none matches.
   */
  method MatchingPathPatternSpecificity(pattern: string, path: string)
    returns (r: Option<Specificity>, ghost best: string)
    requires Validated(pattern)
    ensures r == Strength(pattern, path)
    ensures r.None? <==> forall x :: !MatchesAs(pattern, path, x)
    ensures r.Some? ==> MatchesBestAs(pattern, path, best)
    ensures r.Some? ==> r.value == Counts(best)
  {
    var expanded := ExpandPathPattern(pattern);
    r := Strongest(expanded.value, path);
    best := StrengthMeaning(pattern, path);
  }

  ghost function Row(override: ThresholdOverride, name: string, path: string): (r: seq<Option<Specificity>>)
    requires ValidOverride(override)
    ensures |r| == |override.paths|
    ensures forall j | 0 <= j < |r| ::
              r[j] == if name in override.thresholds then Strength(override.paths[j], path) else None
  {
    seq(|override.paths|, j requires 0 <= j < |override.paths| =>
      if name in override.thresholds then Strength(override.paths[j], path) else None)
  }

  /** All override patterns of a configuration as candidates for one name and path. */
  ghost function Candidates(config: Config, name: string, path: string): (t: Table)
    requires ValidConfig(config, name)
    ensures |t| == |config.overrides|
    ensures forall o | 0 <= o < |t| :: t[o] == Row(config.overrides[o], name, path)
  {
    seq(|config.overrides|, o requires 0 <= o < |config.overrides| => Row(config.overrides[o], name, path))
  }

  /** Pattern `j` of override `o` sets the threshold and matches the path as this expansion. */
  ghost predicate Applies(config: Config, name: string, path: string, o: nat, j: nat, expansion: string)
    requires ValidConfig(config, name)
  {
    && o < |config.overrides| && j < |config.overrides[o].paths| && name in config.overrides[o].thresholds
    && MatchesAs(config.overrides[o].paths[j], path, expansion)
  }

  /**
   * Pattern `k` of override `p` applies as the expansion `best`, and whatever applies is less specific, or as
   * specific and declared no later.
   */
  ghost predicate Prevails(config: Config, name: string, path: string, p: nat, k: nat, best: string)
    requires ValidConfig(config, name)
  {
    && Applies(config, name, path, p, k, best)
    && forall o: nat, j: nat, x | Applies(config, name, path, o, j, x) ::
         LessSpecific(x, best) || (AsSpecific(x, best) && (o < p || (o == p && j <= k)))
  }

  lemma AppliesAsCandidate(config: Config, name: string, path: string, o: nat, j: nat, x: string)
    requires ValidConfig(config, name) && Applies(config, name, path, o, j, x)
    ensures IsCandidate(Candidates(config, name, path), o, j)
    ensures AtMost(PathPatternSpecificity(x), Candidates(config, name, path)[o][j].value)
  {
    CandidateMeaning(config, name, path, o, j);
    StrengthBounds(config.overrides[o].paths[j], path, x);
  }

  lemma CandidateApplies(config: Config, name: string, path: string, o: nat, j: nat) returns (best: string)
    requires ValidConfig(config, name) && IsCandidate(Candidates(config, name, path), o, j)
    ensures Applies(config, name, path, o, j, best)
    ensures Candidates(config, name, path)[o][j] == Some(PathPatternSpecificity(best))
  {
    CandidateSetsThreshold(config, name, path, o, j);
    CandidateMeaning(config, name, path, o, j);
    best := StrengthIsBest(config.overrides[o].paths[j], path);
  }

  lemma NoCandidateMeaning(config: Config, name: string, path: string)
    requires ValidConfig(config, name)
    ensures NoCandidate(Candidates(config, name, path)) <==>
            forall o: nat, j: nat, x :: !Applies(config, name, path, o, j, x)
  {
    forall o: nat, j: nat, x | Applies(config, name, path, o, j, x) ensures !NoCandidate(Candidates(config, name, path))
    {
      AppliesAsCandidate(config, name, path, o, j, x);
    }
    if !NoCandidate(Candidates(config, name, path)) {
      var o: nat, j: nat :| IsCandidate(Candidates(config, name, path), o, j);
      var best := CandidateApplies(config, name, path, o, j);
    }
  }

  lemma WinnerPrevails(config: Config, name: string, path: string, p: nat, k: nat) returns (best: string)
    requires ValidConfig(config, name) && Wins(Candidates(config, name, path), p, k)
    ensures Prevails(config, name, path, p, k, best)
  {
    var t := Candidates(config, name, path);
    best := CandidateApplies(config, name, path, p, k);
    forall o: nat, j: nat, x | Applies(config, name, path, o, j, x)
      ensures LessSpecific(x, best) || (AsSpecific(x, best) && (o < p || (o == p && j <= k)))
    {
      AppliesAsCandidate(config, name, path, o, j, x);
      BelowByCounts(x, best);
      if (o, j) != (p, k) {
        assert Loses(t, o, j, p, k);
        BelowTransitive(PathPatternSpecificity(x), t[o][j].value, t[p][k].value);
      }
    }
  }

  // ---------------------------------------------------------------------------------------------
  // The search
  // ---------------------------------------------------------------------------------------------

  datatype Winner = Winner(specificity: Specificity, order: nat, override: ThresholdOverride, pattern: string)

  /** The comparison of two candidates: by specificity, then by order. */
  predicate LexBelow(candidate: Winner, winner: Winner) {
    || Below(candidate.specificity, winner.specificity)
    || (candidate.specificity == winner.specificity && candidate.order < winner.order)
  }

  /** `w` is pattern `k` of its override, with the strength the table gives it. */
  ghost predicate Describes(config: Config, t: Table, w: Winner, k: nat) {
    && IsCandidate(t, w.order, k) && t[w.order][k] == Some(w.specificity)
    && w.order < |config.overrides| && w.override == config.overrides[w.order]
    && k < |w.override.paths| && w.pattern == w.override.paths[k]
  }

  /** The state of the search before pattern `index` of override `order`. */
  ghost predicate Current(config: Config, t: Table, order: nat, index: nat, winner: Option<Winner>, k: nat) {
    match winner
    case None => NoneBefore(t, order, index)
    case Some(w) => WinsBefore(t, order, index, w.order, k) && Describes(config, t, w, k)
  }

  lemma SkipPattern(config: Config, t: Table, order: nat, index: nat, winner: Option<Winner>, k: nat)
    requires Current(config, t, order, index, winner, k) && !IsCandidate(t, order, index)
    ensures Current(config, t, order, index + 1, winner, k)
  {
  }

  lemma NextOverride(config: Config, t: Table, order: nat, index: nat, winner: Option<Winner>, k: nat)
    requires Current(config, t, order, index, winner, k)
    requires forall j: nat :: j >= index ==> !IsCandidate(t, order, j)
    ensures Current(config, t, order + 1, 0, winner, k)
  {
  }

  lemma NextCandidate(config: Config, t: Table, candidate: Winner, index: nat, winner: Option<Winner>, k: nat)
    requires Describes(config, t, candidate, index) && Current(config, t, candidate.order, index, winner, k)
    ensures if winner.None? || !LexBelow(candidate, winner.value)
            then Current(config, t, candidate.order, index + 1, Some(candidate), index)
            else Current(config, t, candidate.order, index + 1, winner, k)
  {
    match winner
    case None => FirstCandidate(t, candidate.order, index);
    case Some(w) =>
      if LexBelow(candidate, w) {
        KeptWinner(t, candidate.order, index, w.order, k);
      } else {
        DisplacedWinner(t, candidate.order, index, w.order, k);
      }
  }

  lemma EverythingRead(config: Config, t: Table, winner: Option<Winner>, k: nat)
    requires Current(config, t, |t|, 0, winner, k)
    ensures winner.None? <==> NoCandidate(t)
    ensures winner.Some? ==> Wins(t, winner.value.order, k) && Describes(config, t, winner.value, k)
  {
  }

  lemma CandidateMeaning(config: Config, name: string, path: string, o: nat, j: nat)
    requires ValidConfig(config, name) && o < |config.overrides| && j < |config.overrides[o].paths|
    ensures var t := Candidates(config, name, path);
            o < |t| && j < |t[o]| &&
            t[o][j] ==
              if name in config.overrides[o].thresholds then Strength(config.overrides[o].paths[j], path) else None
  {
    assert Candidates(config, name, path)[o] == Row(config.overrides[o], name, path);
  }

  /** A candidate belongs to an override that sets the threshold. */
  lemma CandidateSetsThreshold(config: Config, name: string, path: string, o: nat, j: nat)
    requires ValidConfig(config, name) && IsCandidate(Candidates(config, name, path), o, j)
    ensures o < |config.overrides| && j < |config.overrides[o].paths| && name in config.overrides[o].thresholds
  {
    assert Candidates(config, name, path)[o] == Row(config.overrides[o], name, path);
  }

  lemma OverrideSkipped(config: Config, name: string, path: string, o: nat, from: nat)
    requires ValidConfig(config, name) && o < |config.overrides|
    requires name in config.overrides[o].thresholds ==> from >= |config.overrides[o].paths|
    ensures forall j: nat :: j >= from ==> !IsCandidate(Candidates(config, name, path), o, j)
  {
    assert Candidates(config, name, path)[o] == Row(config.overrides[o], name, path);
  }

  method ResolveThreshold(config: Config, name: string, path: string, role: Option<string>)
    returns (r: Resolution, ghost k: nat, ghost best: string)
    requires ValidConfig(config, name)
    ensures r.threshold == name && r.path == path
    ensures r.matched.None? <==> forall o: nat, j: nat, x :: !Applies(config, name, path, o, j, x)
    ensures r.matched.Some? ==> Prevails(config, name, path, r.matched.value.order, k, best)
    ensures r.matched.None? <==> NoCandidate(Candidates(config, name, path))
    ensures r.matched.None? && role.Some? && role.value in config.roleThresholds
            && name in config.roleThresholds[role.value]
            ==> r.effectiveValue == config.roleThresholds[role.value][name]
    ensures r.matched.None? && (role.Some? && role.value in config.roleThresholds ==>
                                  name !in config.roleThresholds[role.value])
            ==> r.effectiveValue == config.thresholds[name]
    ensures r.matched.Some? ==>
              && Wins(Candidates(config, name, path), r.matched.value.order, k)
              && var override := config.overrides[r.matched.value.order];
              && name in override.thresholds && k < |override.paths|
              && r.effectiveValue == override.thresholds[name]
              && r.matched.value.reason == override.reason
              && r.matched.value.pattern == override.paths[k]
  {
    var winner: Option<Winner> := None;
    ghost var t := Candidates(config, name, path);
    k, best := 0, "";
    for order := 0 to |config.overrides|
      invariant Current(config, t, order, 0, winner, k)
    {
      var override := config.overrides[order];
      if name !in override.thresholds {
        OverrideSkipped(config, name, path, order, 0);
        NextOverride(config, t, order, 0, winner, k);
        continue;
      }
      for index := 0 to |override.paths|
        invariant Current(config, t, order, index, winner, k)
      {
        var pattern := override.paths[index];
        var specificity, _ := MatchingPathPatternSpecificity(pattern, path);
        CandidateMeaning(config, name, path, order, index);
        if specificity.None? {
          SkipPattern(config, t, order, index, winner, k);
          continue;
        }
        var candidate := Winner(specificity.value, order, override, pattern);
        NextCandidate(config, t, candidate, index, winner, k);
        if winner.None? || !LexBelow(candidate, winner.value) {
          winner := Some(candidate);
          k := index;
        }
      }
      OverrideSkipped(config, name, path, order, |override.paths|);
      NextOverride(config, t, order, |override.paths|, winner, k);
    }
    EverythingRead(config, t, winner, k);
    NoCandidateMeaning(config, name, path);
    if winner.Some? {
      var w := winner.value;
      CandidateSetsThreshold(config, name, path, w.order, k);
      best := WinnerPrevails(config, name, path, w.order, k);
      var matched := Match(w.pattern, w.override.reason, w.order);
      return Resolution(name, w.override.thresholds[name], path, Some(matched)), k, best;
    }
    if role.Some? {
      if role.value in config.roleThresholds && name in config.roleThresholds[role.value] {
        return Resolution(name, config.roleThresholds[role.value][name], path, None), k, best;
      }
    }
    return Resolution(name, config.thresholds[name], path, None), k, best;
  }

  // ---------------------------------------------------------------------------------------------
  // Consequences
  // ---------------------------------------------------------------------------------------------

  /** The same override, its paths listed in any order and any number of times. */
  ghost predicate SamePaths(a: ThresholdOverride, b: ThresholdOverride) {
    && a.thresholds == b.thresholds && a.reason == b.reason
    && (forall p | p in a.paths :: p in b.paths) && (forall p | p in b.paths :: p in a.paths)
  }

  ghost predicate SameUpToPathOrder(a: Config, b: Config) {
    && a.thresholds == b.thresholds && a.roleThresholds == b.roleThresholds
    && |a.overrides| == |b.overrides|
    && forall o | 0 <= o < |a.overrides| :: SamePaths(a.overrides[o], b.overrides[o])
  }

  lemma SamePosition(a: Config, b: Config, name: string, path: string, o: nat, j: nat) returns (i: nat)
    requires ValidConfig(a, name) && ValidConfig(b, name) && (SameUpToPathOrder(a, b) || SameUpToPathOrder(b, a))
    requires IsCandidate(Candidates(a, name, path), o, j)
    ensures IsCandidate(Candidates(b, name, path), o, i)
    ensures Candidates(a, name, path)[o][j] == Candidates(b, name, path)[o][i]
  {
    CandidateSetsThreshold(a, name, path, o, j);
    CandidateMeaning(a, name, path, o, j);
    assert SamePaths(a.overrides[o], b.overrides[o]) || SamePaths(b.overrides[o], a.overrides[o]);
    assert a.overrides[o].paths[j] in b.overrides[o].paths;
    i :| 0 <= i < |b.overrides[o].paths| && b.overrides[o].paths[i] == a.overrides[o].paths[j];
    CandidateMeaning(b, name, path, o, i);
  }

  /** Reordering or repeating the paths of an override changes neither which override wins nor
      whether one does, and so neither the effective value nor the reported reason and order. */
  lemma PathOrderIrrelevant(a: Config, b: Config, name: string, path: string, o: nat, j: nat)
    requires ValidConfig(a, name) && ValidConfig(b, name) && SameUpToPathOrder(a, b)
    requires Wins(Candidates(a, name, path), o, j)
    ensures !NoCandidate(Candidates(b, name, path))
    ensures forall p: nat, k: nat | Wins(Candidates(b, name, path), p, k) ::
              && p == o < |a.overrides| && name in a.overrides[o].thresholds
              && a.overrides[o].thresholds == b.overrides[p].thresholds
              && a.overrides[o].reason == b.overrides[p].reason
  {
    var s, t := Candidates(a, name, path), Candidates(b, name, path);
    var i := SamePosition(a, b, name, path, o, j);
    CandidateSetsThreshold(a, name, path, o, j);
    forall p: nat, k: nat | Wins(t, p, k) ensures p == o {
      var h := SamePosition(b, a, name, path, p, k);
      AtLeastAsStrong(s, p, h, o, j);
      AtLeastAsStrong(t, o, i, p, k);
    }
    assert SamePaths(a.overrides[o], b.overrides[o]);
  }

  /** One expansion of the pattern is literally the path. */
  ghost predicate Names(pattern: string, path: string)
    requires Validated(pattern)
  {
    path in Expand(TreeOf(pattern))
  }

  /** A pattern matches such a path with at most the path's own specificity, and with exactly that
      specificity only by naming it. */
  lemma StrengthAgainstSpelledPath(pattern: string, path: string)
    requires Validated(pattern) && NormalPath(path) && Dominates(path)
    ensures Strength(pattern, path).Some? ==>
              && AtMost(Strength(pattern, path).value, PathPatternSpecificity(path))
              && (Strength(pattern, path).value == PathPatternSpecificity(path) <==> Names(pattern, path))
    ensures Names(pattern, path) ==> Strength(pattern, path).Some?
  {
    var expanded := Expand(TreeOf(pattern));
    var spelled := PathPatternSpecificity(path);
    SpelledPathMatchesItself(path);
    if Strength(pattern, path).Some? {
      var i := StrongestIsAttained(expanded, path);
      ExpansionAgainstSpelledPath(pattern, expanded[i], path);
    }
    if Names(pattern, path) {
      var j :| 0 <= j < |expanded| && expanded[j] == path;
      StrongestIsAnUpperBound(expanded, path, j);
      if Below(spelled, Strength(pattern, path).value) {
        BelowAsymmetric(spelled, Strength(pattern, path).value);
      }
    }
  }

  lemma ExpansionAgainstSpelledPath(pattern: string, expansion: string, path: string)
    requires Validated(pattern) && NormalPath(path) && Dominates(path)
    requires expansion in Expand(TreeOf(pattern)) && ExpansionMatches(expansion, path)
    ensures AtMost(PathPatternSpecificity(expansion), PathPatternSpecificity(path))
    ensures PathPatternSpecificity(expansion) == PathPatternSpecificity(path) <==> expansion == path
  {
    AcceptedIsCanonical(expansion);
    SpelledPathDominates(expansion, path);
  }

  /** An override that names the exact path beats every override that only globs it, whatever the
      declaration order; among those that name it the last declaration wins. */
  lemma ExactPathWins(config: Config, name: string, path: string, o: nat, j: nat, p: nat, k: nat)
    requires ValidConfig(config, name) && NormalPath(path) && Dominates(path)
    requires o < |config.overrides| && j < |config.overrides[o].paths| && name in config.overrides[o].thresholds
    requires Names(config.overrides[o].paths[j], path)
    requires Wins(Candidates(config, name, path), p, k)
    ensures o <= p < |config.overrides| && k < |config.overrides[p].paths|
    ensures Names(config.overrides[p].paths[k], path)
  {
    CandidateMeaning(config, name, path, o, j);
    CandidateSetsThreshold(config, name, path, p, k);
    CandidateMeaning(config, name, path, p, k);
    StrengthAgainstSpelledPath(config.overrides[o].paths[j], path);
    StrengthAgainstSpelledPath(config.overrides[p].paths[k], path);
    AtLeastAsStrong(Candidates(config, name, path), o, j, p, k);
    BelowTransitive(
      PathPatternSpecificity(path), Strength(config.overrides[p].paths[k], path).value, PathPatternSpecificity(path));
    if Below(PathPatternSpecificity(path), PathPatternSpecificity(path)) {
      BelowAsymmetric(PathPatternSpecificity(path), PathPatternSpecificity(path));
    }
  }
}
