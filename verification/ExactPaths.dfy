/** When the override that names a path wins over all that only match it, whatever the configuration. */
module ExactPaths {
  import opened Options
  import opened PathText
  import opened GlobPattern
  import opened BraceExpansion
  import opened BraceSemantics
  import opened BraceTree
  import opened BraceWorklist
  import opened PatternValidation
  import opened PatternSpecificity
  import opened PathDominance
  import opened CandidateTable
  import opened Thresholds

  /** A text that configuration accepts as a pattern and that stands for itself. */
  predicate Legal(candidate: string) {
    Accepted(candidate) && Braceless(candidate)
  }

  // ---------------------------------------------------------------------------------------------
  // The more specific patterns are legal
  // ---------------------------------------------------------------------------------------------

  /** Besides slashes, `part` has only characters of `whole`. */
  predicate Within(part: string, whole: string) {
    forall c | c in part :: c == '/' || c in whole
  }

  lemma {:induction false} SegmentsWithin(s: string)
    ensures forall x | x in Segments(s) :: Within(x, s)
    decreases |s|
  {
    var i := FirstSlash(s);
    if i < |s| {
      SegmentsCons(s);
      SegmentsWithin(s[i + 1..]);
      forall x | x in Segments(s) ensures Within(x, s) {
        assert x == s[..i] || Within(x, s[i + 1..]);
      }
    }
  }

  lemma {:induction false} CollapsedWithin(x: string)
    ensures Within(Collapsed(x), x)
  {
    if x != "" {
      CollapsedWithin(x[1..]);
    }
  }

  lemma {:induction false} JoinedWithin(parts: seq<string>, s: string)
    requires parts != [] && forall i | 0 <= i < |parts| :: Within(parts[i], s)
    ensures Within(Joined(parts), s)
  {
    if |parts| > 1 {
      JoinedWithin(parts[1..], s);
    }
  }

  lemma WithinKeepsLegal(part: string, whole: string)
    requires Within(part, whole) && PlainCharacters(whole) && Braceless(whole)
    ensures PlainCharacters(part) && Braceless(part)
  {
    assert forall c | c in part && c != '/' :: c in whole;
    forall i | 0 <= i < |part| ensures part[i] != '{' && part[i] != '}' {
      assert part[i] in part;
    }
  }

  lemma {:induction false} CollapsedSame(x: string)
    requires NoStarPair(x)
    ensures Collapsed(x) == x
  {
    if x != "" {
      assert !GlobstarAt(x, 0);
      forall j | 0 <= j < |x| - 1 ensures !GlobstarAt(x[1..], j) {
        assert !GlobstarAt(x, j + 1);
      }
      CollapsedSame(x[1..]);
    }
  }

  /** Collapsing turns `**` into `*` and leaves every other legal segment alone. */
  lemma CollapsedLegal(x: string)
    requires LegalSegment(x)
    ensures LegalSegment(Collapsed(x)) && Collapsed(x) != "**"
  {
    CollapsedMeaning(x);
    NoStarPairMeaning(Collapsed(x));
    NotGlobstar(Collapsed(x));
    NoStarPairMeaning(x);
    if x != "**" {
      CollapsedSame(x);
    }
  }

  lemma CollapsedIsLegal(path: string)
    requires Legal(path) && path != "."
    ensures Legal(Joined(CollapsedAll(Segments(path))))
  {
    var xs := Segments(path);
    var ps := CollapsedAll(xs);
    AcceptedMeaning(path);
    JoinedSegments(path);
    SegmentsWithin(path);
    forall i | 0 <= i < |ps|
      ensures LegalSegment(ps[i]) && ps[i] != "**" && '/' !in ps[i] && Within(ps[i], path)
    {
      assert xs[i] in xs;
      CollapsedLegal(xs[i]);
      CollapsedMeaning(xs[i]);
      CollapsedWithin(xs[i]);
      assert Within(xs[i], path);
    }
    JoinedWithin(ps, path);
    WithinKeepsLegal(Joined(ps), path);
    SegmentsOfJoined(ps);
    AcceptedMeaning(Joined(ps));
  }

  lemma LastSegmentIsLegal(path: string)
    requires Legal(path) && path != "."
    ensures Legal(Segments(path)[|Segments(path)| - 1])
  {
    var xs := Segments(path);
    var last := xs[|xs| - 1];
    AcceptedMeaning(path);
    JoinedSegments(path);
    SegmentsWithin(path);
    assert last in xs;
    WithinKeepsLegal(last, path);
    SegmentsOne(last);
    AcceptedMeaning(last);
  }

  lemma LegalIsNormal(path: string)
    requires Legal(path)
    ensures Canonical(path) && NormalPath(path)
  {
    AcceptedIsCanonical(path);
    assert forall x | x in Segments(path) :: CanonicalSegment(x);
  }

  /** A legal path that does not dominate is beaten by a legal pattern. */
  lemma LegalBeatingPattern(path: string) returns (pattern: string)
    requires Legal(path) && !Dominates(path)
    ensures Legal(pattern) && Beats(pattern, path)
  {
    LegalIsNormal(path);
    assert path != "." by {
      SegmentsOne(".");
      ShortContains(".");
    }
    if Contains(path, "**") {
      CollapsedBeats(path);
      CollapsedIsLegal(path);
      pattern := Joined(CollapsedAll(Segments(path)));
    } else {
      LastSegmentBeats(path);
      LastSegmentIsLegal(path);
      pattern := Segments(path)[|Segments(path)| - 1];
    }
  }

  /** `path` used as a pattern is at least as specific as every legal pattern that matches it. */
  ghost predicate MostSpecificOfLegal(path: string) {
    forall pattern | Legal(pattern) && Matches(Expression(pattern), path) ::
      AtMost(PathPatternSpecificity(pattern), PathPatternSpecificity(path))
  }

  /** Among the patterns that configuration accepts, too, a path is the most specific exactly when it dominates. */
  lemma MostSpecificOfLegalExactly(path: string)
    requires Legal(path)
    ensures MostSpecificOfLegal(path) <==> Dominates(path)
  {
    LegalIsNormal(path);
    if Dominates(path) {
      forall pattern | Legal(pattern) && Matches(Expression(pattern), path)
        ensures AtMost(PathPatternSpecificity(pattern), PathPatternSpecificity(path))
      {
        LegalIsNormal(pattern);
        SpelledPathDominates(pattern, path);
      }
    } else {
      var pattern := LegalBeatingPattern(path);
      BelowAsymmetric(PathPatternSpecificity(path), PathPatternSpecificity(pattern));
    }
  }

  // ---------------------------------------------------------------------------------------------
  // Configurations
  // ---------------------------------------------------------------------------------------------

  /** Pattern `j` of override `o` sets the threshold and has the path among its expansions. */
  ghost predicate NamedAt(config: Config, name: string, path: string, o: nat, j: nat)
    requires ValidConfig(config, name)
  {
    && o < |config.overrides| && j < |config.overrides[o].paths| && name in config.overrides[o].thresholds
    && Names(config.overrides[o].paths[j], path)
  }

  /** Where some override names the path, the winner names it. */
  ghost predicate NamingWins(config: Config, name: string, path: string)
    requires ValidConfig(config, name)
  {
    forall o: nat, j: nat, p: nat, k: nat |
      NamedAt(config, name, path, o, j) && Wins(Candidates(config, name, path), p, k) ::
      NamedAt(config, name, path, p, k)
  }

  ghost predicate NamingAlwaysWins(path: string) {
    forall config: Config, name: string | ValidConfig(config, name) :: NamingWins(config, name, path)
  }

  /** Only legal texts are named. */
  lemma NamedIsLegal(pattern: string, path: string)
    requires Validated(pattern) && Names(pattern, path)
    ensures Legal(path)
  {
    ExpandBraceless(TreeOf(pattern), false);
  }

  /** A legal text, used as a configured pattern, stands for itself. */
  lemma LegalStandsForItself(candidate: string)
    requires Legal(candidate)
    ensures Validated(candidate) && Expand(TreeOf(candidate)) == [candidate]
  {
    ExpansionsBraceless(candidate);
    ExpansionsMeaning(candidate);
    CountIsSize(TreeOf(candidate));
  }

  lemma LegalStrength(pattern: string, path: string)
    requires Legal(pattern)
    ensures Validated(pattern)
    ensures Strength(pattern, path) ==
            if ExpansionMatches(pattern, path) then Some(PathPatternSpecificity(pattern)) else None
    ensures Names(pattern, path) <==> pattern == path
  {
    LegalStandsForItself(pattern);
    assert Strongest([pattern][1..], path) == None;
  }

  lemma DominatingPathWins(config: Config, name: string, path: string)
    requires ValidConfig(config, name) && NormalPath(path) && Dominates(path)
    ensures NamingWins(config, name, path)
  {
    forall o: nat, j: nat, p: nat, k: nat |
      NamedAt(config, name, path, o, j) && Wins(Candidates(config, name, path), p, k)
      ensures NamedAt(config, name, path, p, k)
    {
      ExactPathWins(config, name, path, o, j, p, k);
      CandidateSetsThreshold(config, name, path, p, k);
    }
  }

  /** One override with a path and another pattern. */
  function Rival(path: string, pattern: string): Config {
    Config(map["limit" := 0], map[], [ThresholdOverride([path, pattern], map["limit" := 1], "both")])
  }

  lemma RivalIsValid(path: string, pattern: string)
    requires Legal(path) && Legal(pattern)
    ensures ValidConfig(Rival(path, pattern), "limit")
    ensures NamedAt(Rival(path, pattern), "limit", path, 0, 0)
    ensures NamedAt(Rival(path, pattern), "limit", path, 0, 1) <==> pattern == path
  {
    LegalStrength(path, path);
    LegalStrength(pattern, path);
  }

  lemma RivalStrengths(path: string, pattern: string)
    requires Legal(path) && Legal(pattern)
    ensures Validated(path) && Validated(pattern) && ValidConfig(Rival(path, pattern), "limit")
    ensures var t := Candidates(Rival(path, pattern), "limit", path);
      |t| == 1 && |t[0]| == 2 && t[0][0] == Strength(path, path) && t[0][1] == Strength(pattern, path)
  {
    LegalStrength(path, path);
    LegalStrength(pattern, path);
    RivalIsValid(path, pattern);
    var t := Candidates(Rival(path, pattern), "limit", path);
    assert t[0] == Row(Rival(path, pattern).overrides[0], "limit", path);
  }

  /** A path that a legal pattern beats does not win against it. */
  lemma RivalWins(path: string, pattern: string)
    requires Legal(path) && Legal(pattern) && Beats(pattern, path)
    ensures ValidConfig(Rival(path, pattern), "limit")
    ensures Wins(Candidates(Rival(path, pattern), "limit", path), 0, 1)
    ensures NamedAt(Rival(path, pattern), "limit", path, 0, 0)
    ensures !NamedAt(Rival(path, pattern), "limit", path, 0, 1)
  {
    RivalIsValid(path, pattern);
    RivalStrengths(path, pattern);
    LegalStrength(path, path);
    LegalStrength(pattern, path);
    BelowAsymmetric(PathPatternSpecificity(path), PathPatternSpecificity(pattern));
    SecondWins(Candidates(Rival(path, pattern), "limit", path));
  }

  lemma SecondWins(t: Table)
    requires |t| == 1 && |t[0]| == 2 && t[0][1].Some?
    requires t[0][0].Some? ==> Below(t[0][0].value, t[0][1].value)
    ensures Wins(t, 0, 1)
  {
    forall o: nat, j: nat | IsCandidate(t, o, j) && (o, j) != (0, 1) ensures Loses(t, o, j, 0, 1) {
      assert o == 0 && j == 0;
    }
  }

  /**
   * In every configuration that names the path the winner names it, exactly when the path dominates or is
   * not one that a configuration can name.
   */
  lemma NamingWinsExactly(path: string)
    requires NormalPath(path)
    ensures NamingAlwaysWins(path) <==> Dominates(path) || !Legal(path)
  {
    if Dominates(path) {
      forall config: Config, name: string | ValidConfig(config, name) ensures NamingWins(config, name, path) {
        DominatingPathWins(config, name, path);
      }
    } else if !Legal(path) {
      forall config: Config, name: string | ValidConfig(config, name) ensures NamingWins(config, name, path) {
        UnnamedAnywhere(config, name, path);
      }
    } else {
      var pattern := LegalBeatingPattern(path);
      RivalWins(path, pattern);
      assert !NamingWins(Rival(path, pattern), "limit", path);
    }
  }

  lemma UnnamedAnywhere(config: Config, name: string, path: string)
    requires ValidConfig(config, name) && !Legal(path)
    ensures NamingWins(config, name, path)
  {
    forall o: nat, j: nat ensures !NamedAt(config, name, path, o, j) {
      if NamedAt(config, name, path, o, j) {
        NamedIsLegal(config.overrides[o].paths[j], path);
      }
    }
  }
}
