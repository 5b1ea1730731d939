/** When a path spelled out is the most specific pattern that matches it, exactly. */
module PathDominance {
  import opened PathText
  import opened GlobPattern
  import opened PatternSpecificity

  // ---------------------------------------------------------------------------------------------
  // Neighbouring stars
  // ---------------------------------------------------------------------------------------------

  predicate NoStarPair(s: string) {
    forall j | 0 <= j < |s| :: !GlobstarAt(s, j)
  }

  lemma NoStarPairMeaning(s: string)
    ensures NoStarPair(s) <==> !Contains(s, "**")
  {
    assert "**"[0] == '*' && "**"[1] == '*';
    forall j: nat ensures OccursAt(s, "**", j) <==> GlobstarAt(s, j) {
      OccursIndexwise(s, "**", j);
    }
  }

  lemma {:induction false} NoStarPairBySegment(s: string)
    ensures NoStarPair(s) <==> forall x | x in Segments(s) :: NoStarPair(x)
    decreases |s|
  {
    var i := FirstSlash(s);
    if i < |s| {
      SegmentsCons(s);
      NoStarPairBySegment(s[i + 1..]);
      NoStarPairCut(s, i);
    } else {
      SegmentsOne(s);
    }
  }

  lemma NoStarPairCut(s: string, i: nat)
    requires i < |s| && s[i] == '/'
    ensures NoStarPair(s) <==> NoStarPair(s[..i]) && NoStarPair(s[i + 1..])
  {
    var u, v := s[..i], s[i + 1..];
    forall j | 0 <= j < |u| ensures GlobstarAt(u, j) <==> GlobstarAt(s, j) {
    }
    forall j | 0 <= j < |v| ensures GlobstarAt(v, j) <==> GlobstarAt(s, i + 1 + j) {
    }
    forall j | i < j < |s| ensures GlobstarAt(s, j) <==> GlobstarAt(v, j - i - 1) {
    }
  }

  // ---------------------------------------------------------------------------------------------
  // A matching pattern is no more specific
  // ---------------------------------------------------------------------------------------------

  /** A path segment in which no two stars stand together. */
  predicate Spelled(x: string) {
    x != "" && '/' !in x && NoStarPair(x)
  }

  predicate AllSpelled(xs: seq<string>) {
    forall x | x in xs :: Spelled(x)
  }

  lemma SpelledPath(path: string)
    requires NormalPath(path) && !Contains(path, "**")
    ensures AllSpelled(Segments(path))
  {
    NoStarPairMeaning(path);
    NoStarPairBySegment(path);
    JoinedSegments(path);
  }

  /** The pattern takes the literal characters of the segment one by one; when it has all of them, each
      of its stars takes at most one star. */
  lemma {:induction false} SegmentDominance(p: string, x: string)
    requires SegmentMatch(p, x) && '/' !in x && NoStarPair(x)
    ensures LiteralCharacters(p) <= LiteralCharacters(x)
    ensures LiteralCharacters(p) == LiteralCharacters(x) ==>
              Stars(p) >= Stars(x) && (Stars(p) == Stars(x) ==> p == x)
    decreases |p|
  {
    if p != "" {
      assert p == [p[0]] + p[1..];
      if p[0] == '*' {
        var k :| 0 <= k <= |x| && SegmentMatch(p[1..], x[k..]);
        TailOfSpelled(x, k);
        SegmentDominance(p[1..], x[k..]);
        StarTakes(x, k);
      } else {
        TailOfSpelled(x, 1);
        SegmentDominance(p[1..], x[1..]);
        assert x == [x[0]] + x[1..];
      }
    }
  }

  lemma TailOfSpelled(x: string, k: nat)
    requires '/' !in x && NoStarPair(x) && k <= |x|
    ensures '/' !in x[k..] && NoStarPair(x[k..])
  {
    forall j | 0 <= j < |x[k..]| ensures !GlobstarAt(x[k..], j) {
      assert !GlobstarAt(x, k + j);
    }
  }

  /** What a star takes without taking a literal character is one star or nothing. */
  lemma StarTakes(x: string, k: nat)
    requires '/' !in x && NoStarPair(x) && k <= |x|
    ensures LiteralCharacters(x[k..]) <= LiteralCharacters(x)
    ensures LiteralCharacters(x[k..]) == LiteralCharacters(x) ==> k == 0 || (k == 1 && x[0] == '*')
  {
    assert x == x[..k] + x[k..];
    LiteralCharactersConcat(x[..k], x[k..]);
    if k > 0 {
      HasLiteralOrIsStar(x[..k]);
      assert !GlobstarAt(x, 0);
    }
    assert x[0..] == x;
  }

  lemma HasLiteralOrIsStar(x: string)
    requires x != "" && '/' !in x
    ensures LiteralCharacters(x) == 0 ==> x[0] == '*' && (|x| > 1 ==> x[1] == '*')
  {
    if |x| > 1 {
      assert x[1..][0] == x[1];
    }
  }

  lemma {:induction false} SegmentsDominance(ps: seq<string>, xs: seq<string>)
    requires PathMatch(ps, xs, true) && AllSpelled(xs)
    ensures LiteralSegments(ps) <= LiteralSegments(xs) && CharactersIn(ps) <= CharactersIn(xs)
    ensures CharactersIn(ps) == CharactersIn(xs) && Globstars(ps) == 0 ==>
              Wildcards(ps) >= Wildcards(xs) && (Wildcards(ps) == Wildcards(xs) ==> ps == xs)
    decreases |ps|, |xs|
  {
    if ps != [] {
      if ps == ["**"] {
        assert ps[1..] == [];
      } else if ps[0] == "**" {
        if PathMatch(ps[1..], xs, true) {
          SegmentsDominance(ps[1..], xs);
        } else {
          SegmentsDominance(ps, xs[1..]);
        }
      } else {
        assert xs[0] in xs && !GlobstarAt(xs[0], 0);
        SegmentDominance(ps[0], xs[0]);
        if IsLiteral(ps[0]) { LiteralMatchesItself(ps[0], xs[0]); }
        SegmentsDominance(ps[1..], xs[1..]);
        assert ps == [ps[0]] + ps[1..] && xs == [xs[0]] + xs[1..];
      }
    }
  }

  /** All segments but the last are a single star. */
  predicate StarsAbove(xs: seq<string>) {
    forall i | 0 <= i < |xs| - 1 :: xs[i] == "*"
  }

  /** A pattern for the last segment has no more characters than the path, and fewer if some directory
      has one. */
  lemma {:induction false} LastSegmentDominance(p: string, xs: seq<string>)
    requires xs != [] && AllSpelled(xs) && SegmentMatch(p, xs[|xs| - 1])
    ensures LiteralSegments([p]) <= LiteralSegments(xs)
    ensures LiteralCharacters(p) <= CharactersIn(xs)
    ensures LiteralCharacters(p) == CharactersIn(xs) ==> StarsAbove(xs)
  {
    assert xs[0] in xs && [p][1..] == [];
    if |xs| == 1 {
      SegmentDominance(p, xs[0]);
      if IsLiteral(p) { LiteralMatchesItself(p, xs[0]); }
    } else {
      LastSegmentDominance(p, xs[1..]);
      HasLiteralOrIsStar(xs[0]);
      assert !GlobstarAt(xs[0], 0);
    }
  }

  lemma {:induction false} NoGlobstars(xs: seq<string>)
    requires AllSpelled(xs)
    ensures Globstars(xs) == 0
  {
    if xs != [] {
      assert xs[0] in xs && !GlobstarAt(xs[0], 0);
      NoGlobstars(xs[1..]);
    }
  }

  /** No two stars together, and not a last segment below star directories only. */
  predicate Dominates(path: string) {
    && !Contains(path, "**")
    && !(|Segments(path)| >= 2 && StarsAbove(Segments(path)))
  }

  lemma SegmentwiseDominates(pattern: string, path: string)
    requires PathMatch(Segments(pattern), Segments(path), true) && AllSpelled(Segments(path))
    ensures AtMost(PathPatternSpecificity(pattern), PathPatternSpecificity(path))
    ensures PathPatternSpecificity(pattern) == PathPatternSpecificity(path) <==> pattern == path
  {
    SegmentsDominance(Segments(pattern), Segments(path));
    NoGlobstars(Segments(path));
    CharactersBySegment(path);
    CharactersBySegment(pattern);
    JoinedSegments(pattern);
    JoinedSegments(path);
  }

  lemma DirectoriesAddCharacters(pattern: string, path: string)
    requires AllSpelled(Segments(path)) && !StarsAbove(Segments(path))
    requires '/' !in pattern && SegmentMatch(pattern, Segments(path)[|Segments(path)| - 1])
    ensures Below(PathPatternSpecificity(pattern), PathPatternSpecificity(path))
  {
    LastSegmentDominance(pattern, Segments(path));
    SegmentsOne(pattern);
    CharactersBySegment(path);
  }

  /** No pattern that matches such a path is more specific, and only the path itself is as specific. */
  lemma SpelledPathDominates(pattern: string, path: string)
    requires Canonical(pattern) && NormalPath(path) && Dominates(path)
    requires Matches(Expression(pattern), path)
    ensures AtMost(PathPatternSpecificity(pattern), PathPatternSpecificity(path))
    ensures PathPatternSpecificity(pattern) == PathPatternSpecificity(path) <==> pattern == path
  {
    CompilationPreservesMeaning(pattern, path);
    SpelledPath(path);
    if '/' !in pattern {
      SegmentsOne(pattern);
    }
    if '/' in pattern || pattern == "**" || |Segments(path)| == 1 {
      SegmentwiseDominates(pattern, path);
    } else {
      DirectoriesAddCharacters(pattern, path);
    }
  }

  // ---------------------------------------------------------------------------------------------
  // Every other path has a more specific pattern
  // ---------------------------------------------------------------------------------------------

  /** Every run of stars becomes one star. */
  function Collapsed(x: string): string {
    if x == "" then ""
    else if GlobstarAt(x, 0) then Collapsed(x[1..])
    else [x[0]] + Collapsed(x[1..])
  }

  lemma {:induction false} CollapsedMeaning(x: string)
    ensures NoStarPair(Collapsed(x))
    ensures x == "" <==> Collapsed(x) == ""
    ensures x != "" ==> Collapsed(x)[0] == x[0]
    ensures '/' !in x ==> '/' !in Collapsed(x)
    ensures SegmentMatch(Collapsed(x), x)
  {
    if x != "" {
      CollapsedMeaning(x[1..]);
      var rest := Collapsed(x[1..]);
      if GlobstarAt(x, 0) {
        StarTakesOneMore(rest, x);
      } else {
        ConsNoStarPair(x[0], rest);
        assert ([x[0]] + rest)[1..] == rest;
        if x[0] == '*' { assert SegmentMatch(rest, x[1..]); }
      }
    }
  }

  lemma ConsNoStarPair(c: char, rest: string)
    requires NoStarPair(rest) && !(c == '*' && rest != "" && rest[0] == '*')
    ensures NoStarPair([c] + rest)
  {
    forall j | 0 <= j < |rest| + 1 ensures !GlobstarAt([c] + rest, j) {
      if j > 0 { assert !GlobstarAt(rest, j - 1); }
    }
  }

  lemma StarTakesOneMore(p: string, x: string)
    requires p != "" && p[0] == '*' && x != "" && SegmentMatch(p, x[1..])
    ensures SegmentMatch(p, x)
  {
    var k :| 0 <= k <= |x[1..]| && SegmentMatch(p[1..], x[1..][k..]);
    assert x[1..][k..] == x[k + 1..];
  }

  lemma {:induction false} CollapsedCounts(x: string)
    ensures LiteralCharacters(Collapsed(x)) == LiteralCharacters(x)
    ensures IsLiteral(Collapsed(x)) <==> IsLiteral(x)
    ensures Stars(Collapsed(x)) <= Stars(x)
    ensures !NoStarPair(x) ==> Stars(Collapsed(x)) < Stars(x)
  {
    NoStars(x);
    NoStars(Collapsed(x));
    if x != "" {
      CollapsedCounts(x[1..]);
      NoStars(x[1..]);
      NoStars(Collapsed(x[1..]));
      if !GlobstarAt(x, 0) {
        assert ([x[0]] + Collapsed(x[1..]))[1..] == Collapsed(x[1..]);
        if NoStarPair(x[1..]) {
          ConsNoStarPairOf(x);
        }
      }
    }
  }

  lemma ConsNoStarPairOf(x: string)
    requires x != "" && NoStarPair(x[1..]) && !GlobstarAt(x, 0)
    ensures NoStarPair(x)
  {
    forall j | 0 <= j < |x| ensures !GlobstarAt(x, j) {
      if j > 0 { assert !GlobstarAt(x[1..], j - 1); }
    }
  }

  function CollapsedAll(xs: seq<string>): (ps: seq<string>)
    ensures |ps| == |xs|
    ensures forall i :: 0 <= i < |xs| ==> ps[i] == Collapsed(xs[i])
  {
    if xs == [] then [] else [Collapsed(xs[0])] + CollapsedAll(xs[1..])
  }

  lemma {:induction false} CollapsedAllMatch(xs: seq<string>)
    ensures PathMatch(CollapsedAll(xs), xs, true)
  {
    if xs != [] {
      CollapsedMeaning(xs[0]);
      NotGlobstar(Collapsed(xs[0]));
      CollapsedAllMatch(xs[1..]);
      assert CollapsedAll(xs)[1..] == CollapsedAll(xs[1..]);
    }
  }

  lemma NotGlobstar(x: string)
    requires NoStarPair(x)
    ensures x != "**"
  {
    if x == "**" { assert GlobstarAt(x, 0); }
  }

  /** Collapsing loses no literal count, and makes the pattern more specific as soon as a star goes. */
  lemma {:induction false} CollapsedAllCounts(xs: seq<string>)
    ensures var ps := CollapsedAll(xs);
      && LiteralSegments(ps) == LiteralSegments(xs) && CharactersIn(ps) == CharactersIn(xs)
      && Globstars(ps) == 0
      && (Globstars(xs) == 0 ==> Wildcards(ps) <= Wildcards(xs))
      && (Globstars(xs) == 0 && (exists x :: x in xs && !NoStarPair(x)) ==> Wildcards(ps) < Wildcards(xs))
  {
    if xs != [] {
      CollapsedMeaning(xs[0]);
      CollapsedCounts(xs[0]);
      NotGlobstar(Collapsed(xs[0]));
      CollapsedAllCounts(xs[1..]);
      assert CollapsedAll(xs)[1..] == CollapsedAll(xs[1..]);
      assert xs == [xs[0]] + xs[1..];
    }
  }

  /** A pattern that matches the path and is more specific than it. */
  ghost predicate Beats(pattern: string, path: string) {
    && Canonical(pattern) && Matches(Expression(pattern), path)
    && Below(PathPatternSpecificity(path), PathPatternSpecificity(pattern))
  }

  /** A path with two stars together is beaten by the pattern with one star for each run. */
  lemma CollapsedBeats(path: string)
    requires NormalPath(path) && Contains(path, "**")
    ensures Beats(Joined(CollapsedAll(Segments(path))), path)
  {
    var xs := Segments(path);
    var ps := CollapsedAll(xs);
    var pattern := Joined(ps);
    JoinedSegments(path);
    forall i | 0 <= i < |ps| ensures '/' !in ps[i] && CanonicalSegment(ps[i]) && NoStarPair(ps[i]) {
      assert xs[i] in xs;
      CollapsedMeaning(xs[i]);
      NoStarPairMeaning(ps[i]);
    }
    SegmentsOfJoined(ps);
    CompilationPreservesMeaning(pattern, path);
    CollapsedAllMatch(xs);
    SlashesSeparate(pattern);
    NotGlobstar(ps[0]);
    NoStarPairMeaning(path);
    NoStarPairBySegment(path);
    CollapsedAllCounts(xs);
    CharactersBySegment(path);
    CharactersBySegment(pattern);
  }

  lemma SlashesSeparate(s: string)
    ensures '/' in s <==> |Segments(s)| > 1
  {
    FirstSlashMeaning(s);
    if '/' in s { SegmentsCons(s); }
  }

  lemma {:induction false} SegmentMatchesItself(x: string)
    ensures SegmentMatch(x, x)
  {
    if x != "" {
      SegmentMatchesItself(x[1..]);
    }
  }

  lemma {:induction false} StarsAboveCounts(xs: seq<string>)
    requires xs != [] && StarsAbove(xs) && AllSpelled(xs)
    ensures LiteralSegments(xs) == LiteralSegments([xs[|xs| - 1]])
    ensures CharactersIn(xs) == LiteralCharacters(xs[|xs| - 1])
    ensures Wildcards(xs) == |xs| - 1 + Stars(xs[|xs| - 1])
  {
    assert xs[0] in xs && !GlobstarAt(xs[0], 0);
    if |xs| == 1 {
      assert xs == [xs[0]] && xs[1..] == [];
    } else {
      StarsAboveCounts(xs[1..]);
      assert "*"[1..] == "" && "*"[0] in "*";
    }
  }

  /** A path below star directories only is beaten by its last segment, which tests any depth. */
  lemma LastSegmentBeats(path: string)
    requires NormalPath(path) && !Contains(path, "**")
    requires |Segments(path)| >= 2 && StarsAbove(Segments(path))
    ensures Beats(Segments(path)[|Segments(path)| - 1], path)
  {
    var xs := Segments(path);
    var last := xs[|xs| - 1];
    SpelledPath(path);
    assert last in xs;
    NoStarPairMeaning(last);
    NotGlobstar(last);
    SegmentsOne(last);
    assert last == xs[|xs| - 1] && Crossable(xs[..|xs| - 1], true);
    SegmentMatchesItself(last);
    CompilationPreservesMeaning(last, path);
    StarsAboveCounts(xs);
    NoGlobstars(xs);
    NoGlobstars([last]);
    StarsAboveCounts([last]);
    CharactersBySegment(path);
    CharactersBySegment(last);
  }

  /** A path without neighbouring stars, used as a pattern, is legal and matches itself. */
  lemma SpelledPathMatchesItself(path: string)
    requires NormalPath(path) && !Contains(path, "**")
    ensures Canonical(path) && Matches(Expression(path), path)
  {
    SpelledPath(path);
    forall x | x in Segments(path) ensures CanonicalSegment(x) {
      NoStarPairMeaning(x);
    }
    CompilationPreservesMeaning(path, path);
    if '/' in path {
      SegmentsMatchThemselves(Segments(path));
    } else {
      SegmentsOne(path);
      NoStarPairMeaning(path);
      NotGlobstar(path);
      SegmentMatchesItself(path);
    }
  }

  lemma {:induction false} SegmentsMatchThemselves(xs: seq<string>)
    requires AllSpelled(xs)
    ensures PathMatch(xs, xs, true)
  {
    if xs != [] {
      assert xs[0] in xs;
      NotGlobstar(xs[0]);
      SegmentMatchesItself(xs[0]);
      SegmentsMatchThemselves(xs[1..]);
    }
  }

  /** `path` used as a pattern is at least as specific as everything that matches it. */
  ghost predicate MostSpecific(path: string) {
    forall pattern | Canonical(pattern) && Matches(Expression(pattern), path) ::
      AtMost(PathPatternSpecificity(pattern), PathPatternSpecificity(path))
  }

  /** A path spelled out is the most specific pattern for itself exactly when no two of its stars stand
      together and it is not a last segment below star directories only. */
  lemma MostSpecificExactly(path: string)
    requires NormalPath(path)
    ensures MostSpecific(path) <==> Dominates(path)
  {
    if Dominates(path) {
      forall pattern | Canonical(pattern) && Matches(Expression(pattern), path)
        ensures AtMost(PathPatternSpecificity(pattern), PathPatternSpecificity(path))
      {
        SpelledPathDominates(pattern, path);
      }
    } else {
      var pattern := BeatingPattern(path);
      BelowAsymmetric(PathPatternSpecificity(path), PathPatternSpecificity(pattern));
    }
  }

  lemma BeatingPattern(path: string) returns (pattern: string)
    requires NormalPath(path) && !Dominates(path)
    ensures Beats(pattern, path)
  {
    if Contains(path, "**") {
      CollapsedBeats(path);
      pattern := Joined(CollapsedAll(Segments(path)));
    } else {
      LastSegmentBeats(path);
      pattern := Segments(path)[|Segments(path)| - 1];
    }
  }

  /** The bare name is more specific than the path that a star directory holds it in. */
  lemma NameBeatsStarDirectory()
    ensures Segments("*/a") == ["*", "a"] && NormalPath("*/a")
    ensures Beats("a", "*/a")
  {
    SegmentsOfJoined(["*", "a"]);
    assert ["*", "a"][1..] == ["a"];
    assert Joined(["*", "a"]) == "*/a";
    NoStarPairMeaning("*/a");
    LastSegmentBeats("*/a");
  }
}
