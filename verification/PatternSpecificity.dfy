/**
 * How specific a path pattern is, as a tuple that compares component by component, and the strongest
 * of the expansions that match a path. Only the relative order of specificities matters to
 * resolution.
 */
module PatternSpecificity {
  import opened Options
  import opened PathText
  import opened GlobPattern

  /** Compared lexicographically; the last two components are negated counts. */
  datatype Specificity = Specificity(literalSegments: int, literalCharacters: int, globstars: int, wildcards: int)

  predicate Below(a: Specificity, b: Specificity) {
    || a.literalSegments < b.literalSegments
    || (a.literalSegments == b.literalSegments
        && (|| a.literalCharacters < b.literalCharacters
            || (a.literalCharacters == b.literalCharacters
                && (|| a.globstars < b.globstars
                    || (a.globstars == b.globstars && a.wildcards < b.wildcards)))))
  }

  predicate AtMost(a: Specificity, b: Specificity) {
    a == b || Below(a, b)
  }

  function Components(s: Specificity): seq<int> {
    [s.literalSegments, s.literalCharacters, s.globstars, s.wildcards]
  }

  /** The tuples agree before component `k`, and there `a` has less. */
  predicate LessAt(a: Specificity, b: Specificity, k: nat) {
    k < 4 && Components(a)[..k] == Components(b)[..k] && Components(a)[k] < Components(b)[k]
  }

  /** Specificities are ordered as tuples are, by the first component in which they differ. */
  lemma BelowIsLexicographic(a: Specificity, b: Specificity)
    ensures Below(a, b) <==> exists k: nat :: LessAt(a, b, k)
    ensures Below(a, b) || a == b || Below(b, a)
  {
    var s, t := Components(a), Components(b);
    assert s[..0] == t[..0];
    assert s[..1] == [s[0]] && t[..1] == [t[0]];
    assert s[..2] == [s[0], s[1]] && t[..2] == [t[0], t[1]];
    assert s[..3] == [s[0], s[1], s[2]] && t[..3] == [t[0], t[1], t[2]];
    if Below(a, b) {
      var k := if s[0] != t[0] then 0 else if s[1] != t[1] then 1 else if s[2] != t[2] then 2 else 3;
      assert LessAt(a, b, k);
    }
    if k: nat :| LessAt(a, b, k) {
      assert forall i | 0 <= i < k :: s[i] == s[..k][i] == t[..k][i] == t[i];
    }
  }

  lemma BelowTransitive(a: Specificity, b: Specificity, c: Specificity)
    requires AtMost(a, b) && AtMost(b, c)
    ensures AtMost(a, c)
    ensures a != b || b != c ==> Below(a, c)
  {
  }

  lemma BelowAsymmetric(a: Specificity, b: Specificity)
    requires Below(a, b)
    ensures !Below(b, a) && a != b
  {
  }

  lemma BelowTotal(a: Specificity, b: Specificity)
    requires !Below(a, b)
    ensures AtMost(b, a)
  {
  }

  // ---------------------------------------------------------------------------------------------
  // Counting
  // ---------------------------------------------------------------------------------------------

  predicate IsLiteral(segment: string) {
    '*' !in segment
  }

  function LiteralSegments(segments: seq<string>): nat {
    if segments == [] then 0 else (if IsLiteral(segments[0]) then 1 else 0) + LiteralSegments(segments[1..])
  }

  function LiteralCharacters(s: string): nat {
    if s == "" then 0 else (if s[0] != '*' && s[0] != '/' then 1 else 0) + LiteralCharacters(s[1..])
  }

  function Globstars(segments: seq<string>): nat {
    if segments == [] then 0 else (if segments[0] == "**" then 1 else 0) + Globstars(segments[1..])
  }

  function Stars(segment: string): nat {
    if segment == "" then 0 else (if segment[0] == '*' then 1 else 0) + Stars(segment[1..])
  }

  function Wildcards(segments: seq<string>): nat {
    if segments == [] then 0
    else (if segments[0] == "**" then 0 else Stars(segments[0])) + Wildcards(segments[1..])
  }

  function PathPatternSpecificity(pattern: string): Specificity {
    var segments := Segments(pattern);
    Specificity(LiteralSegments(segments), LiteralCharacters(pattern), 0 - Globstars(segments), 0 - Wildcards(segments))
  }

  function CharactersIn(segments: seq<string>): nat {
    if segments == [] then 0 else LiteralCharacters(segments[0]) + CharactersIn(segments[1..])
  }

  lemma {:induction false} LiteralCharactersConcat(u: string, v: string)
    ensures LiteralCharacters(u + v) == LiteralCharacters(u) + LiteralCharacters(v)
  {
    if u == "" {
      assert u + v == v;
    } else {
      assert (u + v)[1..] == u[1..] + v;
      LiteralCharactersConcat(u[1..], v);
    }
  }

  lemma {:induction false} CharactersBySegment(s: string)
    ensures LiteralCharacters(s) == CharactersIn(Segments(s))
    decreases |s|
  {
    var i := FirstSlash(s);
    if i < |s| {
      SegmentsCons(s);
      LiteralCharactersConcat(s[..i] + "/", s[i + 1..]);
      LiteralCharactersConcat(s[..i], "/");
      CharactersBySegment(s[i + 1..]);
    } else {
      SegmentsOne(s);
    }
  }

  lemma {:induction false} NoStars(segment: string)
    ensures IsLiteral(segment) <==> Stars(segment) == 0
  {
    if segment != "" {
      NoStars(segment[1..]);
      assert segment == [segment[0]] + segment[1..];
    }
  }

  lemma {:induction false} LiteralMatchesItself(segment: string, x: string)
    requires IsLiteral(segment)
    ensures SegmentMatch(segment, x) <==> segment == x
    decreases |segment|
  {
    if segment != "" {
      assert segment[0] in segment;
      LiteralMatchesItself(segment[1..], if x == "" then x else x[1..]);
      assert segment == [segment[0]] + segment[1..];
      assert x != "" ==> x == [x[0]] + x[1..];
    }
  }

  // ---------------------------------------------------------------------------------------------
  // The strongest matching expansion
  // ---------------------------------------------------------------------------------------------

  predicate ExpansionMatches(expansion: string, path: string) {
    Matches(Expression(expansion), path)
  }

  /** The greatest specificity among the expansions that match. */
  function Strongest(expanded: seq<string>, path: string): Option<Specificity> {
    if expanded == [] then None else
      var rest := Strongest(expanded[1..], path);
      if !ExpansionMatches(expanded[0], path) then rest
      else
        var here := PathPatternSpecificity(expanded[0]);
        if rest.None? || Below(rest.value, here) then Some(here) else rest
  }

  lemma {:induction false} StrongestIsAnUpperBound(expanded: seq<string>, path: string, i: nat)
    requires i < |expanded| && ExpansionMatches(expanded[i], path)
    ensures Strongest(expanded, path).Some? && AtMost(PathPatternSpecificity(expanded[i]),
                                                      Strongest(expanded, path).value)
  {
    var rest := Strongest(expanded[1..], path);
    var here := PathPatternSpecificity(expanded[0]);
    if i > 0 {
      StrongestIsAnUpperBound(expanded[1..], path, i - 1);
      if ExpansionMatches(expanded[0], path) && Below(rest.value, here) {
        BelowTransitive(PathPatternSpecificity(expanded[i]), rest.value, here);
      }
    } else if rest.Some? {
      if !Below(rest.value, here) { BelowTotal(rest.value, here); }
    }
  }

  lemma {:induction false} StrongestIsAttained(expanded: seq<string>, path: string) returns (i: nat)
    requires Strongest(expanded, path).Some?
    ensures i < |expanded| && ExpansionMatches(expanded[i], path)
    ensures PathPatternSpecificity(expanded[i]) == Strongest(expanded, path).value
  {
    if Strongest(expanded, path) != Strongest(expanded[1..], path) {
      i := 0;
    } else {
      i := StrongestIsAttained(expanded[1..], path);
      i := i + 1;
    }
  }
}
