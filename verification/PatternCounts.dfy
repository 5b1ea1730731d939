/** What the components of a specificity count, and how patterns compare by these counts. */
module PatternCounts {
  import opened PathText
  import opened PatternSpecificity

  // ---------- Counting places ----------

  ghost function Places<T>(s: seq<T>, p: T -> bool): set<int> {
    set i | 0 <= i < |s| && p(s[i])
  }

  lemma OnePlaceMore<T>(s: seq<T>, p: T -> bool)
    requires s != []
    ensures |Places(s, p)| == |Places(s[..|s| - 1], p)| + if p(s[|s| - 1]) then 1 else 0
  {
    var n := |s| - 1;
    assert Places(s, p) == Places(s[..n], p) + if p(s[n]) then {n} else {};
  }

  lemma {:induction false} FirstPlace<T>(s: seq<T>, p: T -> bool)
    requires s != []
    ensures |Places(s, p)| == (if p(s[0]) then 1 else 0) + |Places(s[1..], p)|
    decreases |s|
  {
    OnePlaceMore(s, p);
    if |s| == 1 {
      assert Places(s[1..], p) == {} && Places(s[..0], p) == {};
    } else {
      FirstPlace(s[..|s| - 1], p);
      OnePlaceMore(s[1..], p);
      assert s[..|s| - 1][1..] == s[1..][..|s[1..]| - 1];
    }
  }

  lemma {:induction false} LiteralSegmentPlaces(segments: seq<string>)
    ensures LiteralSegments(segments) == |Places(segments, IsLiteral)|
  {
    if segments != [] {
      FirstPlace(segments, IsLiteral);
      LiteralSegmentPlaces(segments[1..]);
    } else {
      assert Places(segments, IsLiteral) == {};
    }
  }

  predicate IsPlain(c: char) {
    c != '*' && c != '/'
  }

  lemma {:induction false} LiteralCharacterPlaces(s: string)
    ensures LiteralCharacters(s) == |Places(s, IsPlain)|
  {
    if s != "" {
      FirstPlace(s, IsPlain);
      LiteralCharacterPlaces(s[1..]);
    } else {
      assert Places(s, IsPlain) == {};
    }
  }

  predicate IsGlobstar(segment: string) {
    segment == "**"
  }

  lemma {:induction false} GlobstarPlaces(segments: seq<string>)
    ensures Globstars(segments) == |Places(segments, IsGlobstar)|
  {
    if segments != [] {
      FirstPlace(segments, IsGlobstar);
      GlobstarPlaces(segments[1..]);
    } else {
      assert Places(segments, IsGlobstar) == {};
    }
  }

  predicate IsStar(c: char) {
    c == '*'
  }

  lemma {:induction false} StarPlaces(segment: string)
    ensures Stars(segment) == |Places(segment, IsStar)|
  {
    if segment != "" {
      FirstPlace(segment, IsStar);
      StarPlaces(segment[1..]);
    } else {
      assert Places(segment, IsStar) == {};
    }
  }

  // ---------- Stars in segments ----------

  /** The stars outside segments `**`, by segment and place in the segment. */
  ghost function SingleStars(segments: seq<string>): set<(int, int)> {
    set i, j | 0 <= i < |segments| && segments[i] != "**" && 0 <= j < |segments[i]| && segments[i][j] == '*' :: (i, j)
  }

  ghost function Paired<T(!new)>(i: int, places: set<T>): set<(int, T)> {
    set j | j in places :: (i, j)
  }

  lemma {:induction false} PairedSize<T(!new)>(i: int, places: set<T>)
    ensures |Paired(i, places)| == |places|
  {
    if places != {} {
      var k :| k in places;
      PairedSize(i, places - {k});
      assert Paired(i, places) == Paired(i, places - {k}) + {(i, k)};
    }
  }

  lemma {:induction false} WildcardsConcat(a: seq<string>, b: seq<string>)
    ensures Wildcards(a + b) == Wildcards(a) + Wildcards(b)
  {
    if a == [] {
      assert a + b == b;
    } else {
      assert (a + b)[1..] == a[1..] + b;
      WildcardsConcat(a[1..], b);
    }
  }

  lemma LastSegmentStars(segments: seq<string>)
    requires segments != []
    ensures var n := |segments| - 1;
      |SingleStars(segments)| ==
      |SingleStars(segments[..n])| + if segments[n] == "**" then 0 else |Places(segments[n], IsStar)|
  {
    var n := |segments| - 1;
    var last := if segments[n] == "**" then {} else Paired(n, Places(segments[n], IsStar));
    assert SingleStars(segments) == SingleStars(segments[..n]) + last;
    PairedSize(n, Places(segments[n], IsStar));
  }

  lemma {:induction false} WildcardPlaces(segments: seq<string>)
    ensures Wildcards(segments) == |SingleStars(segments)|
    decreases |segments|
  {
    if segments == [] {
      assert SingleStars(segments) == {};
    } else {
      var n := |segments| - 1;
      WildcardPlaces(segments[..n]);
      assert segments == segments[..n] + [segments[n]];
      WildcardsConcat(segments[..n], [segments[n]]);
      StarPlaces(segments[n]);
      LastSegmentStars(segments);
    }
  }

  // ---------- The counts of a pattern ----------

  /** The segments without a star. */
  ghost function StarFree(pattern: string): nat {
    |set i | 0 <= i < |Segments(pattern)| && '*' !in Segments(pattern)[i]|
  }

  /** The characters that are neither stars nor slashes. */
  ghost function FixedCharacters(pattern: string): nat {
    |set k | 0 <= k < |pattern| && pattern[k] != '*' && pattern[k] != '/'|
  }

  /** The segments `**`. */
  ghost function DoubleStars(pattern: string): nat {
    |set i | 0 <= i < |Segments(pattern)| && Segments(pattern)[i] == "**"|
  }

  /** The stars in all other segments. */
  ghost function OtherStars(pattern: string): nat {
    |SingleStars(Segments(pattern))|
  }

  /** The counts in the order of importance, the last two negated. */
  ghost function Counts(pattern: string): Specificity {
    Specificity(StarFree(pattern), FixedCharacters(pattern), 0 - DoubleStars(pattern), 0 - OtherStars(pattern))
  }

  /** The four components are these counts. */
  lemma ComponentsMeaning(pattern: string)
    ensures PathPatternSpecificity(pattern) == Counts(pattern)
  {
    var segments := Segments(pattern);
    LiteralSegmentPlaces(segments);
    LiteralCharacterPlaces(pattern);
    GlobstarPlaces(segments);
    WildcardPlaces(segments);
    assert Places(segments, IsLiteral) == set i | 0 <= i < |segments| && '*' !in segments[i];
    assert Places(pattern, IsPlain) == set k | 0 <= k < |pattern| && pattern[k] != '*' && pattern[k] != '/';
    assert Places(segments, IsGlobstar) == set i | 0 <= i < |segments| && segments[i] == "**";
  }

  /** Star-free segments decide first, then plain characters, then the lack of `**`, then the lack of other stars. */
  ghost predicate LessSpecific(a: string, b: string) {
    if StarFree(a) != StarFree(b) then StarFree(a) < StarFree(b)
    else if FixedCharacters(a) != FixedCharacters(b) then FixedCharacters(a) < FixedCharacters(b)
    else if DoubleStars(a) != DoubleStars(b) then DoubleStars(a) > DoubleStars(b)
    else OtherStars(a) > OtherStars(b)
  }

  ghost predicate AsSpecific(a: string, b: string) {
    && StarFree(a) == StarFree(b) && FixedCharacters(a) == FixedCharacters(b)
    && DoubleStars(a) == DoubleStars(b) && OtherStars(a) == OtherStars(b)
  }

  /** Specificities compare patterns by these counts. */
  lemma BelowByCounts(a: string, b: string)
    ensures Below(PathPatternSpecificity(a), PathPatternSpecificity(b)) <==> LessSpecific(a, b)
    ensures PathPatternSpecificity(a) == PathPatternSpecificity(b) <==> AsSpecific(a, b)
  {
    ComponentsMeaning(a);
    ComponentsMeaning(b);
  }
}
