/** Path globs: their compilation to regular expressions and the segment-wise meaning it preserves. */
module GlobPattern {
  import opened PathText
  import opened Sequences

  // ---------------------------------------------------------------------------------------------
  // Regular expressions
  // ---------------------------------------------------------------------------------------------

  /** The fragment of Python's `re` syntax that the translator emits. `AnyChar` is `.` without the
      DOTALL flag: every character except a newline. */
  datatype Regex =
    | Empty
    | Literal(c: char)
    | NotSlash
    | AnyChar
    | Cat(left: Regex, right: Regex)
    | Star(body: Regex)
    | Optional(body: Regex)

  /** `re.fullmatch`. */
  predicate Matches(r: Regex, s: string)
    decreases r, |s|
  {
    match r
    case Empty => s == ""
    case Literal(c) => s == [c]
    case NotSlash => |s| == 1 && s[0] != '/'
    case AnyChar => |s| == 1 && s[0] != '\n'
    case Cat(left, right) => exists k | 0 <= k <= |s| :: Matches(left, s[..k]) && Matches(right, s[k..])
    case Star(body) => s == "" || exists k | 0 < k <= |s| :: Matches(body, s[..k]) && Matches(r, s[k..])
    case Optional(body) => s == "" || Matches(body, s)
  }

  /** The four texts the translator emits. */
  datatype Fragment =
    | LeadingDirectories      // (?:.*/)?
    | AnyRun                  // .*
    | SegmentRun              // [^/]*
    | Escaped(c: char)        // re.escape of one character

  function RegexOf(fragment: Fragment): Regex {
    match fragment
    case LeadingDirectories => Optional(Cat(Star(AnyChar), Literal('/')))
    case AnyRun => Star(AnyChar)
    case SegmentRun => Star(NotSlash)
    case Escaped(c) => Literal(c)
  }

  function Sequence(fragments: seq<Fragment>): Regex {
    if fragments == [] then Empty else Cat(RegexOf(fragments[0]), Sequence(fragments[1..]))
  }

  predicate GlobstarAt(pattern: string, i: nat) {
    i + 2 <= |pattern| && pattern[i] == '*' && pattern[i + 1] == '*'
  }

  /** The translation of one pattern, read from its first character on. */
  function Fragments(pattern: string): seq<Fragment> {
    if pattern == "" then []
    else if GlobstarAt(pattern, 0) then
      if |pattern| > 2 && pattern[2] == '/' then [LeadingDirectories] + Fragments(pattern[3..])
      else [AnyRun] + Fragments(pattern[2..])
    else
      [if pattern[0] == '*' then SegmentRun else Escaped(pattern[0])] + Fragments(pattern[1..])
  }

  function Expression(pattern: string): Regex {
    if '/' in pattern then Sequence(Fragments(pattern))
    else Cat(RegexOf(LeadingDirectories), Sequence(Fragments(pattern)))
  }

  /** The translator's index loop. */
  method PatternExpression(pattern: string) returns (r: Regex)
    ensures r == Expression(pattern)
    ensures Canonical(pattern) ==> MeansGlob(r, pattern)
  {
    var parts: seq<Fragment>, index := [], 0;
    assert pattern[0..] == pattern;
    while index < |pattern|
      invariant index <= |pattern|
      invariant parts + Fragments(pattern[index..]) == Fragments(pattern)
    {
      if GlobstarAt(pattern, index) {
        FragmentsAtGlobstar(pattern, index);
        if index + 2 < |pattern| && pattern[index + 2] == '/' {
          MoveOver(parts, LeadingDirectories, Fragments(pattern[index + 3..]));
          parts := parts + [LeadingDirectories];
          index := index + 3;
          continue;
        }
        MoveOver(parts, AnyRun, Fragments(pattern[index + 2..]));
        parts := parts + [AnyRun];
        index := index + 2;
        continue;
      }
      FragmentsAtCharacter(pattern, index);
      var character := pattern[index];
      var fragment := if character == '*' then SegmentRun else Escaped(character);
      MoveOver(parts, fragment, Fragments(pattern[index + 1..]));
      parts := parts + [fragment];
      index := index + 1;
    }
    assert parts == Fragments(pattern) by { assert Fragments(pattern[index..]) == []; }
    var expression := Sequence(parts);
    r := if '/' in pattern then expression else Cat(RegexOf(LeadingDirectories), expression);
    if Canonical(pattern) { CompilationPreservesMeaningEverywhere(pattern); }
  }

  lemma FragmentsAtGlobstar(pattern: string, i: nat)
    requires GlobstarAt(pattern, i)
    ensures Fragments(pattern[i..]) ==
            if i + 2 < |pattern| && pattern[i + 2] == '/' then [LeadingDirectories] + Fragments(pattern[i + 3..])
            else [AnyRun] + Fragments(pattern[i + 2..])
  {
    var rest := pattern[i..];
    assert rest[2..] == pattern[i + 2..];
    assert |rest| > 2 ==> rest[3..] == pattern[i + 3..];
  }

  lemma FragmentsAtCharacter(pattern: string, i: nat)
    requires i < |pattern| && !GlobstarAt(pattern, i)
    ensures Fragments(pattern[i..]) ==
            [if pattern[i] == '*' then SegmentRun else Escaped(pattern[i])] + Fragments(pattern[i + 1..])
  {
    assert pattern[i..][1..] == pattern[i + 1..];
  }

  // ---------------------------------------------------------------------------------------------
  // The segment-wise meaning
  // ---------------------------------------------------------------------------------------------

  /** Every segment is non-empty and `**` only occurs as a whole segment. */
  predicate Canonical(pattern: string) {
    AllCanonical(Segments(pattern))
  }

  predicate AllCanonical(parts: seq<string>) {
    forall part | part in parts :: CanonicalSegment(part)
  }

  predicate CanonicalSegment(part: string) {
    part != "" && (part == "**" || !Contains(part, "**"))
  }

  /** `*` stands for any run of characters inside one segment; anything else stands for itself. */
  predicate SegmentMatch(pattern: string, x: string) {
    if pattern == "" then x == ""
    else if pattern[0] == '*' then exists k | 0 <= k <= |x| :: SegmentMatch(pattern[1..], x[k..])
    else x != "" && x[0] == pattern[0] && SegmentMatch(pattern[1..], x[1..])
  }

  /** A final `**` takes one or more segments, an inner one zero or more, any other pattern segment
      exactly one. With `dotStopsAtNewline` a segment taken by `**` must not contain a newline. */
  predicate PathMatch(patterns: seq<string>, xs: seq<string>, dotStopsAtNewline: bool)
    decreases |patterns|, |xs|
  {
    if patterns == [] then xs == []
    else if patterns == ["**"] then xs != [] && Crossable(xs, dotStopsAtNewline)
    else if patterns[0] == "**" then
      || PathMatch(patterns[1..], xs, dotStopsAtNewline)
      || (xs != [] && Crossable([xs[0]], dotStopsAtNewline) && PathMatch(patterns, xs[1..], dotStopsAtNewline))
    else xs != [] && SegmentMatch(patterns[0], xs[0]) && PathMatch(patterns[1..], xs[1..], dotStopsAtNewline)
  }

  predicate Crossable(xs: seq<string>, dotStopsAtNewline: bool) {
    dotStopsAtNewline ==> forall x | x in xs :: NewlineFree(x)
  }

  /** A pattern without a slash tests the last segment at any depth. */
  predicate GlobWith(pattern: string, path: string, dotStopsAtNewline: bool) {
    var xs := Segments(path);
    if '/' in pattern then PathMatch(Segments(pattern), xs, dotStopsAtNewline)
    else if pattern == "**" then Crossable(xs, dotStopsAtNewline)
    else Crossable(xs[..|xs| - 1], dotStopsAtNewline) && SegmentMatch(pattern, xs[|xs| - 1])
  }

  /** The meaning the compiled expression has on every normalized path. */
  predicate Glob(pattern: string, path: string) {
    GlobWith(pattern, path, true)
  }

  /** The documented meaning, in which no character is special to `**`. */
  predicate PlainGlob(pattern: string, path: string) {
    GlobWith(pattern, path, false)
  }

  /** An inner `**` takes any number of whole leading segments, a final one takes all and at least one. */
  lemma {:induction false} GlobstarTakesSegments(patterns: seq<string>, xs: seq<string>, strict: bool)
    requires patterns != [] && patterns[0] == "**"
    ensures PathMatch(patterns, xs, strict) <==>
            exists j: nat :: (|patterns| > 1 || j == |xs| > 0) && GlobstarTakes(patterns, xs, strict, j)
    decreases |xs|
  {
    if |patterns| == 1 {
      FinalGlobstarTakes(patterns, xs, strict);
    } else {
      TakesNothing(patterns, xs, strict);
      if xs == [] {
        if j: nat :| GlobstarTakes(patterns, xs, strict, j) {
          assert j == 0;
        }
      } else {
        GlobstarTakesSegments(patterns, xs[1..], strict);
        if j: nat :| GlobstarTakes(patterns, xs, strict, j) {
          if j > 0 { TakesOneMore(patterns, xs, strict, j - 1); }
        }
        if j: nat :| GlobstarTakes(patterns, xs[1..], strict, j) {
          TakesOneMore(patterns, xs, strict, j);
        }
      }
    }
  }

  lemma FinalGlobstarTakes(patterns: seq<string>, xs: seq<string>, strict: bool)
    requires |patterns| == 1 && patterns[0] == "**"
    ensures PathMatch(patterns, xs, strict) <==> xs != [] && GlobstarTakes(patterns, xs, strict, |xs|)
  {
    assert xs[..|xs|] == xs && xs[|xs|..] == [] && patterns[1..] == [];
    assert patterns == ["**"];
  }

  ghost predicate GlobstarTakes(patterns: seq<string>, xs: seq<string>, strict: bool, j: nat)
    requires patterns != []
  {
    j <= |xs| && Crossable(xs[..j], strict) && PathMatch(patterns[1..], xs[j..], strict)
  }

  lemma TakesNothing(patterns: seq<string>, xs: seq<string>, strict: bool)
    requires patterns != []
    ensures GlobstarTakes(patterns, xs, strict, 0) <==> PathMatch(patterns[1..], xs, strict)
  {
    assert xs[0..] == xs;
  }

  lemma TakesOneMore(patterns: seq<string>, xs: seq<string>, strict: bool, j: nat)
    requires patterns != [] && xs != []
    ensures GlobstarTakes(patterns, xs, strict, j + 1) <==>
            Crossable([xs[0]], strict) && GlobstarTakes(patterns, xs[1..], strict, j)
  {
    if j < |xs| {
      assert xs[..j + 1] == [xs[0]] + xs[1..][..j];
      assert xs[1..][j..] == xs[j + 1..];
      CrossableHead(xs[0], xs[1..][..j], strict);
    }
  }

  lemma CrossableHead(x: string, xs: seq<string>, strict: bool)
    ensures Crossable([x] + xs, strict) <==> Crossable([x], strict) && Crossable(xs, strict)
  {
    assert x in [x] + xs && x in [x];
    assert forall y | y in xs :: y in [x] + xs;
  }

  // ---------------------------------------------------------------------------------------------
  // What each emitted fragment matches
  // ---------------------------------------------------------------------------------------------

  predicate FragmentAccepts(fragment: Fragment, x: string) {
    match fragment
    case LeadingDirectories => x == "" || (x[|x| - 1] == '/' && NewlineFree(x))
    case AnyRun => NewlineFree(x)
    case SegmentRun => '/' !in x
    case Escaped(c) => x == [c]
  }

  lemma {:induction false} RunMatches(body: Regex, s: string)
    requires body in {NotSlash, AnyChar}
    ensures Matches(Star(body), s) <==> forall c | c in s :: Matches(body, [c])
    decreases |s|
  {
    if s != "" {
      RunMatches(body, s[1..]);
      assert s == [s[0]] + s[1..];
      assert s[..1] == [s[0]];
      if Matches(Star(body), s) {
        var k :| 0 < k <= |s| && Matches(body, s[..k]) && Matches(Star(body), s[k..]);
        assert k == 1;
      }
    }
  }

  lemma FragmentMatches(fragment: Fragment, x: string)
    ensures Matches(RegexOf(fragment), x) <==> FragmentAccepts(fragment, x)
  {
    match fragment
    case LeadingDirectories => LeadingDirectoriesMatch(x);
    case AnyRun => RunMatches(AnyChar, x);
    case SegmentRun => RunMatches(NotSlash, x);
    case Escaped(c) =>
  }

  lemma LeadingDirectoriesMatch(x: string)
    ensures Matches(RegexOf(LeadingDirectories), x) <==> FragmentAccepts(LeadingDirectories, x)
  {
    if x != "" {
      LastCharacterMatch(Star(AnyChar), '/', x);
      var n := |x| - 1;
      RunMatches(AnyChar, x[..n]);
      NewlineFreeLast(x);
    }
  }

  /** A character at the end of an expression matches the last character. */
  lemma LastCharacterMatch(l: Regex, c: char, x: string)
    requires x != ""
    ensures Matches(Cat(l, Literal(c)), x) <==> Matches(l, x[..|x| - 1]) && x[|x| - 1] == c
  {
    var n := |x| - 1;
    assert x[n..] == [x[n]];
    if Matches(Cat(l, Literal(c)), x) {
      var k :| 0 <= k <= |x| && Matches(l, x[..k]) && Matches(Literal(c), x[k..]);
      assert k == n;
    }
  }

  lemma NewlineFreeLast(x: string)
    requires x != ""
    ensures NewlineFree(x) <==> NewlineFree(x[..|x| - 1]) && x[|x| - 1] != '\n'
  {
    assert x == x[..|x| - 1] + [x[|x| - 1]];
  }

  /** Some cut of `s` gives every fragment a piece it accepts. */
  ghost predicate Accepts(fragments: seq<Fragment>, s: string)
    decreases |fragments|
  {
    if fragments == [] then s == ""
    else exists k | 0 <= k <= |s| :: FragmentAccepts(fragments[0], s[..k]) && Accepts(fragments[1..], s[k..])
  }

  ghost predicate AcceptsAt(fragments: seq<Fragment>, s: string, k: nat)
    requires fragments != []
  {
    k <= |s| && FragmentAccepts(fragments[0], s[..k]) && Accepts(fragments[1..], s[k..])
  }

  lemma AcceptsCut(fragments: seq<Fragment>, s: string) returns (k: nat)
    requires fragments != [] && Accepts(fragments, s)
    ensures AcceptsAt(fragments, s, k)
  {
    k :| 0 <= k <= |s| && FragmentAccepts(fragments[0], s[..k]) && Accepts(fragments[1..], s[k..]);
  }

  /** Cutting off what the first of several fragments takes. */
  lemma CutFirst(f: Fragment, rest: seq<Fragment>, s: string) returns (k: nat)
    requires Accepts([f] + rest, s)
    ensures k <= |s| && FragmentAccepts(f, s[..k]) && Accepts(rest, s[k..])
  {
    assert ([f] + rest)[1..] == rest;
    k := AcceptsCut([f] + rest, s);
  }

  lemma PutFirst(f: Fragment, rest: seq<Fragment>, s: string, k: nat)
    requires k <= |s| && FragmentAccepts(f, s[..k]) && Accepts(rest, s[k..])
    ensures Accepts([f] + rest, s)
  {
    assert ([f] + rest)[1..] == rest;
    assert AcceptsAt([f] + rest, s, k);
  }

  lemma {:induction false} SequenceMatches(fragments: seq<Fragment>, s: string)
    ensures Matches(Sequence(fragments), s) <==> Accepts(fragments, s)
    decreases |fragments|
  {
    if fragments != [] {
      forall k | 0 <= k <= |s|
        ensures Matches(RegexOf(fragments[0]), s[..k]) <==> FragmentAccepts(fragments[0], s[..k])
        ensures Matches(Sequence(fragments[1..]), s[k..]) <==> Accepts(fragments[1..], s[k..])
      {
        FragmentMatches(fragments[0], s[..k]);
        SequenceMatches(fragments[1..], s[k..]);
      }
      if Accepts(fragments, s) {
        var k := AcceptsCut(fragments, s);
        assert Matches(RegexOf(fragments[0]), s[..k]) && Matches(Sequence(fragments[1..]), s[k..]);
        assert Matches(Cat(RegexOf(fragments[0]), Sequence(fragments[1..])), s);
      }
      if Matches(Sequence(fragments), s) {
        var k :| 0 <= k <= |s| && Matches(RegexOf(fragments[0]), s[..k]) && Matches(Sequence(fragments[1..]), s[k..]);
        assert AcceptsAt(fragments, s, k);
      }
    }
  }

  lemma ExpressionMatches(pattern: string, s: string)
    ensures Matches(Expression(pattern), s) <==>
            Accepts((if '/' in pattern then [] else [LeadingDirectories]) + Fragments(pattern), s)
  {
    var fragments := Fragments(pattern);
    if '/' in pattern {
      assert [] + fragments == fragments;
      SequenceMatches(fragments, s);
    } else {
      assert ([LeadingDirectories] + fragments)[1..] == fragments;
      SequenceMatches([LeadingDirectories] + fragments, s);
    }
  }

  // ---------------------------------------------------------------------------------------------
  // Segments of the pattern
  // ---------------------------------------------------------------------------------------------

  lemma EscapedThen(c: char, rest: seq<Fragment>, s: string)
    ensures Accepts([Escaped(c)] + rest, s) <==> s != "" && s[0] == c && Accepts(rest, s[1..])
  {
    if Accepts([Escaped(c)] + rest, s) {
      var k := CutFirst(Escaped(c), rest, s);
      assert k == 1 && s[0] == s[..k][0];
    }
    if s != "" && s[0] == c && Accepts(rest, s[1..]) {
      assert s[..1] == [s[0]];
      PutFirst(Escaped(c), rest, s, 1);
    }
  }

  /** A pattern segment takes a run of characters inside one path segment. */
  ghost predicate SegmentThen(segment: string, rest: seq<Fragment>, s: string, k: nat) {
    k <= |s| && '/' !in s[..k] && SegmentMatch(segment, s[..k]) && Accepts(rest, s[k..])
  }

  lemma {:induction false} SegmentFragments(segment: string, rest: seq<Fragment>, s: string)
    requires '/' !in segment && !Contains(segment, "**")
    ensures Accepts(Fragments(segment) + rest, s) <==> exists k: nat :: SegmentThen(segment, rest, s, k)
    decreases |segment|
  {
    if segment == "" {
      assert Fragments(segment) + rest == rest;
      assert s[0..] == s && s[..0] == "";
      assert Accepts(rest, s) ==> SegmentThen(segment, rest, s, 0);
      forall k: nat | SegmentThen(segment, rest, s, k) ensures Accepts(rest, s) {
        assert k == 0;
      }
    } else {
      TailHasNoGlobstar(segment);
      HeadAndTail(segment, rest);
      if Accepts(Fragments(segment) + rest, s) {
        var i := CutFirst(HeadFragment(segment), Fragments(segment[1..]) + rest, s);
        SegmentFragments(segment[1..], rest, s[i..]);
        var j: nat :| SegmentThen(segment[1..], rest, s[i..], j);
        JoinHead(segment, rest, s, i, j);
      }
      if k: nat :| SegmentThen(segment, rest, s, k) {
        var i := SplitHead(segment, rest, s, k);
        SegmentFragments(segment[1..], rest, s[i..]);
        PutFirst(HeadFragment(segment), Fragments(segment[1..]) + rest, s, i);
      }
    }
  }

  function HeadFragment(segment: string): Fragment
    requires segment != ""
  {
    if segment[0] == '*' then SegmentRun else Escaped(segment[0])
  }

  lemma HeadAndTail(segment: string, rest: seq<Fragment>)
    requires segment != "" && !GlobstarAt(segment, 0)
    ensures Fragments(segment) + rest == [HeadFragment(segment)] + (Fragments(segment[1..]) + rest)
  {
  }

  lemma JoinHead(segment: string, rest: seq<Fragment>, s: string, i: nat, j: nat)
    requires segment != "" && '/' !in segment && i <= |s|
    requires FragmentAccepts(HeadFragment(segment), s[..i]) && SegmentThen(segment[1..], rest, s[i..], j)
    ensures SegmentThen(segment, rest, s, i + j)
  {
    Recut(s, i, i + j);
    assert segment[0] in segment;
    HeadTakes(segment, s[..i + j], i);
    SlashFreeCut(s, i, i + j);
  }

  lemma SplitHead(segment: string, rest: seq<Fragment>, s: string, k: nat) returns (i: nat)
    requires segment != "" && SegmentThen(segment, rest, s, k)
    ensures i <= |s| && FragmentAccepts(HeadFragment(segment), s[..i])
    ensures exists j: nat :: SegmentThen(segment[1..], rest, s[i..], j)
  {
    i := HeadLength(segment, s[..k]);
    Recut(s, i, k);
    SlashFreeCut(s, i, k);
    assert SegmentThen(segment[1..], rest, s[i..], k - i);
  }

  lemma HeadTakes(segment: string, x: string, i: nat)
    requires segment != "" && i <= |x| && SegmentMatch(segment[1..], x[i..])
    requires segment[0] == '*' || x[..i] == [segment[0]]
    ensures SegmentMatch(segment, x)
  {
    if segment[0] != '*' {
      assert x[0] == x[..i][0];
    }
  }

  lemma SlashFreeCut(s: string, i: nat, k: nat)
    requires i <= k <= |s|
    ensures '/' !in s[..k] <==> '/' !in s[..i] && '/' !in s[i..][..k - i]
  {
    assert s[..k] == s[..i] + s[i..][..k - i];
  }

  /** How much of `x` the first pattern character takes. */
  lemma HeadLength(segment: string, x: string) returns (i: nat)
    requires segment != "" && SegmentMatch(segment, x)
    ensures i <= |x| && SegmentMatch(segment[1..], x[i..])
    ensures segment[0] != '*' ==> i == 1 && x[..1] == [segment[0]]
  {
    if segment[0] == '*' {
      i :| 0 <= i <= |x| && SegmentMatch(segment[1..], x[i..]);
    } else {
      i := 1;
    }
  }

  lemma Recut(s: string, i: nat, k: nat)
    requires i <= k <= |s|
    ensures s[..k][..i] == s[..i] && s[..k][i..] == s[i..][..k - i] && s[i..][k - i..] == s[k..]
    ensures s[..k] == s[..i] + s[i..][..k - i]
  {
  }

  lemma TailHasNoGlobstar(segment: string)
    requires segment != "" && !Contains(segment, "**")
    ensures !Contains(segment[1..], "**")
    ensures !GlobstarAt(segment, 0)
  {
    assert !OccursAt(segment, "**", 0);
    forall i: nat | OccursAt(segment[1..], "**", i) ensures OccursAt(segment, "**", i + 1) {
    }
  }

  /** Translation never looks back, so a segment and what follows its slash translate separately. */
  lemma {:induction false} FragmentsOfSegment(segment: string, rest: string)
    requires '/' !in segment && !Contains(segment, "**")
    ensures Fragments(segment + "/" + rest) == Fragments(segment) + ([Escaped('/')] + Fragments(rest))
    decreases |segment|
  {
    var p := segment + "/" + rest;
    if segment == "" {
      assert p[0] == '/' && p[1..] == rest;
    } else {
      TailHasNoGlobstar(segment);
      FragmentsOfSegment(segment[1..], rest);
      assert p[1..] == segment[1..] + "/" + rest;
      assert p[0] == segment[0];
      assert p[1] == (if |segment| == 1 then '/' else segment[1]);
      FirstFragment(p);
      FirstFragment(segment);
      Regroup([HeadFragment(segment)], Fragments(segment[1..]), [Escaped('/')] + Fragments(rest));
    }
  }

  lemma FirstFragment(segment: string)
    requires segment != "" && !GlobstarAt(segment, 0)
    ensures Fragments(segment) == [HeadFragment(segment)] + Fragments(segment[1..])
  {
  }

  // ---------------------------------------------------------------------------------------------
  // Compilation preserves meaning
  // ---------------------------------------------------------------------------------------------

  /** A literal slash in the expression can only match the first slash of what is left. */
  lemma SegmentThenSlash(segment: string, rest: seq<Fragment>, s: string)
    requires '/' !in segment && !Contains(segment, "**")
    ensures var i := FirstSlash(s);
            Accepts(Fragments(segment) + ([Escaped('/')] + rest), s) <==>
            i < |s| && SegmentMatch(segment, s[..i]) && Accepts(rest, s[i + 1..])
  {
    var i := FirstSlash(s);
    SegmentFragments(segment, [Escaped('/')] + rest, s);
    forall k: nat
      ensures SegmentThen(segment, [Escaped('/')] + rest, s, k) <==>
              k == i < |s| && SegmentMatch(segment, s[..i]) && Accepts(rest, s[i + 1..])
    {
      CutAtFirstSlash(segment, rest, s, k);
    }
    if Accepts(Fragments(segment) + ([Escaped('/')] + rest), s) {
      var k: nat :| SegmentThen(segment, [Escaped('/')] + rest, s, k);
    } else {
      assert !SegmentThen(segment, [Escaped('/')] + rest, s, i);
    }
  }

  lemma CutAtFirstSlash(segment: string, rest: seq<Fragment>, s: string, k: nat)
    ensures SegmentThen(segment, [Escaped('/')] + rest, s, k) <==>
            k == FirstSlash(s) < |s| && SegmentMatch(segment, s[..k]) && Accepts(rest, s[k + 1..])
  {
    if k < |s| {
      EscapedThen('/', rest, s[k..]);
      DropOne(s, k);
      if s[k] == '/' && '/' !in s[..k] { FirstSlashUnique(s, k); }
    } else if k == |s| {
      EscapedThen('/', rest, s[k..]);
    }
  }

  lemma DropOne(s: string, k: nat)
    requires k < |s|
    ensures s[k..] != "" && s[k..][0] == s[k] && s[k..][1..] == s[k + 1..]
  {
  }

  lemma SkipForward(rest: seq<Fragment>, s: string, i: nat)
    requires i == FirstSlash(s) && Accepts([LeadingDirectories] + rest, s) && !Accepts(rest, s)
    ensures i < |s| && NewlineFree(s[..i]) && Accepts([LeadingDirectories] + rest, s[i + 1..])
  {
    SkipFirstSegment(rest, s, i);
  }

  /** Skipping leading directories means matching here, or skipping the first segment. */
  lemma SkipDirectories(rest: seq<Fragment>, s: string)
    ensures var i := FirstSlash(s);
            Accepts([LeadingDirectories] + rest, s) <==>
            || Accepts(rest, s)
            || (i < |s| && NewlineFree(s[..i]) && Accepts([LeadingDirectories] + rest, s[i + 1..]))
  {
    var i := FirstSlash(s);
    if Accepts(rest, s) {
      SkipNothing(rest, s);
    } else if Accepts([LeadingDirectories] + rest, s) {
      SkipForward(rest, s, i);
    } else if i < |s| && NewlineFree(s[..i]) {
      if Accepts([LeadingDirectories] + rest, s[i + 1..]) {
        SkipOneMoreSegment(rest, s, i);
      }
    }
  }

  lemma SkipNothing(rest: seq<Fragment>, s: string)
    requires Accepts(rest, s)
    ensures Accepts([LeadingDirectories] + rest, s)
  {
    assert s[..0] == "" && s[0..] == s;
    PutFirst(LeadingDirectories, rest, s, 0);
  }

  /** `i` is where the first segment ends. */
  predicate SegmentEnd(s: string, i: nat) {
    i <= |s| && (i < |s| ==> s[i] == '/') && forall j | 0 <= j < i :: s[j] != '/'
  }

  lemma SkipFirstSegment(rest: seq<Fragment>, s: string, i: nat)
    requires SegmentEnd(s, i)
    requires Accepts([LeadingDirectories] + rest, s) && !Accepts(rest, s)
    ensures i < |s| && NewlineFree(s[..i]) && Accepts([LeadingDirectories] + rest, s[i + 1..])
  {
    var k := CutFirst(LeadingDirectories, rest, s);
    assert s[0..] == s;
    SkippedPrefix(s, i, k);
    PutFirst(LeadingDirectories, rest, s[i + 1..], k - i - 1);
  }

  lemma SkippedPrefix(s: string, i: nat, k: nat)
    requires SegmentEnd(s, i) && 0 < k <= |s| && FragmentAccepts(LeadingDirectories, s[..k])
    ensures i < k && NewlineFree(s[..i]) && FragmentAccepts(LeadingDirectories, s[i + 1..][..k - i - 1])
    ensures s[i + 1..][k - i - 1..] == s[k..]
  {
    assert s[..k][k - 1] == s[k - 1];
    TailCut(s, i, k);
  }

  lemma SkipOneMoreSegment(rest: seq<Fragment>, s: string, i: nat)
    requires i < |s| && s[i] == '/' && NewlineFree(s[..i]) && Accepts([LeadingDirectories] + rest, s[i + 1..])
    ensures Accepts([LeadingDirectories] + rest, s)
  {
    var j := CutFirst(LeadingDirectories, rest, s[i + 1..]);
    var k := i + 1 + j;
    TailCut(s, i, k);
    assert s[..k][k - 1] == s[k - 1];
    PutFirst(LeadingDirectories, rest, s, k);
  }

  lemma TailCut(s: string, i: nat, k: nat)
    requires i < k <= |s| && s[i] == '/'
    ensures s[..k] == s[..i] + "/" + s[i + 1..][..k - i - 1]
    ensures s[i + 1..][k - i - 1..] == s[k..]
    ensures NewlineFree(s[..k]) <==> NewlineFree(s[..i]) && NewlineFree(s[i + 1..][..k - i - 1])
    ensures k > i + 1 ==> s[i + 1..][..k - i - 1][k - i - 2] == s[k - 1]
  {
    assert s[..k] == s[..i] + "/" + s[i + 1..][..k - i - 1];
  }

  lemma {:induction false} NewlineFreeSegments(s: string)
    ensures NewlineFree(s) <==> Crossable(Segments(s), true)
    decreases |s|
  {
    var i := FirstSlash(s);
    if i < |s| {
      NewlineFreeSegments(s[i + 1..]);
      NewlineFreeCut(s, i);
      SegmentsCons(s);
      CrossableCons(s[..i], Segments(s[i + 1..]));
    } else {
      FirstSlashMeaning(s);
      SegmentsOne(s);
      CrossableCons(s, []);
      assert [s] + [] == [s];
    }
  }

  lemma NewlineFreeCut(s: string, i: nat)
    requires i < |s| && s[i] == '/'
    ensures NewlineFree(s) <==> NewlineFree(s[..i]) && NewlineFree(s[i + 1..])
  {
    CutAtSlash(s, i);
  }

  lemma CrossableCons(x: string, xs: seq<string>)
    ensures Crossable([x] + xs, true) <==> NewlineFree(x) && Crossable(xs, true)
  {
    assert x in [x] + xs;
    assert forall y | y in xs :: y in [x] + xs;
  }

  /** The expression of `pattern` and the segment-wise matcher agree on `s`. */
  ghost predicate Agree(pattern: string, s: string) {
    Accepts(Fragments(pattern), s) <==> PathMatch(Segments(pattern), Segments(s), true)
  }

  /** The tail of a normalized path behind its first slash. */
  lemma NormalTail(s: string)
    requires NormalPath(s) && FirstSlash(s) < |s|
    ensures NormalPath(s[FirstSlash(s) + 1..]) && Segments(s)[1..] == Segments(s[FirstSlash(s) + 1..])
    ensures Segments(s)[0] == s[..FirstSlash(s)]
  {
    var rest := Segments(s[FirstSlash(s) + 1..]);
    SegmentsCons(s);
    assert forall x | x in rest :: x in Segments(s);
  }

  /** They agree on `s` and on what is left of it behind each slash. */
  ghost predicate AgreeOnTails(pattern: string, s: string)
    decreases |s|
  {
    Agree(pattern, s) && (FirstSlash(s) < |s| ==> AgreeOnTails(pattern, s[FirstSlash(s) + 1..]))
  }

  /** A globstar segment in front skips whole segments and then matches the rest. */
  lemma {:induction false} DirectoriesThen(rest: string, s: string)
    requires NormalPath(s) && AgreeOnTails(rest, s)
    ensures Accepts([LeadingDirectories] + Fragments(rest), s) <==>
            PathMatch(["**"] + Segments(rest), Segments(s), true)
    decreases |s|
  {
    SkipDirectories(Fragments(rest), s);
    if FirstSlash(s) < |s| {
      NormalTail(s);
      DirectoriesThen(rest, s[FirstSlash(s) + 1..]);
    }
    GlobstarFirst(Segments(rest), s);
  }

  /** A globstar in front of other patterns skips nothing, or the first segment. */
  lemma GlobstarFirst(patterns: seq<string>, s: string)
    requires patterns != []
    ensures var i := FirstSlash(s);
            PathMatch(["**"] + patterns, Segments(s), true) <==>
            || PathMatch(patterns, Segments(s), true)
            || (i < |s| && NewlineFree(s[..i]) && PathMatch(["**"] + patterns, Segments(s[i + 1..]), true))
  {
    var all := ["**"] + patterns;
    assert all[1..] == patterns;
    if FirstSlash(s) < |s| {
      SegmentsCons(s);
      CrossableCons(s[..FirstSlash(s)], []);
      assert [s[..FirstSlash(s)]] + [] == [s[..FirstSlash(s)]];
    } else {
      SegmentsOne(s);
      NothingLeft(all);
    }
  }

  lemma {:induction false} NothingLeft(patterns: seq<string>)
    requires patterns != []
    ensures !PathMatch(patterns, [], true)
    decreases |patterns|
  {
    if |patterns| > 1 {
      NothingLeft(patterns[1..]);
    }
  }

  lemma CanonicalTail(pattern: string)
    requires Canonical(pattern) && FirstSlash(pattern) < |pattern|
    ensures var p := FirstSlash(pattern);
            && Canonical(pattern[p + 1..])
            && Segments(pattern) == [pattern[..p]] + Segments(pattern[p + 1..])
            && pattern == pattern[..p] + "/" + pattern[p + 1..]
            && CanonicalSegment(pattern[..p])
  {
    SegmentsCons(pattern);
    AllCanonicalTail(pattern[..FirstSlash(pattern)], Segments(pattern[FirstSlash(pattern) + 1..]));
  }

  lemma AllCanonicalTail(part: string, parts: seq<string>)
    requires AllCanonical([part] + parts)
    ensures CanonicalSegment(part) && AllCanonical(parts)
  {
    assert ([part] + parts)[0] == part;
    assert forall x | x in parts :: x in [part] + parts;
  }

  /** From a segment boundary on, the expression and the segment-wise matcher agree. */
  lemma {:induction false} FragmentsMeanPathMatch(pattern: string, s: string)
    requires Canonical(pattern) && NormalPath(s)
    ensures Agree(pattern, s)
    decreases |pattern|, 1
  {
    var p := FirstSlash(pattern);
    if p == |pattern| {
      LastSegment(pattern, s);
    } else {
      var segment, rest := pattern[..p], pattern[p + 1..];
      CanonicalTail(pattern);
      if segment == "**" {
        assert pattern[0] == segment[0] && pattern[1] == segment[1];
        FragmentsAtGlobstar(pattern, 0);
        assert pattern[0..] == pattern && pattern[3..] == rest;
        TailsMeanPathMatch(rest, s);
        DirectoriesThen(rest, s);
      } else {
        FragmentsOfSegment(segment, rest);
        SegmentThenSlash(segment, Fragments(rest), s);
        OneSegment(segment, rest, s);
      }
    }
  }

  lemma {:induction false} TailsMeanPathMatch(pattern: string, s: string)
    requires Canonical(pattern) && NormalPath(s)
    ensures AgreeOnTails(pattern, s)
    decreases |pattern|, 2, |s|
  {
    FragmentsMeanPathMatch(pattern, s);
    if FirstSlash(s) < |s| {
      NormalTail(s);
      TailsMeanPathMatch(pattern, s[FirstSlash(s) + 1..]);
    }
  }

  lemma OneSegment(segment: string, rest: string, s: string)
    requires segment != "**" && NormalPath(s)
    requires Canonical(rest)
    ensures var i := FirstSlash(s);
            PathMatch([segment] + Segments(rest), Segments(s), true) <==>
            i < |s| && SegmentMatch(segment, s[..i]) && Accepts(Fragments(rest), s[i + 1..])
    decreases |rest| + 1, 0
  {
    if FirstSlash(s) < |s| {
      NormalTail(s);
      FragmentsMeanPathMatch(rest, s[FirstSlash(s) + 1..]);
    }
    SegmentFirst(segment, Segments(rest), s);
  }

  /** A segment pattern in front of other patterns takes the first segment. */
  lemma SegmentFirst(segment: string, patterns: seq<string>, s: string)
    requires segment != "**" && patterns != []
    ensures var i := FirstSlash(s);
            PathMatch([segment] + patterns, Segments(s), true) <==>
            i < |s| && SegmentMatch(segment, s[..i]) && PathMatch(patterns, Segments(s[i + 1..]), true)
  {
    assert ([segment] + patterns)[1..] == patterns;
    if FirstSlash(s) < |s| {
      SegmentsCons(s);
    } else {
      FirstSlashMeaning(s);
      SegmentsOne(s);
      NothingLeft(patterns);
    }
  }

  lemma LastSegment(segment: string, s: string)
    requires Canonical(segment) && '/' !in segment
    ensures Agree(segment, s)
  {
    SegmentsOne(segment);
    assert segment in Segments(segment);
    if segment == "**" {
      FragmentsAtGlobstar("**", 0);
      assert "**"[0..] == "**";
      assert [AnyRun][1..] == [];
      assert s[..|s|] == s && s[|s|..] == "";
      assert NewlineFree(s) ==> AcceptsAt([AnyRun], s, |s|);
      NewlineFreeSegments(s);
    } else {
      SegmentFragments(segment, [], s);
      assert Fragments(segment) + [] == Fragments(segment);
      assert s[..|s|] == s && s[|s|..] == "";
      assert '/' !in s && SegmentMatch(segment, s) ==> SegmentThen(segment, [], s, |s|);
      forall k: nat | SegmentThen(segment, [], s, k) ensures k == |s| {
      }
      assert [segment][1..] == [];
      assert FirstSlash(s) < |s| ==> Segments(s)[1..] != [];
    }
  }

  /** A leading `**` before one segment pattern is the any-depth test of the last segment. */
  lemma {:induction false} AnyDepth(segment: string, xs: seq<string>)
    requires segment != "**" && xs != []
    ensures PathMatch(["**", segment], xs, true) <==>
            Crossable(xs[..|xs| - 1], true) && SegmentMatch(segment, xs[|xs| - 1])
    decreases |xs|
  {
    assert ["**", segment][1..] == [segment];
    assert [segment][1..] == [];
    assert [segment] != ["**"] by { assert [segment][0] == segment; }
    if |xs| == 1 {
      assert xs[1..] == [];
      assert PathMatch([], xs[1..], true);
      NothingLeft(["**", segment]);
    } else {
      AnyDepth(segment, xs[1..]);
      CrossableCons(xs[0], xs[1..][..|xs| - 2]);
      CrossableCons(xs[0], []);
      assert [xs[0]] + [] == [xs[0]];
      assert xs[..|xs| - 1] == [xs[0]] + xs[1..][..|xs| - 2];
      assert !PathMatch([], xs[1..], true);
    }
  }

  lemma {:induction false} AnyDepthGlobstar(xs: seq<string>)
    requires xs != []
    ensures PathMatch(["**", "**"], xs, true) <==> Crossable(xs, true)
    decreases |xs|
  {
    assert ["**", "**"][1..] == ["**"];
    if |xs| == 1 {
      assert xs[1..] == [];
      NothingLeft(["**", "**"]);
    } else {
      AnyDepthGlobstar(xs[1..]);
      CrossableCons(xs[0], xs[1..]);
      CrossableCons(xs[0], []);
      assert xs == [xs[0]] + xs[1..];
    }
  }

  /** The compiled expression fully matches a normalized path exactly when the segment-wise
      matcher accepts it. */
  lemma CompilationPreservesMeaning(pattern: string, path: string)
    requires Canonical(pattern) && NormalPath(path)
    ensures Matches(Expression(pattern), path) <==> Glob(pattern, path)
  {
    ExpressionMatches(pattern, path);
    FragmentsMeanPathMatch(pattern, path);
    if '/' in pattern {
      assert [] + Fragments(pattern) == Fragments(pattern);
    } else {
      SegmentsOne(pattern);
      TailsMeanPathMatch(pattern, path);
      DirectoriesThen(pattern, path);
      assert ["**"] + [pattern] == ["**", pattern];
      if pattern == "**" {
        AnyDepthGlobstar(Segments(path));
      } else {
        AnyDepth(pattern, Segments(path));
      }
    }
  }

  /** The expression and the glob accept the same normalized paths. */
  ghost predicate MeansGlob(r: Regex, pattern: string) {
    forall path | NormalPath(path) :: Matches(r, path) <==> Glob(pattern, path)
  }

  lemma CompilationPreservesMeaningEverywhere(pattern: string)
    requires Canonical(pattern)
    ensures MeansGlob(Expression(pattern), pattern)
  {
    forall path | NormalPath(path) ensures Matches(Expression(pattern), path) <==> Glob(pattern, path) {
      CompilationPreservesMeaning(pattern, path);
    }
  }

  // ---------------------------------------------------------------------------------------------
  // Newlines
  // ---------------------------------------------------------------------------------------------

  lemma {:induction false} NewlineFreePathMatch(patterns: seq<string>, xs: seq<string>)
    requires Crossable(xs, true)
    ensures PathMatch(patterns, xs, true) <==> PathMatch(patterns, xs, false)
    decreases |patterns|, |xs|
  {
    if patterns != [] && patterns != ["**"] {
      NewlineFreePathMatch(patterns[1..], xs);
      if xs != [] {
        NewlineFreePathMatch(patterns[1..], xs[1..]);
        NewlineFreePathMatch(patterns, xs[1..]);
      }
    }
  }

  /** The documented glob meaning is implemented on a path exactly when the path has no newline. */
  lemma DocumentedMeaningExactlyWithoutNewlines(path: string)
    requires NormalPath(path)
    ensures NewlineFree(path) <==>
            forall pattern | Canonical(pattern) :: Matches(Expression(pattern), path) <==> PlainGlob(pattern, path)
  {
    NewlineFreeSegments(path);
    if NewlineFree(path) {
      forall pattern | Canonical(pattern) ensures Matches(Expression(pattern), path) <==> PlainGlob(pattern, path) {
        CompilationPreservesMeaning(pattern, path);
        NewlineFreePathMatch(Segments(pattern), Segments(path));
      }
    } else {
      SegmentsOne("**");
      assert Canonical("**");
      CompilationPreservesMeaning("**", path);
      assert PlainGlob("**", path);
    }
  }

  /** The documented meaning lets `**` match a path with a newline, the expression does not. */
  lemma NewlineEscapesGlobstar()
    ensures Canonical("**") && NormalPath("a\nb")
    ensures PlainGlob("**", "a\nb") && !Matches(Expression("**"), "a\nb")
  {
    var path := "a\nb";
    SegmentsOne(path);
    SegmentsOne("**");
    assert path[1] == '\n' && path in Segments(path);
    CompilationPreservesMeaning("**", path);
  }
}
