/** Which path patterns configuration validation lets through, one expansion at a time. */
module PatternValidation {
  import opened PathText
  import opened GlobPattern
  import opened BraceExpansion
  import opened BraceTree
  import opened BraceWorklist

  // ---------------------------------------------------------------------------------------------
  // Lexical path normalization
  // ---------------------------------------------------------------------------------------------

  predicate IsAbsolute(s: string) {
    s != "" && s[0] == '/'
  }

  /** `PurePosixPath(s).as_posix()` of a relative path. */
  function AsPosix(s: string): string {
    if PosixParts(s) == [] then "." else Joined(PosixParts(s))
  }

  predicate Malformed(candidate: string) {
    || IsAbsolute(candidate)
    || (candidate != "" && candidate[|candidate| - 1] == '/')
    || Contains(candidate, "//")
    || '?' in candidate || '[' in candidate || ']' in candidate
    || (exists part | part in Segments(candidate) :: Contains(part, "**") && part != "**")
    || Contains(candidate, "**/**")
  }

  /** One expansion passes validation. */
  predicate Accepted(candidate: string) {
    && !IsAbsolute(candidate)
    && '\\' !in candidate
    && candidate == AsPosix(candidate)
    && !Malformed(candidate)
    && "." !in PosixParts(candidate) && ".." !in PosixParts(candidate)
  }

  predicate LegalSegment(segment: string) {
    CanonicalSegment(segment) && segment != "." && segment != ".."
  }

  predicate NoAdjacentGlobstars(segments: seq<string>) {
    forall i | 0 <= i < |segments| - 1 :: segments[i] == "**" ==> segments[i + 1] != "**"
  }

  predicate PlainCharacters(candidate: string) {
    '\\' !in candidate && '?' !in candidate && '[' !in candidate && ']' !in candidate
  }

  // ---------------------------------------------------------------------------------------------
  // Validation, segment by segment
  // ---------------------------------------------------------------------------------------------

  lemma KeptStep(head: string, tail: seq<string>)
    ensures Kept([head] + tail) == if head == "" || head == "." then Kept(tail) else [head] + Kept(tail)
  {
    assert ([head] + tail)[1..] == tail;
  }

  lemma {:induction false} KeptIsShorter(segments: seq<string>)
    requires segments != []
    ensures |Kept(segments)| <= |segments|
    ensures Kept(segments) == segments <==> "" !in segments && "." !in segments
    ensures Kept(segments) != [] && Kept(segments) != segments ==> |Joined(Kept(segments))| < |Joined(segments)|
    decreases |segments|
  {
    var head, tail := segments[0], segments[1..];
    assert segments == [head] + tail;
    KeptStep(head, tail);
    if tail != [] {
      KeptIsShorter(tail);
      if head != "" && head != "." {
        assert Kept(segments)[1..] == Kept(tail);
      }
    }
  }

  /** A path that survives lexical normalization has no empty or `.` segment, or is `.` itself. */
  lemma NormalizedMeansKept(s: string)
    ensures s == AsPosix(s) <==> s == "." || ("" !in Segments(s) && "." !in Segments(s))
  {
    KeptIsShorter(Segments(s));
    JoinedSegments(s);
    if s == "." {
      SegmentsOne(".");
    }
  }

  predicate NoSlashPair(s: string) {
    forall j | 0 <= j < |s| - 1 :: s[j] == '/' ==> s[j + 1] != '/'
  }

  lemma {:induction false} NoEmptySegment(s: string)
    requires "" !in Segments(s)
    ensures s != "" && s[0] != '/' && s[|s| - 1] != '/' && NoSlashPair(s)
    decreases |s|
  {
    var i := FirstSlash(s);
    assert Segments(s)[0] == s[..i];
    assert s[..i] != "";
    if i < |s| {
      NormalTail(s);
      NoEmptySegment(s[i + 1..]);
      forall j | 0 <= j < |s| - 1 ensures s[j] == '/' ==> s[j + 1] != '/' {
        if j > i {
          assert s[j] == s[i + 1..][j - i - 1] && s[j + 1] == s[i + 1..][j - i];
        }
      }
    }
  }

  lemma NoSlashPairMeaning(s: string)
    requires NoSlashPair(s)
    ensures !Contains(s, "//")
  {
    forall j: nat ensures !OccursAt(s, "//", j) {
      OccursIndexwise(s, "//", j);
      assert "//"[0] == '/' && "//"[1] == '/';
    }
  }

  /** The text of two neighbouring globstars starts at `j`. */
  predicate GlobstarsAt(s: string, j: nat) {
    j + 5 <= |s| && s[j] == '*' && s[j + 1] == '*' && s[j + 2] == '/' && s[j + 3] == '*' && s[j + 4] == '*'
  }

  ghost predicate NoGlobstarPair(s: string) {
    forall j: nat :: !GlobstarsAt(s, j)
  }

  lemma GlobstarsAtMeaning(s: string)
    ensures Contains(s, "**/**") <==> !NoGlobstarPair(s)
  {
    forall j: nat ensures OccursAt(s, "**/**", j) <==> GlobstarsAt(s, j) {
      OccursIndexwise(s, "**/**", j);
      assert |"**/**"| == 5 && "**/**"[0] == '*' && "**/**"[1] == '*' && "**/**"[2] == '/' && "**/**"[3] == '*' &&
             "**/**"[4] == '*';
    }
  }

  /** Two neighbouring globstar segments are exactly an occurrence of their text. */
  lemma {:induction false} AdjacentGlobstars(s: string)
    requires AllCanonical(Segments(s))
    ensures NoAdjacentGlobstars(Segments(s)) <==> NoGlobstarPair(s)
    decreases |s|
  {
    var i := FirstSlash(s);
    if i < |s| {
      CanonicalTail(s);
      FirstSegmentOf(s[i + 1..]);
      AdjacentGlobstars(s[i + 1..]);
      ConsAdjacent(s[..i], Segments(s[i + 1..]));
      GlobstarBoundary(s, i);
      GlobstarPairSplit(s, i);
    }
  }

  /** The slash inside an occurrence is the one at `i`. */
  ghost predicate BoundaryAt(s: string, i: nat) {
    i >= 2 && GlobstarsAt(s, i - 2)
  }

  lemma GlobstarPairSplit(s: string, i: nat)
    requires i < |s| && s[i] == '/' && forall j | 0 <= j < i :: s[j] != '/'
    ensures NoGlobstarPair(s) <==> !BoundaryAt(s, i) && NoGlobstarPair(s[i + 1..])
  {
    var t := s[i + 1..];
    forall j: nat ensures GlobstarsAt(t, j) <==> GlobstarsAt(s, i + 1 + j) {
    }
    forall j: nat | GlobstarsAt(s, j) ensures j == i - 2 || j > i {
    }
    forall j: nat | j > i ensures GlobstarsAt(s, j) <==> GlobstarsAt(t, j - i - 1) {
    }
  }

  lemma FirstSegmentOf(t: string)
    ensures Segments(t)[0] == t[..FirstSlash(t)]
  {
  }

  lemma ConsAdjacent(head: string, rest: seq<string>)
    requires rest != []
    ensures NoAdjacentGlobstars([head] + rest) <==>
            !(head == "**" && rest[0] == "**") && NoAdjacentGlobstars(rest)
  {
    var all := [head] + rest;
    if NoAdjacentGlobstars(all) {
      forall i | 0 <= i < |rest| - 1 ensures rest[i] == "**" ==> rest[i + 1] != "**" {
        assert all[i + 1] == rest[i] && all[i + 2] == rest[i + 1];
      }
      assert all[0] == head && all[1] == rest[0];
    }
  }

  /** Around the first slash, the text of two globstars can only be two globstar segments. */
  lemma GlobstarBoundary(s: string, i: nat)
    requires i == FirstSlash(s) < |s|
    requires CanonicalSegment(s[..i]) && CanonicalSegment(s[i + 1..][..FirstSlash(s[i + 1..])])
    ensures BoundaryAt(s, i) <==> s[..i] == "**" && s[i + 1..][..FirstSlash(s[i + 1..])] == "**"
  {
    var t := s[i + 1..];
    var e := FirstSlash(t);
    if BoundaryAt(s, i) {
      assert s[..i][i - 2] == s[i - 2] && s[..i][i - 1] == s[i - 1];
      HasGlobstar(s[..i], i - 2);
      assert t[0] == s[i + 1] && t[1] == s[i + 2];
      HasGlobstar(t[..e], 0);
    }
    if s[..i] == "**" && t[..e] == "**" {
      assert s[0] == s[..i][0] && s[1] == s[..i][1];
      assert s[i + 1] == t[..e][0] && s[i + 2] == t[..e][1];
    }
  }

  lemma HasGlobstar(part: string, j: nat)
    requires GlobstarAt(part, j)
    ensures Contains(part, "**")
  {
    assert part[j..j + 2] == "**";
    assert OccursAt(part, "**", j);
  }

  /** Validation in terms of segments: legal ones only, no two neighbouring globstars, and no
      character that other glob dialects give a meaning; the bare `.` also passes. */
  lemma AcceptedMeaning(candidate: string)
    ensures Accepted(candidate) <==>
            || candidate == "."
            || ('\\' !in candidate && '?' !in candidate && '[' !in candidate && ']' !in candidate
                && (forall segment | segment in Segments(candidate) ::
                      CanonicalSegment(segment) && segment != "." && segment != "..")
                && NoAdjacentGlobstars(Segments(candidate)))
  {
    NormalizedMeansKept(candidate);
    if candidate == "." {
      SegmentsOne(".");
      ShortContains(".");
    } else if "" !in Segments(candidate) && "." !in Segments(candidate) {
      AcceptedSegments(candidate);
    }
  }

  lemma AcceptedSegments(candidate: string)
    requires "" !in Segments(candidate) && "." !in Segments(candidate)
    ensures Accepted(candidate) <==>
            && PlainCharacters(candidate)
            && (forall segment | segment in Segments(candidate) :: LegalSegment(segment))
            && NoAdjacentGlobstars(Segments(candidate))
  {
    KeptIsShorter(Segments(candidate));
    JoinedSegments(candidate);
    NoEmptySegment(candidate);
    NoSlashPairMeaning(candidate);
    GlobstarsAtMeaning(candidate);
    if AllCanonical(Segments(candidate)) {
      AdjacentGlobstars(candidate);
    }
  }

  lemma ShortContains(s: string)
    requires |s| <= 1
    ensures forall part | |part| >= 2 :: !Contains(s, part)
  {
  }

  /** What glob compilation and specificity need of a pattern follows from validation. */
  lemma AcceptedIsCanonical(candidate: string)
    requires Accepted(candidate)
    ensures Canonical(candidate)
  {
    AcceptedMeaning(candidate);
    if candidate == "." {
      SegmentsOne(".");
      ShortContains(".");
    }
  }

  // ---------------------------------------------------------------------------------------------
  // The validator
  // ---------------------------------------------------------------------------------------------

  /** A configured pattern that validation lets through. */
  ghost predicate Validated(pattern: string) {
    && IsPattern(pattern)
    && Count(TreeOf(pattern)) <= 256
    && AllAccepted(Expand(TreeOf(pattern)))
  }

  ghost predicate AllAccepted(expanded: seq<string>) {
    forall candidate | candidate in expanded :: Accepted(candidate)
  }

  lemma AcceptedStep(expanded: seq<string>, index: nat)
    requires index < |expanded|
    ensures AllAccepted(expanded[..index + 1]) <==> AllAccepted(expanded[..index]) && Accepted(expanded[index])
    ensures AllAccepted(expanded) ==> Accepted(expanded[index])
  {
    assert expanded[..index + 1] == expanded[..index] + [expanded[index]];
  }

  method ValidatePathPattern(pattern: string) returns (accepted: bool)
    ensures accepted <==> Validated(pattern)
  {
    var expanded := ExpandPathPattern(pattern);
    if expanded.Err? {
      return false;
    }
    for index := 0 to |expanded.value|
      invariant AllAccepted(expanded.value[..index])
    {
      AcceptedStep(expanded.value, index);
      if !Accepted(expanded.value[index]) {
        return false;
      }
    }
    assert expanded.value[..|expanded.value|] == expanded.value;
    return true;
  }
}
