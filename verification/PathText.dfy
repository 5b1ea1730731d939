/**
 * Repository paths as sequences of `/`-separated segments, how segments are joined and cut
 * apart, and the normal form in which paths reach the patterns: no segment of theirs is
 * empty.
 */
module PathText {

  predicate OccursAt(s: string, part: string, i: nat) {
    i + |part| <= |s| && s[i..i + |part|] == part
  }

  predicate Contains(s: string, part: string) {
    exists i | 0 <= i <= |s| :: OccursAt(s, part, i)
  }

  lemma OccursIndexwise(s: string, part: string, j: nat)
    ensures OccursAt(s, part, j) <==> j + |part| <= |s| && forall d | 0 <= d < |part| :: s[j + d] == part[d]
  {
    if j + |part| <= |s| {
      var w := s[j..j + |part|];
      assert forall d | 0 <= d < |part| :: w[d] == s[j + d];
      assert w == part <==> forall d | 0 <= d < |part| :: w[d] == part[d];
    }
  }

  function FirstSlash(s: string): (i: nat)
    ensures i <= |s|
    ensures i < |s| ==> s[i] == '/'
    ensures forall j | 0 <= j < i :: s[j] != '/'
  {
    if s == "" || s[0] == '/' then 0 else 1 + FirstSlash(s[1..])
  }

  lemma FirstSlashMeaning(s: string)
    ensures '/' !in s[..FirstSlash(s)]
    ensures FirstSlash(s) < |s| <==> '/' in s
  {
  }

  function Segments(s: string): (r: seq<string>)
    ensures r != []
    decreases |s|
  {
    var i := FirstSlash(s);
    if i == |s| then [s] else [s[..i]] + Segments(s[i + 1..])
  }

  function Joined(segments: seq<string>): string
    requires segments != []
  {
    if |segments| == 1 then segments[0] else segments[0] + "/" + Joined(segments[1..])
  }

  lemma {:induction false} JoinedSegments(s: string)
    ensures Joined(Segments(s)) == s
    ensures forall x | x in Segments(s) :: '/' !in x
    decreases |s|
  {
    var i := FirstSlash(s);
    if i < |s| {
      var rest := Segments(s[i + 1..]);
      JoinedSegments(s[i + 1..]);
      assert Segments(s) == [s[..i]] + rest;
      JoinedCons(s[..i], rest);
      CutAtSlash(s, i);
    } else {
      assert s[..i] == s;
    }
  }

  /** What lexical normalization keeps of the segments: empty ones and `.` disappear. */
  function Kept(segments: seq<string>): seq<string> {
    if segments == [] then []
    else (if segments[0] == "" || segments[0] == "." then [] else [segments[0]]) + Kept(segments[1..])
  }

  lemma {:induction false} KeptParts(segments: seq<string>)
    ensures forall part | part in Kept(segments) :: part in segments && part != "" && part != "."
  {
    if segments != [] {
      KeptParts(segments[1..]);
    }
  }

  /** `PurePosixPath(s).parts` of a relative path. */
  function PosixParts(s: string): seq<string> {
    Kept(Segments(s))
  }

  /** The segments of a text with a slash. */
  lemma SegmentsCons(s: string)
    requires FirstSlash(s) < |s|
    ensures var i := FirstSlash(s); var rest := Segments(s[i + 1..]);
            && Segments(s) == [s[..i]] + rest && Segments(s)[0] == s[..i] && Segments(s)[1..] == rest
            && s == s[..i] + "/" + s[i + 1..]
  {
    CutAtSlash(s, FirstSlash(s));
  }

  lemma SegmentsOne(s: string)
    requires '/' !in s
    ensures Segments(s) == [s] && Segments(s)[1..] == []
  {
  }

  lemma JoinedCons(x: string, rest: seq<string>)
    requires rest != []
    ensures Joined([x] + rest) == x + "/" + Joined(rest)
  {
    assert ([x] + rest)[1..] == rest;
  }

  lemma CutAtSlash(s: string, i: nat)
    requires i < |s| && s[i] == '/'
    ensures s == s[..i] + "/" + s[i + 1..]
  {
  }

  /** A normalized repository-relative path has no empty segment. */
  predicate NormalPath(s: string) {
    "" !in Segments(s)
  }

  predicate NewlineFree(s: string) {
    '\n' !in s
  }

  lemma FirstSlashUnique(s: string, i: nat)
    requires i < |s| && s[i] == '/' && '/' !in s[..i]
    ensures FirstSlash(s) == i
  {
    assert forall j | 0 <= j < i :: s[j] == s[..i][j];
  }

  lemma {:induction false} SegmentsOfJoined(parts: seq<string>)
    requires parts != [] && forall i :: 0 <= i < |parts| ==> '/' !in parts[i]
    ensures Segments(Joined(parts)) == parts
  {
    if |parts| == 1 {
      SegmentsOne(parts[0]);
    } else {
      SegmentsOfJoined(parts[1..]);
      var text := Joined(parts);
      assert text[..|parts[0]|] == parts[0];
      FirstSlashUnique(text, |parts[0]|);
      SegmentsCons(text);
      assert text[|parts[0]| + 1..] == Joined(parts[1..]);
    }
  }

  lemma {:induction false} SegmentsKeepCharacters(s: string, c: char)
    requires c !in s
    ensures forall x | x in Segments(s) :: c !in x
    decreases |s|
  {
    var i := FirstSlash(s);
    if i < |s| {
      SegmentsKeepCharacters(s[i + 1..], c);
    }
  }
}
