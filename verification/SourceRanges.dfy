/**
 * Byte ranges of syntax nodes. The parser gives lines and bytes behind their beginnings; the
 * offsets are those of the lines of the text, which may break at more characters than the
 * parser's do.
 */
module SourceRanges {
  import opened LineCounts
  import Utf8

  // ---------- Lines by places ----------

  /** A line ends before place `at`, and not between a carriage return and its newline. */
  predicate EndsAt(s: string, ends: char -> bool, at: nat) {
    && 0 < at <= |s| && ends(s[at - 1])
    && !(s[at - 1] == '\r' && at < |s| && s[at] == '\n')
  }

  /** The lines that end up to place `to`. */
  function Ended(s: string, ends: char -> bool, to: nat): nat {
    if to == 0 then 0 else Ended(s, ends, to - 1) + if EndsAt(s, ends, to) then 1 else 0
  }

  /** Line `line`, counted from one, begins at place `at`. */
  predicate Begins(s: string, ends: char -> bool, line: nat, at: nat) {
    at <= |s| && (at == 0 || EndsAt(s, ends, at)) && Ended(s, ends, at) + 1 == line
  }

  lemma {:induction false} EndedGrows(s: string, ends: char -> bool, a: nat, b: nat)
    requires a <= b
    ensures Ended(s, ends, a) <= Ended(s, ends, b)
    ensures a < b && EndsAt(s, ends, b) ==> Ended(s, ends, a) < Ended(s, ends, b)
  {
    if a < b {
      EndedGrows(s, ends, a, b - 1);
    }
  }

  lemma BeginsInOrder(s: string, ends: char -> bool, line: nat, at: nat, later: nat, laterAt: nat)
    requires Begins(s, ends, line, at) && Begins(s, ends, later, laterAt) && line <= later
    ensures at <= laterAt
  {
    if laterAt < at {
      EndedGrows(s, ends, laterAt, at);
    }
  }

  // ---------- The lines of the text ----------

  /** Where the first `n` kept lines end. */
  ghost function KeptEnd(s: string, n: nat): nat
    requires n <= |KeptLines(s)|
  {
    |Concatenated(KeptLines(s)[..n])|
  }

  lemma ConcatenatedSplit(lines: seq<string>, n: nat)
    requires n <= |lines|
    ensures Concatenated(lines) == Concatenated(lines[..n]) + Concatenated(lines[n..])
  {
    assert lines == lines[..n] + lines[n..];
    ConcatenatedConcat(lines[..n], lines[n..]);
  }

  lemma {:induction false} ConcatenatedConcat(a: seq<string>, b: seq<string>)
    ensures Concatenated(a + b) == Concatenated(a) + Concatenated(b)
  {
    if a == [] {
      assert a + b == b;
    } else {
      assert (a + b)[1..] == a[1..] + b;
      ConcatenatedConcat(a[1..], b);
    }
  }

  lemma KeptUpTo(s: string, n: nat)
    requires n <= |KeptLines(s)|
    ensures KeptEnd(s, n) <= |s| && Concatenated(KeptLines(s)[..n]) == s[..KeptEnd(s, n)]
  {
    SplitLosesNothing(s);
    ConcatenatedSplit(KeptLines(s), n);
  }

  lemma OneLineMore(lines: seq<string>, n: nat)
    requires n < |lines|
    ensures Concatenated(lines[..n + 1]) == Concatenated(lines[..n]) + lines[n]
  {
    assert lines[..n + 1] == lines[..n] + [lines[n]];
    ConcatenatedSnoc(lines[..n], lines[n]);
  }

  /** The text `line` stands in `s` from place `at` on. */
  predicate StandsAt(s: string, line: string, at: nat) {
    at + |line| <= |s| && s[at..at + |line|] == line
  }

  lemma LineStands(s: string, n: nat)
    requires n < |KeptLines(s)|
    ensures KeptEnd(s, n + 1) == KeptEnd(s, n) + |KeptLines(s)[n]| && StandsAt(s, KeptLines(s)[n], KeptEnd(s, n))
  {
    KeptUpTo(s, n);
    KeptUpTo(s, n + 1);
    OneLineMore(KeptLines(s), n);
  }

  lemma NextStands(s: string, n: nat)
    requires n + 1 < |KeptLines(s)|
    ensures KeptLines(s)[n + 1] != "" && KeptEnd(s, n + 1) < |s| && KeptLines(s)[n + 1][0] == s[KeptEnd(s, n + 1)]
  {
    KeptLinesSplit(s);
    assert IsKept(KeptLines(s)[n + 1]);
    LineStands(s, n + 1);
  }

  lemma AllKept(s: string)
    ensures KeptEnd(s, |KeptLines(s)|) == |s|
  {
    SplitLosesNothing(s);
    assert KeptLines(s)[..|KeptLines(s)|] == KeptLines(s);
  }

  // ---------- The ends in the lines of the text ----------

  /** No line ends in a stretch without boundaries. */
  lemma {:induction false} NoneEnded(s: string, ends: char -> bool, a: nat, b: nat)
    requires a <= b <= |s| && forall i :: a <= i < b ==> !ends(s[i])
    ensures Ended(s, ends, b) == Ended(s, ends, a)
  {
    if a < b {
      NoneEnded(s, ends, a, b - 1);
    }
  }

  /** One line ends in a stretch without boundaries and one break behind it that nothing continues. */
  lemma OneEnded(s: string, ends: char -> bool, a: nat, b: nat, end: nat)
    requires ends('\n') && a <= b < end <= |s| && (forall i :: a <= i < b ==> !ends(s[i])) && ends(s[b])
    requires if end == b + 1 then s[b] == '\r' && end < |s| ==> s[end] != '\n'
             else end == b + 2 && s[b] == '\r' && s[b + 1] == '\n'
    ensures EndsAt(s, ends, end) && Ended(s, ends, end) == Ended(s, ends, a) + 1
  {
    NoneEnded(s, ends, a, b);
    assert Ended(s, ends, b + 1) == Ended(s, ends, b) + if EndsAt(s, ends, b + 1) then 1 else 0;
  }

  /** A kept line is `text` characters without a boundary and one break, or nothing but them. */
  ghost predicate Cut(line: string, text: nat) {
    && text <= |line| && (forall i :: 0 <= i < text ==> !IsLineBoundary(line[i]))
    && (text < |line| ==> IsLineBoundary(line[text])
                          && if |line| == text + 1 then true
                             else |line| == text + 2 && line[text] == '\r' && line[text + 1] == '\n')
  }

  lemma KeptIsCut(s: string, n: nat)
    requires n < |KeptLines(s)|
    ensures |Lines(s)| == |KeptLines(s)| && Cut(KeptLines(s)[n], |Lines(s)[n]|)
    ensures |Lines(s)[n]| == |KeptLines(s)[n]| ==> n == |KeptLines(s)| - 1
  {
    LineMeaning(s, n);
    var line, kept := Lines(s)[n], KeptLines(s)[n];
    assert line == kept[..|line|];
    assert |line| < |kept| ==> kept[|line|..][0] == kept[|line|];
  }

  lemma Uncontinued(s: string, n: nat)
    requires n < |KeptLines(s)| && KeptEnd(s, n + 1) < |s|
    ensures var line := KeptLines(s)[n];
      line != "" && (line[|line| - 1] == '\r' ==> s[KeptEnd(s, n + 1)] != '\n')
  {
    AllKept(s);
    KeptLinesSplit(s);
    NextStands(s, n);
    assert Continues(KeptLines(s)[n], KeptLines(s)[n + 1]);
  }

  lemma CutEnded(s: string, line: string, text: nat, a: nat)
    requires StandsAt(s, line, a) && Cut(line, text) && text < |line|
    requires a + |line| < |s| && line[|line| - 1] == '\r' ==> s[a + |line|] != '\n'
    ensures EndsAt(s, IsLineBoundary, a + |line|)
    ensures Ended(s, IsLineBoundary, a + |line|) == Ended(s, IsLineBoundary, a) + 1
  {
    assert forall i :: 0 <= i < |line| ==> line[i] == s[a + i];
    assert forall i :: a <= i < a + text ==> s[i] == line[i - a];
    OneEnded(s, IsLineBoundary, a, a + text, a + |line|);
  }

  lemma UncutEnded(s: string, line: string, a: nat)
    requires StandsAt(s, line, a) && Cut(line, |line|)
    ensures Ended(s, IsLineBoundary, a + |line|) == Ended(s, IsLineBoundary, a)
  {
    assert forall i :: a <= i < a + |line| ==> s[i] == line[i - a];
    NoneEnded(s, IsLineBoundary, a, a + |line|);
  }

  /** A kept line that stands at place `at`: no newline continues its break, and only the end of the text cuts it. */
  ghost predicate KeptAt(s: string, line: string, text: nat, at: nat) {
    && StandsAt(s, line, at) && Cut(line, text) && (text == |line| ==> at + |line| == |s|)
    && (at + |line| < |s| && line != "" && line[|line| - 1] == '\r' ==> s[at + |line|] != '\n')
  }

  lemma KeptStands(s: string, n: nat)
    requires n < |KeptLines(s)|
    ensures |Lines(s)| == |KeptLines(s)| && KeptAt(s, KeptLines(s)[n], |Lines(s)[n]|, KeptEnd(s, n))
    ensures |Lines(s)[n]| == |KeptLines(s)[n]| ==> n == |KeptLines(s)| - 1
    ensures KeptEnd(s, n + 1) == KeptEnd(s, n) + |KeptLines(s)[n]|
  {
    LineStands(s, n);
    KeptIsCut(s, n);
    AllKept(s);
    if KeptEnd(s, n + 1) < |s| {
      Uncontinued(s, n);
    }
  }

  /** The first `n` lines end where the next one begins, unless they are all lines and one has no end. */
  ghost predicate Reached(s: string, n: nat, end: nat, all: nat) {
    Begins(s, IsLineBoundary, n + 1, end) || (n == all && Ended(s, IsLineBoundary, |s|) < n)
  }

  lemma OneMoreReached(s: string, line: string, text: nat, n: nat, end: nat, all: nat)
    requires KeptAt(s, line, text, end) && (text == |line| ==> n + 1 == all)
    requires n < all && Reached(s, n, end, all)
    ensures Reached(s, n + 1, end + |line|, all)
  {
    if text == |line| {
      UncutEnded(s, line, end);
    } else {
      CutEnded(s, line, text, end);
    }
  }

  lemma NextReached(s: string, n: nat, all: nat)
    requires n < |KeptLines(s)| && Reached(s, n, KeptEnd(s, n), all) && all == |KeptLines(s)|
    ensures Reached(s, n + 1, KeptEnd(s, n + 1), all)
  {
    KeptStands(s, n);
    var line, text, end := KeptLines(s)[n], |Lines(s)[n]|, KeptEnd(s, n);
    OneMoreReached(s, line, text, n, end, all);
  }

  lemma {:induction false} ReachedAll(s: string, n: nat)
    requires n <= |KeptLines(s)|
    ensures Reached(s, n, KeptEnd(s, n), |KeptLines(s)|)
  {
    if n > 0 {
      ReachedAll(s, n - 1);
      NextReached(s, n - 1, |KeptLines(s)|);
    }
  }

  lemma KeptLinesEnd(s: string)
    ensures Ended(s, IsLineBoundary, |s|) <= |KeptLines(s)|
  {
    ReachedAll(s, |KeptLines(s)|);
    AllKept(s);
  }

  // ---------- The parser's lines ----------

  /** The parser counts newlines and carriage returns only, a pair of them as one. */
  predicate IsNewline(c: char) {
    c == '\n' || c == '\r'
  }

  /** The text before place `to` has no line boundaries but newlines and carriage returns. */
  predicate PlainBefore(s: string, to: nat) {
    forall i | 0 <= i < to && i < |s| :: IsLineBoundary(s[i]) ==> IsNewline(s[i])
  }

  lemma PlainOneMore(s: string, to: nat)
    requires 0 < to <= |s|
    ensures PlainBefore(s, to) <==> PlainBefore(s, to - 1) && (IsLineBoundary(s[to - 1]) ==> IsNewline(s[to - 1]))
  {
  }

  lemma EndsCompared(s: string, at: nat)
    requires 0 < at <= |s|
    ensures EndsAt(s, IsNewline, at) ==> EndsAt(s, IsLineBoundary, at)
    ensures IsLineBoundary(s[at - 1]) && !IsNewline(s[at - 1]) ==> EndsAt(s, IsLineBoundary, at)
    ensures (IsLineBoundary(s[at - 1]) ==> IsNewline(s[at - 1]))
            ==> (EndsAt(s, IsNewline, at) <==> EndsAt(s, IsLineBoundary, at))
  {
  }

  /** More lines end than the parser counts if another boundary stands before. */
  lemma {:induction false} EndedCompared(s: string, to: nat)
    requires to <= |s|
    ensures Ended(s, IsNewline, to) <= Ended(s, IsLineBoundary, to)
    ensures Ended(s, IsNewline, to) == Ended(s, IsLineBoundary, to) <==> PlainBefore(s, to)
  {
    if to > 0 {
      EndedCompared(s, to - 1);
      PlainOneMore(s, to);
      EndsCompared(s, to);
    }
  }

  lemma OneOrder(s: string, at: nat, end: nat)
    requires at <= |s| && end <= |s| && (at == 0 || EndsAt(s, IsNewline, at))
    requires end == 0 || EndsAt(s, IsLineBoundary, end)
    ensures Ended(s, IsLineBoundary, end) <= Ended(s, IsLineBoundary, at) ==> end <= at
    ensures Ended(s, IsLineBoundary, end) == Ended(s, IsLineBoundary, at) ==> end == at
  {
    if at > 0 {
      EndsCompared(s, at);
    }
    if end < at {
      EndedGrows(s, IsLineBoundary, end, at);
    } else if at < end {
      EndedGrows(s, IsLineBoundary, at, end);
    }
  }

  lemma KeptReached(s: string, line: nat, at: nat)
    requires Begins(s, IsNewline, line, at)
    ensures 1 <= line <= |KeptLines(s)| + 1 && line - 1 <= Ended(s, IsLineBoundary, at)
    ensures Begins(s, IsLineBoundary, line, KeptEnd(s, line - 1))
  {
    EndedCompared(s, at);
    EndedGrows(s, IsLineBoundary, at, |s|);
    KeptLinesEnd(s);
    ReachedAll(s, line - 1);
  }

  /** The line of the text with the parser's number begins no later, and at the same place only in plain text. */
  lemma KeptBefore(s: string, line: nat, at: nat)
    requires Begins(s, IsNewline, line, at)
    ensures 1 <= line <= |KeptLines(s)| + 1 && KeptEnd(s, line - 1) <= at
    ensures KeptEnd(s, line - 1) == at <==> PlainBefore(s, at)
  {
    KeptReached(s, line, at);
    EndedCompared(s, at);
    OneOrder(s, at, KeptEnd(s, line - 1));
  }

  // ---------- Ranges ----------

  lemma BytesGrow(s: string, a: nat, b: nat)
    requires a <= b <= |s|
    ensures ByteLength(s[..b]) == ByteLength(s[..a]) + ByteLength(s[a..b])
    ensures ByteLength(s[..a]) == ByteLength(s[..b]) ==> a == b
  {
    assert s[..b] == s[..a] + s[a..b];
    ByteLengthAdds(s[..a], s[a..b]);
  }

  /** The parser's position of place `at`: a line, which begins at `first`, and the bytes from there to the place. */
  predicate PutsAt(source: string, at: nat, line: nat, column: nat, first: nat) {
    Begins(source, IsNewline, line, first) && first <= at <= |source| && column == ByteLength(source[first..at])
  }

  lemma OffsetAt(source: string, offsets: seq<nat>, n: nat)
    requires OffsetsOf(KeptLines(source), offsets) && n <= |KeptLines(source)|
    ensures n < |offsets| && KeptEnd(source, n) <= |source|
    ensures offsets[n] == ByteLength(source[..KeptEnd(source, n)])
  {
    KeptUpTo(source, n);
  }

  lemma SumsCompared(s: string, end: nat, first: nat, at: nat)
    requires end <= first <= at <= |s|
    ensures ByteLength(s[..end]) + ByteLength(s[first..at]) <= ByteLength(s[..at])
    ensures ByteLength(s[..end]) + ByteLength(s[first..at]) == ByteLength(s[..at]) <==> end == first
  {
    BytesGrow(s, end, first);
    BytesGrow(s, first, at);
  }

  /** The offset found for a place is that of the place in plain text, and is too small otherwise. */
  lemma PlaceFound(source: string, offsets: seq<nat>, at: nat, line: nat, column: nat, first: nat)
    requires OffsetsOf(KeptLines(source), offsets) && PutsAt(source, at, line, column, first)
    ensures 1 <= line <= |offsets| && offsets[line - 1] + column <= ByteLength(source[..at])
    ensures offsets[line - 1] + column == ByteLength(source[..at]) <==> PlainBefore(source, first)
  {
    KeptBefore(source, line, first);
    var end := KeptEnd(source, line - 1);
    OffsetAt(source, offsets, line - 1);
    SumsCompared(source, end, first, at);
  }

  lemma SelectedBytes(s: string, from: nat, to: nat)
    requires from <= to <= |s|
    ensures ByteLength(s[..from]) <= ByteLength(s[..to]) <= |Utf8.Encoded(s)|
    ensures Utf8.Encoded(s)[ByteLength(s[..from])..ByteLength(s[..to])] == Utf8.Encoded(s[from..to])
  {
    assert s == s[..to] + s[to..] && s[..to] == s[..from] + s[from..to];
    Utf8.EncodedConcat(s[..to], s[to..]);
    Utf8.EncodedConcat(s[..from], s[from..to]);
  }

  /**
   * The byte range of the node that is the text from place `from` to place `to`. The range selects the node's bytes
   * if and only if no line boundary but newlines and carriage returns stands before the line on which the node ends;
   * otherwise it ends, and may begin, too early.
   */
  method SourceRange(source: string, offsets: seq<nat>, line: nat, column: nat, endLine: nat, endColumn: nat,
                     ghost from: nat, ghost to: nat, ghost first: nat, ghost last: nat)
    returns (start: nat, end: nat)
    requires OffsetsOf(KeptLines(source), offsets) && line <= endLine
    requires PutsAt(source, from, line, column, first) && PutsAt(source, to, endLine, endColumn, last)
    ensures start <= ByteLength(source[..from]) && end <= ByteLength(source[..to])
    ensures start == ByteLength(source[..from]) <==> PlainBefore(source, first)
    ensures start == ByteLength(source[..from]) && end == ByteLength(source[..to]) <==> PlainBefore(source, last)
    ensures from <= to && PlainBefore(source, last) ==>
              && start <= end <= |Utf8.Encoded(source)|
              && Utf8.Encoded(source)[start..end] == Utf8.Encoded(source[from..to])
  {
    PlaceFound(source, offsets, from, line, column, first);
    PlaceFound(source, offsets, to, endLine, endColumn, last);
    BeginsInOrder(source, IsNewline, line, first, endLine, last);
    start, end := offsets[line - 1] + column, offsets[endLine - 1] + endColumn;
    if from <= to {
      SelectedBytes(source, from, to);
    }
  }

  lemma FormFeedLine()
    ensures PutsAt("x\U{c}\ny", 3, 2, 0, 3)
  {
    var s := "x\U{c}\ny";
    assert Ended(s, IsNewline, 1) == 0;
    assert Ended(s, IsNewline, 3) == 1;
    assert s[3..3] == "";
  }

  /** In "x\f\ny" the parser finds `y` at the beginning of its second line, and the range begins too early. */
  lemma FormFeedShiftsRange(offsets: seq<nat>)
    requires OffsetsOf(KeptLines("x\U{c}\ny"), offsets)
    ensures PutsAt("x\U{c}\ny", 3, 2, 0, 3)
    ensures |offsets| > 1 && offsets[1] < ByteLength("x\U{c}\ny"[..3])
  {
    var s := "x\U{c}\ny";
    FormFeedLine();
    assert !PlainBefore(s, 3) by {
      assert s[1] == '\U{c}';
    }
    PlaceFound(s, offsets, 3, 2, 0, 3);
  }
}
