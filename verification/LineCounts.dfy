/**
 * Counting the lines of a Python source text, and the byte offsets at which they begin. The
 * reference is Python's own line split, in which a carriage return and a newline behind it
 * are one break.
 */
module LineCounts {
  import opened Options
  import Utf8

  predicate IsLineBoundary(c: char) {
    || c == '\n' || c == '\r' || c == '\U{b}' || c == '\U{c}' || c == '\U{1c}' || c == '\U{1d}'
    || c == '\U{1e}' || c == '\U{85}' || c == '\U{2028}' || c == '\U{2029}'
  }

  // ---------- The reference line split ----------

  /** The length of the break that `s` begins with: a carriage return takes a newline behind it along. */
  function BreakLength(s: string): (n: nat)
    requires s != "" && IsLineBoundary(s[0])
    ensures 1 <= n <= |s|
  {
    if s[0] == '\r' && |s| > 1 && s[1] == '\n' then 2 else 1
  }

  /** The length of the first line, without its break. */
  function TextLength(s: string): (n: nat)
    ensures n <= |s|
    ensures forall i :: 0 <= i < n ==> !IsLineBoundary(s[i])
    ensures n < |s| ==> IsLineBoundary(s[n])
  {
    if s == "" || IsLineBoundary(s[0]) then 0 else 1 + TextLength(s[1..])
  }

  function LineLength(s: string): (n: nat)
    requires s != ""
    ensures 1 <= n <= |s|
  {
    var text := TextLength(s);
    if text == |s| then text else text + BreakLength(s[text..])
  }

  /** The boundaries of Python's line split, by code point. */
  lemma BoundariesMeaning(c: char)
    ensures IsLineBoundary(c) <==> (c as int) in {0xA, 0xB, 0xC, 0xD, 0x1C, 0x1D, 0x1E, 0x85, 0x2028, 0x2029}
  {
  }

  /** `s.splitlines(keepends=True)` */
  function KeptLines(s: string): seq<string> {
    if s == "" then [] else [s[..LineLength(s)]] + KeptLines(s[LineLength(s)..])
  }

  /** `s.splitlines()` */
  function Lines(s: string): seq<string> {
    if s == "" then [] else [s[..TextLength(s)]] + Lines(s[LineLength(s)..])
  }

  function Concatenated(lines: seq<string>): string {
    if lines == [] then "" else lines[0] + Concatenated(lines[1..])
  }

  lemma KeptFirst(s: string)
    requires s != ""
    ensures KeptLines(s) == [s[..LineLength(s)]] + KeptLines(s[LineLength(s)..])
    ensures |KeptLines(s)| == 1 + |KeptLines(s[LineLength(s)..])|
  {
  }

  lemma ConcatenatedCons(line: string, lines: seq<string>)
    ensures Concatenated([line] + lines) == line + Concatenated(lines)
  {
    assert ([line] + lines)[1..] == lines;
  }

  lemma ConcatenatedKept(s: string)
    requires s != ""
    ensures var n := LineLength(s); Concatenated(KeptLines(s)) == s[..n] + Concatenated(KeptLines(s[n..]))
  {
    KeptFirst(s);
    ConcatenatedCons(s[..LineLength(s)], KeptLines(s[LineLength(s)..]));
  }

  lemma CutAt(s: string, n: nat)
    requires n <= |s|
    ensures s == s[..n] + s[n..]
  {
  }

  /** The split loses nothing: the kept lines are the text. */
  lemma {:induction false} SplitLosesNothing(s: string)
    ensures Concatenated(KeptLines(s)) == s
  {
    if s != "" {
      ConcatenatedKept(s);
      CutAt(s, LineLength(s));
      SplitLosesNothing(s[LineLength(s)..]);
    }
  }

  lemma {:induction false} SameCount(s: string)
    ensures |Lines(s)| == |KeptLines(s)|
  {
    if s != "" {
      SameCount(s[LineLength(s)..]);
    }
  }

  ghost predicate BreakFree(line: string) {
    forall i :: 0 <= i < |line| ==> !IsLineBoundary(line[i])
  }

  /** Line `i` as kept is the line, which holds no break, and one break, which only the last may lack. */
  ghost predicate IsLine(s: string, i: nat) {
    && i < |Lines(s)| == |KeptLines(s)|
    && var line, kept := Lines(s)[i], KeptLines(s)[i];
       && kept != "" && line <= kept && BreakFree(line)
       && if |line| == |kept| then i == |KeptLines(s)| - 1
          else IsLineBoundary(kept[|line|]) && |kept| == |line| + BreakLength(kept[|line|..])
  }

  lemma BreakInside(s: string, n: nat, m: nat)
    requires n < m <= |s| && IsLineBoundary(s[n]) && m == n + BreakLength(s[n..])
    ensures s[..m][n] == s[n] && m == n + BreakLength(s[..m][n..])
  {
    assert s[..m][n..] == s[n..][..m - n];
  }

  lemma FirstLine(s: string)
    requires s != ""
    ensures IsLine(s, 0)
  {
    SameCount(s);
    if TextLength(s) < |s| {
      BreakInside(s, TextLength(s), LineLength(s));
    } else {
      assert s[|s|..] == "";
    }
  }

  /** Line `i + 1` is line `i` of what follows the first line. */
  lemma LineOfRest(s: string, i: nat)
    requires s != "" && i + 1 < |KeptLines(s)|
    ensures var rest := s[LineLength(s)..];
      && |KeptLines(s)| == |Lines(s)| == |KeptLines(rest)| + 1 == |Lines(rest)| + 1
      && KeptLines(s)[i + 1] == KeptLines(rest)[i] && Lines(s)[i + 1] == Lines(rest)[i]
  {
    SameCount(s);
    SameCount(s[LineLength(s)..]);
  }

  lemma {:induction false} LineMeaning(s: string, i: nat)
    requires i < |KeptLines(s)|
    ensures IsLine(s, i)
  {
    if i == 0 {
      FirstLine(s);
    } else {
      LineOfRest(s, i - 1);
      LineMeaning(s[LineLength(s)..], i - 1);
    }
  }

  // ---------- The only split ----------

  /** A text without breaks and at most one break. */
  predicate IsKept(line: string) {
    line != "" && LineLength(line) == |line|
  }

  /** Every line but the last ends in a break, and no break is cut between a carriage return and a newline. */
  predicate Continues(line: string, next: string) {
    && TextLength(line) < |line|
    && !(line != "" && line[|line| - 1] == '\r' && next != "" && next[0] == '\n')
  }

  ghost predicate IsSplit(s: string, lines: seq<string>) {
    && Concatenated(lines) == s
    && (forall i :: 0 <= i < |lines| ==> IsKept(lines[i]))
    && forall i :: 0 <= i < |lines| - 1 ==> Continues(lines[i], lines[i + 1])
  }

  lemma {:induction false} TextLengthOfPrefix(line: string, rest: string)
    requires TextLength(line) < |line|
    ensures TextLength(line + rest) == TextLength(line)
  {
    var s := line + rest;
    assert s[0] == line[0];
    if !IsLineBoundary(s[0]) {
      assert s[1..] == line[1..] + rest;
      TextLengthOfPrefix(line[1..], rest);
    }
  }

  /** A kept line is the first line of every text that goes on with something else than its break. */
  lemma LineLengthOfPrefix(line: string, rest: string)
    requires IsKept(line) && (rest != "" ==> Continues(line, rest))
    ensures LineLength(line + rest) == |line|
  {
    if rest == "" {
      assert line + rest == line;
    } else {
      var s, n := line + rest, TextLength(line);
      TextLengthOfPrefix(line, rest);
      assert s[n..] == line[n..] + rest;
    }
  }

  lemma RestBegins(lines: seq<string>)
    requires lines != [] && lines[0] != ""
    ensures Concatenated(lines) != "" && Concatenated(lines)[0] == lines[0][0]
  {
  }

  lemma RestIsSplit(s: string, lines: seq<string>)
    requires IsSplit(s, lines) && lines != []
    ensures |lines[0]| <= |s| && s[..|lines[0]|] == lines[0]
    ensures IsSplit(s[|lines[0]|..], lines[1..])
  {
    var rest := lines[1..];
    assert s == lines[0] + Concatenated(rest);
    assert s[|lines[0]|..] == Concatenated(rest);
    forall i | 0 <= i < |rest| - 1 ensures Continues(rest[i], rest[i + 1]) {
      assert Continues(lines[i + 1], lines[i + 2]);
    }
  }

  lemma FirstOfSplit(s: string, lines: seq<string>)
    requires IsSplit(s, lines) && lines != []
    ensures s != "" && LineLength(s) == |lines[0]|
  {
    var rest := lines[1..];
    assert IsKept(lines[0]);
    if rest != [] {
      assert Continues(lines[0], lines[1]) && IsKept(lines[1]);
      RestBegins(rest);
    }
    LineLengthOfPrefix(lines[0], Concatenated(rest));
  }

  lemma {:induction false} OnlySplit(s: string, lines: seq<string>)
    requires IsSplit(s, lines)
    ensures lines == KeptLines(s)
    decreases |lines|
  {
    if lines != [] {
      FirstOfSplit(s, lines);
      RestIsSplit(s, lines);
      OnlySplit(s[LineLength(s)..], lines[1..]);
      KeptFirst(s);
      assert lines == [lines[0]] + lines[1..];
    }
  }

  lemma FirstIsKept(s: string)
    requires s != ""
    ensures var n := LineLength(s); IsKept(s[..n]) && (n < |s| ==> Continues(s[..n], s[n..]))
  {
    var n := LineLength(s);
    if TextLength(s) < |s| {
      assert s == s[..n] + s[n..];
      TextLengthOfFirst(s);
      BreakInside(s, TextLength(s), n);
    } else {
      assert s[..n] == s;
    }
  }

  lemma {:induction false} TextLengthOfFirst(s: string)
    requires TextLength(s) < |s|
    ensures TextLength(s[..LineLength(s)]) == TextLength(s)
  {
    TextLengthIs(s[..LineLength(s)], TextLength(s));
  }

  lemma TextLengthIs(s: string, n: nat)
    requires n < |s| && IsLineBoundary(s[n]) && BreakFree(s[..n])
    ensures TextLength(s) == n
  {
    assert forall i :: 0 <= i < n ==> s[..n][i] == s[i];
  }

  lemma {:induction false} KeptLinesSplit(s: string)
    ensures IsSplit(s, KeptLines(s))
  {
    SplitLosesNothing(s);
    if s != "" {
      var n := LineLength(s);
      var lines := KeptLines(s);
      FirstIsKept(s);
      KeptLinesSplit(s[n..]);
      KeptFirst(s);
      if n < |s| {
        KeptFirst(s[n..]);
        assert lines[1] == s[n..][..LineLength(s[n..])] && lines[1][0] == s[n];
      }
      forall i | 0 <= i < |lines| - 1 ensures Continues(lines[i], lines[i + 1]) {
        if i > 0 {
          assert Continues(lines[1..][i - 1], lines[1..][i]);
        }
      }
    }
  }

  /**
   * The reference split is the only way to cut a text into lines with at most one break each, all but the
   * last with one, and no carriage return cut off from its newline.
   */
  lemma SplitExactly(s: string, lines: seq<string>)
    ensures IsSplit(s, lines) <==> lines == KeptLines(s)
  {
    KeptLinesSplit(s);
    if IsSplit(s, lines) {
      OnlySplit(s, lines);
    }
  }

  // ---------- The peeking count ----------

  /** The lines still to be counted: those of the rest, and the line already begun if the rest is empty. */
  function Remaining(rest: string, trailing: bool): nat {
    if trailing && rest == "" then 1 else |KeptLines(rest)|
  }

  lemma BreakFirst(rest: string)
    requires rest != "" && IsLineBoundary(rest[0])
    ensures LineLength(rest) == BreakLength(rest)
  {
    assert rest[0..] == rest;
  }

  lemma TextFirst(rest: string)
    requires rest != "" && !IsLineBoundary(rest[0])
    ensures |rest| > 1 ==> LineLength(rest) == 1 + LineLength(rest[1..])
    ensures |rest| == 1 ==> LineLength(rest) == 1
  {
    if |rest| > 1 {
      DropTwice(rest, 1, TextLength(rest[1..]));
    }
  }

  lemma StepOverBreak(rest: string, trailing: bool)
    requires rest != "" && IsLineBoundary(rest[0])
    ensures Remaining(rest, trailing) == 1 + Remaining(rest[BreakLength(rest)..], false)
  {
    KeptFirst(rest);
    BreakFirst(rest);
  }

  lemma StepOverText(rest: string, trailing: bool)
    requires rest != "" && !IsLineBoundary(rest[0])
    ensures Remaining(rest, trailing) == Remaining(rest[1..], true)
  {
    KeptFirst(rest);
    TextFirst(rest);
    if |rest| > 1 {
      KeptFirst(rest[1..]);
      DropTwice(rest, 1, LineLength(rest[1..]));
    }
  }

  lemma DropTwice(s: string, i: nat, n: nat)
    requires i + n <= |s|
    ensures s[i..][n..] == s[i + n..]
  {
  }

  /** `line` raises for a number that is no line's. */
  method Line(source: string, lineNumber: int) returns (line: Option<string>)
    ensures line.Some? <==> 1 <= lineNumber <= |KeptLines(source)|
    ensures line.Some? ==> IsLine(source, lineNumber - 1) && line.value == Lines(source)[lineNumber - 1]
  {
    SameCount(source);
    var lines := Lines(source);
    if lineNumber < 1 || lineNumber > |lines| {
      return None;
    }
    LineMeaning(source, lineNumber - 1);
    return Some(lines[lineNumber - 1]);
  }

  /** The lines still to be counted from place `i`. */
  function RemainingAt(source: string, i: nat, trailing: bool): nat
    requires i <= |source|
  {
    Remaining(source[i..], trailing)
  }

  /** The place behind the break at place `i`. */
  function BehindBreak(source: string, i: nat): (next: nat)
    requires i < |source|
    ensures i < next <= |source|
  {
    i + if source[i] == '\r' && i + 1 < |source| && source[i + 1] == '\n' then 2 else 1
  }

  lemma BreakAtPlace(source: string, i: nat)
    requires i < |source| && IsLineBoundary(source[i])
    ensures IsLineBoundary(source[i..][0]) && i + BreakLength(source[i..]) == BehindBreak(source, i)
  {
    assert source[i..][0] == source[i] && (i + 1 < |source| ==> source[i..][1] == source[i + 1]);
  }

  lemma CountBreak(source: string, i: nat, trailing: bool)
    requires i < |source| && IsLineBoundary(source[i])
    ensures RemainingAt(source, i, trailing) == 1 + RemainingAt(source, BehindBreak(source, i), false)
  {
    BreakAtPlace(source, i);
    DropTwice(source, i, BreakLength(source[i..]));
    StepOverBreak(source[i..], trailing);
  }

  lemma CountText(source: string, i: nat, trailing: bool)
    requires i < |source| && !IsLineBoundary(source[i])
    ensures RemainingAt(source, i, trailing) == RemainingAt(source, i + 1, true)
  {
    StepOverText(source[i..], trailing);
    DropTwice(source, i, 1);
  }

  method SourceLineCount(source: string) returns (lines: nat)
    ensures lines == |KeptLines(source)| == |Lines(source)|
  {
    SameCount(source);
    var count, trailingText, i := 0, false, 0;
    assert source[0..] == source;
    while i < |source|
      invariant i <= |source|
      invariant |KeptLines(source)| == count + RemainingAt(source, i, trailingText)
    {
      if IsLineBoundary(source[i]) {
        CountBreak(source, i, trailingText);
        count, trailingText := count + 1, false;
        if source[i] == '\r' && i + 1 < |source| && source[i + 1] == '\n' {
          i := i + 1;
        }
      } else {
        CountText(source, i, trailingText);
        trailingText := true;
      }
      i := i + 1;
    }
    lines := count + if trailingText then 1 else 0;
  }

  // ---------- Byte offsets ----------

  /** `len(s.encode("utf-8"))` */
  function ByteLength(s: string): nat {
    |Utf8.Encoded(s)|
  }

  lemma ByteLengthAdds(a: string, b: string)
    ensures ByteLength(a + b) == ByteLength(a) + ByteLength(b)
    ensures ByteLength(b) >= |b|
  {
    Utf8.EncodedConcat(a, b);
    ByteLengthGrows(b);
  }

  lemma {:induction false} ByteLengthGrows(s: string)
    ensures ByteLength(s) >= |s|
  {
    if s != "" {
      ByteLengthGrows(s[1..]);
    }
  }

  lemma {:induction false} ConcatenatedSnoc(lines: seq<string>, line: string)
    ensures Concatenated(lines + [line]) == Concatenated(lines) + line
  {
    if lines == [] {
      assert lines + [line] == [line] && [line][1..] == [];
    } else {
      assert (lines + [line])[1..] == lines[1..] + [line];
      ConcatenatedSnoc(lines[1..], line);
    }
  }

  /** Line `i` begins where the bytes of the lines before it end. */
  ghost predicate OffsetsOf(lines: seq<string>, offsets: seq<nat>) {
    && |offsets| == |lines| + 1
    && forall i :: 0 <= i < |offsets| ==> offsets[i] == ByteLength(Concatenated(lines[..i]))
  }

  method LineOffsets(source: string) returns (offsets: seq<nat>)
    ensures OffsetsOf(KeptLines(source), offsets)
  {
    var lines := KeptLines(source);
    var offset := 0;
    offsets := [0];
    assert lines[..0] == [];
    for i := 0 to |lines|
      invariant |offsets| == i + 1 && offset == ByteLength(Concatenated(lines[..i]))
      invariant forall k :: 0 <= k <= i ==> offsets[k] == ByteLength(Concatenated(lines[..k]))
    {
      assert lines[..i + 1] == lines[..i] + [lines[i]];
      ConcatenatedSnoc(lines[..i], lines[i]);
      ByteLengthAdds(Concatenated(lines[..i]), lines[i]);
      offset := offset + ByteLength(lines[i]);
      offsets := offsets + [offset];
    }
  }

  /** The offsets rise from zero to the length of the encoded text, one more of them than lines. */
  lemma OffsetsRise(source: string, offsets: seq<nat>, i: nat)
    requires OffsetsOf(KeptLines(source), offsets) && i < |KeptLines(source)|
    ensures |offsets| == |Lines(source)| + 1
    ensures offsets[0] == 0 && offsets[|offsets| - 1] == ByteLength(source)
    ensures offsets[i] + ByteLength(KeptLines(source)[i]) == offsets[i + 1] && offsets[i] < offsets[i + 1]
  {
    var lines := KeptLines(source);
    SplitLosesNothing(source);
    LineMeaning(source, i);
    assert lines[..|lines|] == lines;
    assert lines[..i + 1] == lines[..i] + [lines[i]];
    ConcatenatedSnoc(lines[..i], lines[i]);
    ByteLengthAdds(Concatenated(lines[..i]), lines[i]);
  }
}
