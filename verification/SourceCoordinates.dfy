/**
 * The scan that turns byte offsets into lines and columns, and the shifting of spans from embedded
 * text to the whole source. Offsets and columns count bytes, and lines count newlines, as the
 * parsers report them.
 */
module SourceCoordinates {
  import opened Bytes
  import opened Options

  datatype SourceSpan = SourceSpan(start: nat, end: nat, line: nat, column: nat)

  function NewlineCount(s: seq<byte>): nat {
    if s == [] then 0
    else NewlineCount(s[..|s| - 1]) + if s[|s| - 1] == NEWLINE then 1 else 0
  }

  /** The index of the last newline (`rposition`). */
  function LastNewline(s: seq<byte>): (at: Option<nat>)
    ensures at.None? <==> NEWLINE !in s
    ensures at.Some? ==> at.value < |s| && s[at.value] == NEWLINE && NEWLINE !in s[at.value + 1..]
  {
    if s == [] then None
    else if s[|s| - 1] == NEWLINE then Some(|s| - 1)
    else
      var init := s[..|s| - 1];
      assert s == init + [s[|s| - 1]];
      var at := LastNewline(init);
      assert at.Some? ==> s[at.value + 1..] == init[at.value + 1..] + [s[|s| - 1]];
      at
  }

  function ColumnAfter(prefix: seq<byte>): nat {
    match LastNewline(prefix)
    case None => |prefix|
    case Some(index) => |prefix| - index - 1
  }

  function LineAt(source: seq<byte>, offset: nat): nat
    requires offset <= |source|
  {
    NewlineCount(source[..offset]) + 1
  }

  function ColumnAt(source: seq<byte>, offset: nat): nat
    requires offset <= |source|
  {
    ColumnAfter(source[..offset])
  }

  function LocateSpan(source: seq<byte>, start: usize, end: usize): SourceSpan {
    var boundedStart := Min(start, |source|);
    var boundedEnd := Min(Max(end, boundedStart), |source|);
    SourceSpan(boundedStart, boundedEnd, LineAt(source, boundedStart), ColumnAt(source, boundedStart))
  }

  function ShiftedSpan(source: seq<byte>, span: SourceSpan, offset: usize): SourceSpan
    requires span.start <= USIZE_MAX && span.end <= USIZE_MAX
  {
    LocateSpan(source, SaturatingAdd(span.start, offset), SaturatingAdd(span.end, offset))
  }

  // ---------- What a line and a column mean ----------

  /** Where the lines of a text begin: at its start and just after every newline. */
  function LineStarts(s: seq<byte>): (starts: seq<nat>)
    ensures |starts| == NewlineCount(s) + 1
    ensures starts[0] == 0
  {
    if s == [] then [0]
    else LineStarts(s[..|s| - 1]) + if s[|s| - 1] == NEWLINE then [|s|] else []
  }

  ghost predicate StartsLine(s: seq<byte>, x: nat) {
    x == 0 || (x <= |s| && s[x - 1] == NEWLINE)
  }

  lemma {:induction false} LineStartsAreTheLineBeginnings(s: seq<byte>, x: nat)
    ensures x in LineStarts(s) <==> StartsLine(s, x)
    ensures x in LineStarts(s) <==> x == 0 || (x <= |s| && s[x - 1] as char == '\n')
  {
    if s != [] {
      var init := s[..|s| - 1];
      LineStartsAreTheLineBeginnings(init, x);
      assert x < |s| ==> StartsLine(init, x) == StartsLine(s, x);
    }
  }

  ghost predicate Increasing(starts: seq<nat>) {
    forall i, j :: 0 <= i < j < |starts| ==> starts[i] < starts[j]
  }

  lemma {:induction false} LineStartsIncrease(s: seq<byte>)
    ensures Increasing(LineStarts(s))
    ensures forall i :: 0 <= i < |LineStarts(s)| ==> LineStarts(s)[i] <= |s|
  {
    if s != [] {
      LineStartsIncrease(s[..|s| - 1]);
    }
  }

  lemma NeverDecreasing(starts: seq<nat>)
    requires Increasing(starts)
    ensures forall i, j :: 0 <= i <= j < |starts| ==> starts[i] <= starts[j]
  {
  }

  lemma {:induction false} LineStartsOfPrefix(s: seq<byte>, n: nat)
    requires n <= |s|
    ensures LineStarts(s[..n]) <= LineStarts(s)
    ensures forall i :: |LineStarts(s[..n])| <= i < |LineStarts(s)| ==> n < LineStarts(s)[i]
  {
    if n == |s| {
      assert s[..n] == s;
    } else {
      var init := s[..|s| - 1];
      assert init[..n] == s[..n];
      LineStartsOfPrefix(init, n);
    }
  }

  lemma {:induction false} ColumnIsFromLastStart(s: seq<byte>)
    ensures LineStarts(s)[NewlineCount(s)] + ColumnAfter(s) == |s|
  {
    if s == [] {
    } else if s[|s| - 1] == NEWLINE {
    } else {
      ColumnIsFromLastStart(s[..|s| - 1]);
    }
  }

  /** Line `line` is the one that holds `offset`: it has begun there and the next one has not. */
  ghost predicate Holds(starts: seq<nat>, line: nat, offset: nat) {
    && 1 <= line <= |starts| && starts[line - 1] <= offset
    && (line < |starts| ==> offset < starts[line])
  }

  lemma HoldingLineIsUnique(starts: seq<nat>, a: nat, b: nat, offset: nat)
    requires Increasing(starts) && Holds(starts, a, offset) && Holds(starts, b, offset)
    ensures a == b
  {
    NeverDecreasing(starts);
  }

  /**
   * A line and a column name one offset: the line is the one that holds the offset, and the line's
   * beginning and the column add up to it.
   */
  lemma LocationNamesOffset(source: seq<byte>, offset: nat)
    requires offset <= |source|
    ensures Holds(LineStarts(source), LineAt(source, offset), offset)
    ensures LineStarts(source)[LineAt(source, offset) - 1] + ColumnAt(source, offset) == offset
  {
    ColumnIsFromLastStart(source[..offset]);
    LineStartsOfPrefix(source, offset);
  }

  /** The scan's line is the only line of the text that holds the offset. */
  lemma LocationIsUnique(source: seq<byte>, offset: nat, line: nat)
    requires offset <= |source|
    ensures Holds(LineStarts(source), line, offset) <==> line == LineAt(source, offset)
  {
    LocationNamesOffset(source, offset);
    LineStartsIncrease(source);
    if Holds(LineStarts(source), line, offset) {
      HoldingLineIsUnique(LineStarts(source), line, LineAt(source, offset), offset);
    }
  }

  /**
   * A span that starts outside the text is moved to its end, one that ends before it starts is empty, and it has
   * the line and the column of its start.
   */
  lemma SpanMeaning(source: seq<byte>, start: usize, end: usize)
    ensures var span, from := LocateSpan(source, start, end), if start <= |source| then start else |source|;
      && span.start == from && span.line == LineAt(source, from) && span.column == ColumnAt(source, from)
      && span.end == (if end <= from then from else if end <= |source| then end else |source|)
  {
  }

  /** Two offsets of one text never share a line and a column. */
  lemma LocationsAreDistinct(source: seq<byte>, a: nat, b: nat)
    requires a <= |source| && b <= |source|
    requires LineAt(source, a) == LineAt(source, b) && ColumnAt(source, a) == ColumnAt(source, b)
    ensures a == b
  {
    LocationNamesOffset(source, a);
    LocationNamesOffset(source, b);
  }

  // ---------- Embedded scripts ----------

  lemma {:induction false} NewlinesAdd(a: seq<byte>, b: seq<byte>)
    ensures NewlineCount(a + b) == NewlineCount(a) + NewlineCount(b)
  {
    if b == [] {
      assert a + b == a;
    } else {
      assert (a + b)[..|a + b| - 1] == a + b[..|b| - 1];
      NewlinesAdd(a, b[..|b| - 1]);
    }
  }

  lemma {:induction false} ColumnAfterConcat(a: seq<byte>, b: seq<byte>)
    ensures ColumnAfter(a + b) == if NewlineCount(b) == 0 then ColumnAfter(a) + |b| else ColumnAfter(b)
    ensures NewlineCount(b) == 0 ==> ColumnAfter(b) == |b|
  {
    if b == [] {
      assert a + b == a;
    } else if b[|b| - 1] != NEWLINE {
      assert (a + b)[..|a + b| - 1] == a + b[..|b| - 1];
      ColumnAfterConcat(a, b[..|b| - 1]);
    }
  }

  lemma CutPrefix(source: seq<byte>, a: nat, b: nat, n: nat)
    requires a <= b <= |source| && n <= b - a
    ensures source[..a + n] == source[..a] + source[a..b][..n]
  {
  }

  lemma CutSlice(source: seq<byte>, a: nat, b: nat, m: nat, n: nat)
    requires a <= b <= |source| && m <= n <= b - a
    ensures source[a..b][m..n] == source[a + m..a + n]
  {
    assert forall k :: 0 <= k < n - m ==> source[a..b][m..n][k] == source[a + m..a + n][k];
  }

  /** The location of an offset of `source[a..b]`, seen from the whole text. */
  lemma LocationAfter(source: seq<byte>, a: nat, b: nat, n: nat)
    requires a <= b <= |source| && n <= b - a
    ensures LineAt(source, a + n) == LineAt(source[a..b], n) + NewlineCount(source[..a])
    ensures ColumnAt(source, a + n)
         == ColumnAt(source[a..b], n) + if LineAt(source[a..b], n) == 1 then ColumnAt(source, a) else 0
  {
    CutPrefix(source, a, b, n);
    NewlinesAdd(source[..a], source[a..b][..n]);
    ColumnAfterConcat(source[..a], source[a..b][..n]);
  }

  lemma BoundedInside(source: seq<byte>, start: usize, end: usize)
    ensures LocateSpan(source, start, end).start <= LocateSpan(source, start, end).end <= |source|
  {
  }

  lemma Unclamped(source: seq<byte>, start: usize, end: usize)
    requires start <= end <= |source|
    ensures LocateSpan(source, start, end) == SourceSpan(start, end, LineAt(source, start), ColumnAt(source, start))
  {
  }

  lemma ShiftUnsaturated(source: Slice, span: SourceSpan, offset: usize)
    requires span.start <= span.end && span.end + offset <= |source|
    ensures ShiftedSpan(source, span, offset) == LocateSpan(source, span.start + offset, span.end + offset)
  {
  }

  /** What becomes of a span `inner` of `source[a..b]`. */
  ghost predicate Embedded(source: seq<byte>, a: nat, b: nat, inner: SourceSpan, outer: SourceSpan)
    requires a <= b <= |source|
  {
    && outer.start == a + inner.start && outer.end == a + inner.end
    && a <= outer.start <= outer.end <= b
    && source[outer.start..outer.end] == source[a..b][inner.start..inner.end]
    && outer.line == inner.line + NewlineCount(source[..a])
    && outer.column == inner.column + if inner.line == 1 then ColumnAt(source, a) else 0
  }

  lemma LocatedInside(source: seq<byte>, a: usize, b: usize, start: usize, end: usize)
    requires a <= b <= |source| && start <= end <= b - a && b <= USIZE_MAX
    ensures Embedded(source, a, b, LocateSpan(source[a..b], start, end), LocateSpan(source, start + a, end + a))
  {
    LocationAfter(source, a, b, start);
    CutSlice(source, a, b, start, end);
    Unclamped(source, start + a, end + a);
    Unclamped(source[a..b], start, end);
  }

  lemma Reclamped(source: seq<byte>, start: usize, end: usize)
    ensures var span := LocateSpan(source, start, end);
      && span.start <= span.end <= |source| && span.end <= USIZE_MAX
      && LocateSpan(source, span.start, span.end) == span
  {
  }

  lemma ShiftEmbedded(source: Slice, a: usize, b: usize, span: SourceSpan)
    requires a <= b <= |source| && span.start <= span.end <= b - a
    requires span == LocateSpan(source[a..b], span.start, span.end)
    ensures Embedded(source, a, b, span, ShiftedSpan(source, span, a))
  {
    ShiftUnsaturated(source, span, a);
    LocatedInside(source, a, b, span.start, span.end);
  }

  /**
   * Shifting a span of an embedded text selects the same bytes of the whole source, moves the line down
   * by the lines before the text, and moves the column only on the text's first line, by the column the
   * text begins at.
   */
  lemma ShiftingKeepsTheText(source: Slice, a: usize, b: usize, start: usize, end: usize)
    requires a <= b <= |source|
    ensures var span := LocateSpan(source[a..b], start, end);
      Embedded(source, a, b, span, ShiftedSpan(source, span, a))
  {
    Reclamped(source[a..b], start, end);
    ShiftEmbedded(source, a, b, LocateSpan(source[a..b], start, end));
  }

  /** Shifting a located span is locating the shifted offsets: both scans read the same bytes. */
  lemma ShiftingIsLocating(source: Slice, a: usize, b: usize, start: usize, end: usize)
    requires a <= b <= |source|
    requires start <= end <= b - a
    ensures ShiftedSpan(source, LocateSpan(source[a..b], start, end), a) == LocateSpan(source, start + a, end + a)
  {
    Unclamped(source[a..b], start, end);
    ShiftUnsaturated(source, LocateSpan(source[a..b], start, end), a);
  }

  /** A text embedded in an embedded text may be shifted in two steps or in one. */
  lemma ShiftsCompose(source: Slice, a: usize, b: usize, c: usize, d: usize, start: usize, end: usize)
    requires a <= b <= |source|
    requires c <= d <= b - a
    ensures var inner := LocateSpan(source[a..b][c..d], start, end);
      && inner.start + c <= inner.end + c <= |source|
      && ShiftedSpan(source, ShiftedSpan(source[a..b], inner, c), a) == ShiftedSpan(source, inner, a + c)
  {
    var inner := LocateSpan(source[a..b][c..d], start, end);
    BoundedInside(source[a..b][c..d], start, end);
    ShiftTwice(source, a, b, c, inner);
  }

  lemma ShiftTwice(source: Slice, a: usize, b: usize, c: usize, inner: SourceSpan)
    requires a <= b <= |source| && inner.start <= inner.end && inner.end + c <= b - a
    ensures ShiftedSpan(source, ShiftedSpan(source[a..b], inner, c), a) == ShiftedSpan(source, inner, a + c)
  {
    ShiftUnsaturated(source[a..b], inner, c);
    ShiftingIsLocating(source, a, b, inner.start + c, inner.end + c);
    ShiftUnsaturated(source, inner, a + c);
  }

  // ---------- Wrapped syntax ----------

  /** The span reported for a diagnostic of `prefix + text + suffix`, mapped back onto `text`. */
  function UnwrappedSpan(text: seq<byte>, diagnostic: SourceSpan, prefixLength: usize): SourceSpan
    requires diagnostic.start <= USIZE_MAX && diagnostic.end <= USIZE_MAX
  {
    var start := Min(SaturatingSub(diagnostic.start, prefixLength), |text|);
    var end := Min(SaturatingSub(diagnostic.end, prefixLength), |text|);
    LocateSpan(text, start, end)
  }

  lemma UnwrappedBounds(text: seq<byte>, diagnostic: SourceSpan, prefixLength: usize)
    requires diagnostic.start <= USIZE_MAX && diagnostic.end <= USIZE_MAX
    ensures var span := UnwrappedSpan(text, diagnostic, prefixLength);
      && span.start <= span.end <= |text|
      && (prefixLength <= diagnostic.start <= diagnostic.end <= prefixLength + |text| ==>
            span == LocateSpan(text, diagnostic.start - prefixLength, diagnostic.end - prefixLength))
  {
  }

  /** A diagnostic outside the text is moved to its nearer end, and the prefix is taken off. */
  lemma UnwrappedMeaning(text: seq<byte>, diagnostic: SourceSpan, prefixLength: usize)
    requires diagnostic.start <= USIZE_MAX && diagnostic.end <= USIZE_MAX
    ensures var span := UnwrappedSpan(text, diagnostic, prefixLength);
      && span.start == (if diagnostic.start <= prefixLength then 0
                        else if diagnostic.start <= prefixLength + |text| then diagnostic.start - prefixLength
                        else |text|)
      && span.end == (if diagnostic.end <= prefixLength || diagnostic.end <= diagnostic.start then span.start
                      else if diagnostic.end <= prefixLength + |text| then diagnostic.end - prefixLength
                      else |text|)
  {
  }

  lemma WrappedSlice(prefix: seq<byte>, text: seq<byte>, suffix: seq<byte>, m: nat, n: nat)
    requires |prefix| <= m <= n <= |prefix| + |text|
    ensures (prefix + text + suffix)[m..n] == text[m - |prefix|..n - |prefix|]
  {
  }

  /** Whatever the inner parser reports, the diagnostic ends up inside the embedded text. */
  lemma UnwrappedDiagnosticsStayInside(source: Slice, a: usize, b: usize, diagnostic: SourceSpan, prefixLength: usize)
    requires a <= b <= |source|
    requires diagnostic.start <= USIZE_MAX && diagnostic.end <= USIZE_MAX
    ensures var inner := UnwrappedSpan(source[a..b], diagnostic, prefixLength);
      Embedded(source, a, b, inner, ShiftedSpan(source, inner, a))
    ensures var reported := ShiftedSpan(source, UnwrappedSpan(source[a..b], diagnostic, prefixLength), a);
      a <= reported.start <= reported.end <= b
  {
    var text := source[a..b];
    var start := Min(SaturatingSub(diagnostic.start, prefixLength), |text|);
    var end := Min(SaturatingSub(diagnostic.end, prefixLength), |text|);
    ShiftingKeepsTheText(source, a, b, start, end);
  }

  lemma ReportedSpan(source: Slice, a: usize, b: usize, diagnostic: SourceSpan, prefixLength: usize)
    requires a <= b <= |source|
    requires prefixLength <= diagnostic.start <= diagnostic.end <= prefixLength + (b - a) && diagnostic.end <= USIZE_MAX
    ensures var reported := ShiftedSpan(source, UnwrappedSpan(source[a..b], diagnostic, prefixLength), a);
      reported.start == a + (diagnostic.start - prefixLength) && reported.end == a + (diagnostic.end - prefixLength)
  {
    var start, end := diagnostic.start - prefixLength, diagnostic.end - prefixLength;
    UnwrappedBounds(source[a..b], diagnostic, prefixLength);
    ShiftingIsLocating(source, a, b, start, end);
    Unclamped(source, start + a, end + a);
  }

  lemma SameBytes(source: seq<byte>, a: nat, b: nat, prefix: seq<byte>, suffix: seq<byte>, m: nat, n: nat)
    requires a <= b <= |source| && |prefix| <= m <= n <= |prefix| + (b - a)
    ensures source[a + (m - |prefix|)..a + (n - |prefix|)] == (prefix + source[a..b] + suffix)[m..n]
  {
    CutSlice(source, a, b, m - |prefix|, n - |prefix|);
    WrappedSlice(prefix, source[a..b], suffix, m, n);
  }

  /** What the inner parser reports inside the text keeps its bytes. */
  lemma UnwrappedDiagnosticsKeepTheText(source: Slice, a: usize, b: usize, diagnostic: SourceSpan,
                                        prefix: Slice, suffix: seq<byte>)
    requires a <= b <= |source|
    requires |prefix| <= diagnostic.start <= diagnostic.end <= |prefix| + (b - a) && diagnostic.end <= USIZE_MAX
    ensures var reported := ShiftedSpan(source, UnwrappedSpan(source[a..b], diagnostic, |prefix|), a);
      && reported.start <= reported.end <= |source|
      && source[reported.start..reported.end]
      == (prefix + source[a..b] + suffix)[diagnostic.start..diagnostic.end]
  {
    ReportedSpan(source, a, b, diagnostic, |prefix|);
    SameBytes(source, a, b, prefix, suffix, diagnostic.start, diagnostic.end);
  }
}
