/**
 * The binary-searched line index and its agreement with the scan: the same line and column for every
 * text and offset, cut off at 32 bits, and what the cut does to the order of
 * locations.
 */
module LineIndices {
  import opened Bytes
  import opened Options
  import opened SourceCoordinates

  datatype OffsetLocation = OffsetLocation(line: nat, column: nat)

  datatype LineIndex = LineIndex(starts: seq<nat>, sourceLength: nat)

  method LineStartOffsets(source: Slice) returns (starts: seq<nat>)
    ensures starts == LineStarts(source)
  {
    starts := [0];
    var index := 0;
    assert source[..index] == [];
    while index < |source|
      invariant index <= |source|
      invariant starts == LineStarts(source[..index])
    {
      assert source[..index + 1][..index] == source[..index];
      if source[index] == NEWLINE {
        starts := starts + [index + 1];
      }
      index := index + 1;
    }
    assert source[..index] == source;
  }

  /** How many of the sorted `starts` lie at or before `offset`, by halving. */
  function PartitionPoint(starts: seq<nat>, offset: nat, low: nat, high: nat): (count: nat)
    requires low <= high <= |starts|
    requires low == 0 || starts[low - 1] <= offset
    requires high == |starts| || offset < starts[high]
    ensures low <= count <= high
    ensures count == 0 || starts[count - 1] <= offset
    ensures count == |starts| || offset < starts[count]
    decreases high - low
  {
    if low == high then low
    else
      var middle := (low + high) / 2;
      if starts[middle] <= offset then PartitionPoint(starts, offset, middle + 1, high)
      else PartitionPoint(starts, offset, low, middle)
  }

  /** The number of line beginnings at or before the clamped offset. */
  function LineNumber(index: LineIndex, offset: nat): (count: nat)
    ensures count <= |index.starts|
    ensures count > 0 ==> index.starts[count - 1] <= Min(offset, index.sourceLength)
  {
    PartitionPoint(index.starts, Min(offset, index.sourceLength), 0, |index.starts|)
  }

  /** `None` is the subtraction `0 - 1`: no line begins at or before the offset. */
  function Locate(index: LineIndex, offset: nat): Option<OffsetLocation>
    requires Increasing(index.starts)
  {
    var lineNumber := LineNumber(index, offset);
    if lineNumber == 0 then None
    else Some(OffsetLocation(SaturatingU32(lineNumber),
                             SaturatingU32(Min(offset, index.sourceLength) - index.starts[lineNumber - 1])))
  }

  function LineStart(index: LineIndex, offset: nat): Option<nat>
    requires Increasing(index.starts)
  {
    var lineNumber := LineNumber(index, offset);
    if lineNumber == 0 then None else Some(index.starts[lineNumber - 1])
  }

  ghost function IndexOf(source: seq<byte>): (index: LineIndex)
    ensures WellFormed(index)
  {
    LineStartsIncrease(source);
    LineIndex(LineStarts(source), |source|)
  }

  ghost predicate WellFormed(index: LineIndex) {
    && Increasing(index.starts)
    && |index.starts| > 0 && index.starts[0] == 0
    && forall i :: 0 <= i < |index.starts| ==> index.starts[i] <= index.sourceLength
  }

  /** A location is a line that holds the clamped offset, and the offset's distance from its beginning. */
  ghost predicate LocatedOn(index: LineIndex, offset: nat, line: nat)
    requires Increasing(index.starts)
  {
    var clamped := Min(offset, index.sourceLength);
    && Holds(index.starts, line, clamped)
    && Locate(index, offset)
    == Some(OffsetLocation(SaturatingU32(line), SaturatingU32(clamped - index.starts[line - 1])))
    && LineStart(index, offset) == Some(index.starts[line - 1])
  }

  lemma PointHolds(starts: seq<nat>, offset: nat)
    requires |starts| > 0 && starts[0] == 0
    ensures Holds(starts, PartitionPoint(starts, offset, 0, |starts|), offset)
  {
  }

  lemma LocateAt(index: LineIndex, offset: nat, line: nat)
    requires Increasing(index.starts) && 1 <= line <= |index.starts|
    requires line == LineNumber(index, offset)
    ensures var start := index.starts[line - 1];
      && start <= Min(offset, index.sourceLength)
      && Locate(index, offset)
      == Some(OffsetLocation(SaturatingU32(line), SaturatingU32(Min(offset, index.sourceLength) - start)))
      && LineStart(index, offset) == Some(start)
  {
  }

  lemma LocateMeaning(index: LineIndex, offset: nat) returns (line: nat)
    requires WellFormed(index)
    ensures LocatedOn(index, offset, line)
  {
    line := LineNumber(index, offset);
    PointHolds(index.starts, Min(offset, index.sourceLength));
    LocateAt(index, offset, line);
  }

  /** The greatest 32-bit number stands for all greater ones. */
  function CutOff(n: nat): nat {
    if n < 4294967296 then n else 4294967295
  }

  /**
   * The index answers every offset of every text, inside or past its end, with the line and the column
   * of the scan, cut off at 32 bits; the line's beginning and the scan's column add up to the offset.
   */
  lemma IndexAgreesWithScan(source: Slice, offset: usize, end: usize)
    ensures var span := LocateSpan(source, offset, end);
      && Locate(IndexOf(source), offset) == Some(OffsetLocation(CutOff(span.line), CutOff(span.column)))
      && LineStart(IndexOf(source), offset) == Some(span.start - span.column)
      && span.start == if offset <= |source| then offset else |source|
  {
    var line := LocateMeaning(IndexOf(source), offset);
    var clamped := Min(offset, |source|);
    LocationIsUnique(source, clamped, line);
    LocationNamesOffset(source, clamped);
  }

  /** An index that was not built from a text underflows exactly below its first start. */
  lemma UnderflowExactly(index: LineIndex, offset: nat)
    requires Increasing(index.starts)
    ensures Locate(index, offset).None? <==> (index.starts == [] || Min(offset, index.sourceLength) < index.starts[0])
  {
    var line := LineNumber(index, offset);
    NeverDecreasing(index.starts);
  }

  // ---------- Monotonicity ----------

  predicate NotAfter(a: OffsetLocation, b: OffsetLocation) {
    a.line < b.line || (a.line == b.line && a.column <= b.column)
  }

  /** The locations of `o` and `p` come in order. */
  ghost predicate InOrder(index: LineIndex, o: nat, p: nat)
    requires Increasing(index.starts)
  {
    var a, b := Locate(index, o), Locate(index, p);
    a.Some? && b.Some? && NotAfter(a.value, b.value)
  }

  ghost predicate Monotone(index: LineIndex)
    requires Increasing(index.starts)
  {
    forall o: nat, p: nat | o <= p :: InOrder(index, o, p)
  }

  /** From the last line number that fits 32 bits on, no line but the last holds anything. */
  ghost predicate EmptyPastLastNumber(starts: seq<nat>) {
    forall k | U32_MAX <= k < |starts| :: OneByteApart(starts, k)
  }

  /** Line `k` holds nothing but its newline. */
  ghost predicate OneByteApart(starts: seq<nat>, k: nat)
    requires 1 <= k < |starts|
  {
    starts[k] == starts[k - 1] + 1
  }

  lemma LaterLine(starts: seq<nat>, o: nat, a: nat, p: nat, b: nat)
    requires Increasing(starts) && Holds(starts, a, o) && Holds(starts, b, p) && o <= p
    ensures a <= b
  {
    NeverDecreasing(starts);
  }

  lemma OrderedUnlessCut(index: LineIndex, o: nat, p: nat)
    requires WellFormed(index) && EmptyPastLastNumber(index.starts) && o <= p
    ensures InOrder(index, o, p)
  {
    var a := LocateMeaning(index, o);
    var b := LocateMeaning(index, p);
    LaterLine(index.starts, Min(o, index.sourceLength), a, Min(p, index.sourceLength), b);
    if U32_MAX <= a < b {
      assert OneByteApart(index.starts, a);
    }
  }

  lemma AroundABreak(index: LineIndex, k: nat)
    requires WellFormed(index) && 1 <= k < |index.starts|
    ensures 1 <= index.starts[k]
    ensures LocatedOn(index, index.starts[k] - 1, k) && LocatedOn(index, index.starts[k], k + 1)
  {
    var p := index.starts[k];
    assert index.starts[k - 1] < p;
    var a := LocateMeaning(index, p - 1);
    var b := LocateMeaning(index, p);
    HoldingLineIsUnique(index.starts, a, k, p - 1);
    assert k + 1 < |index.starts| ==> p < index.starts[k + 1];
    HoldingLineIsUnique(index.starts, b, k + 1, p);
  }

  lemma BreakIsOrdered(index: LineIndex, k: nat)
    requires WellFormed(index) && Monotone(index) && U32_MAX <= k < |index.starts|
    ensures OneByteApart(index.starts, k)
  {
    AroundABreak(index, k);
    assert InOrder(index, index.starts[k] - 1, index.starts[k]);
  }

  /**
   * Later offsets never get an earlier location exactly while the 32-bit lines can tell them apart: no
   * line from number 4294967295 on, but for the last, may hold more than its newline.
   */
  lemma MonotoneExactly(index: LineIndex)
    requires WellFormed(index)
    ensures Monotone(index) <==> EmptyPastLastNumber(index.starts)
    ensures |index.starts| <= U32_MAX ==> Monotone(index)
  {
    if EmptyPastLastNumber(index.starts) {
      forall o: nat, p: nat | o <= p
        ensures InOrder(index, o, p)
      {
        OrderedUnlessCut(index, o, p);
      }
    }
    if Monotone(index) {
      forall k | U32_MAX <= k < |index.starts|
        ensures OneByteApart(index.starts, k)
      {
        BreakIsOrdered(index, k);
      }
    }
  }

  /** A text of `n` lines that hold one character each. */
  function ShortLines(n: nat): (source: seq<byte>)
    ensures |source| == 2 * n
    ensures forall i :: 0 <= i < |source| ==> source[i] == if i % 2 == 0 then 97 else NEWLINE
  {
    seq(2 * n, i requires 0 <= i < 2 * n => if i % 2 == 0 then 97 else NEWLINE)
  }

  lemma {:induction false} ShortLinesStart(n: nat)
    ensures LineStarts(ShortLines(n)) == seq(n + 1, i requires 0 <= i => 2 * i)
  {
    if n > 0 {
      var source := ShortLines(n);
      var shorter := source[..2 * n - 1];
      ShortLinesStart(n - 1);
      assert shorter[..2 * n - 2] == ShortLines(n - 1);
    }
  }

  /** Line 4294967296 of a text gets the number of the line before it, and its start a smaller column. */
  lemma LaterOffsetLocatedEarlier()
    ensures var index := IndexOf(ShortLines(U32_MAX));
      && Locate(index, 2 * U32_MAX - 1) == Some(OffsetLocation(U32_MAX, 1))
      && Locate(index, 2 * U32_MAX) == Some(OffsetLocation(U32_MAX, 0))
      && !Monotone(index)
  {
    var index := IndexOf(ShortLines(U32_MAX));
    ShortLinesStart(U32_MAX);
    AroundABreak(index, U32_MAX);
    assert !InOrder(index, 2 * U32_MAX - 1, 2 * U32_MAX);
  }
}
