/**
 * The segment splitter, `further_segment`: an utterance longer than the
 * maximum segment length is cut into consecutive pieces of that length, the
 * last one clamped to the utterance's end; a maximum of 0 disables cutting.
 */
module Segments {
  import opened Spans

  /** The pieces for the cursors `range(cursor, end, segLen)` yields, each ending `segLen` later or at `end`. */
  function Chunks(cursor: nat, end: nat, segLen: nat): seq<Span>
    requires segLen > 0
    decreases end - cursor
  {
    if cursor >= end then []
    else [Span(cursor, if cursor + segLen < end then cursor + segLen else end)] + Chunks(cursor + segLen, end, segLen)
  }

  /** `further_segment(start_time, end_time, seg_len)`, its two lists zipped into spans. */
  function Segmented(start: nat, end: nat, segLen: nat): seq<Span> {
    if end - start > segLen && segLen != 0 then Chunks(start, end, segLen) else [Span(start, end)]
  }

  /** The pieces of a non-empty stretch start at `cursor` and end at `end`; the last is in `(0, segLen]` long. */
  lemma {:induction false} ChunksEnds(cursor: nat, end: nat, segLen: nat)
    requires segLen > 0 && cursor < end
    ensures var r := Chunks(cursor, end, segLen);
            |r| >= 1 && r[0].start == cursor && r[|r| - 1].end == end && 0 < r[|r| - 1].Length() <= segLen
    decreases end - cursor
  {
    if cursor + segLen < end {
      ChunksEnds(cursor + segLen, end, segLen);
    }
  }

  /** There are `ceil((end - cursor) / segLen)` pieces. */
  lemma {:induction false} ChunksCount(cursor: nat, end: nat, segLen: nat)
    requires segLen > 0 && cursor < end
    ensures var n := |Chunks(cursor, end, segLen)|;
            (n - 1) * segLen < end - cursor <= n * segLen
    decreases end - cursor
  {
    if cursor + segLen < end {
      var n, m := |Chunks(cursor, end, segLen)|, |Chunks(cursor + segLen, end, segLen)|;
      ChunksCount(cursor + segLen, end, segLen);
      assert n == m + 1;
      assert n * segLen == m * segLen + segLen;
    }
  }

  /** Every piece lies inside `[cursor, end]`. */
  lemma {:induction false} ChunksInside(cursor: nat, end: nat, segLen: nat)
    requires segLen > 0
    ensures forall k :: 0 <= k < |Chunks(cursor, end, segLen)| ==>
              cursor <= Chunks(cursor, end, segLen)[k].start && Chunks(cursor, end, segLen)[k].end <= end
    decreases end - cursor
  {
    if cursor < end {
      var r, rest := Chunks(cursor, end, segLen), Chunks(cursor + segLen, end, segLen);
      ChunksInside(cursor + segLen, end, segLen);
      assert forall k :: 1 <= k < |r| ==> r[k] == rest[k - 1];
    }
  }

  /** Each piece but the last is `segLen` long and ends where the next starts. */
  lemma {:induction false} ChunksContiguous(cursor: nat, end: nat, segLen: nat)
    requires segLen > 0
    ensures var r := Chunks(cursor, end, segLen);
            forall k :: 0 <= k < |r| - 1 ==> r[k].end == r[k + 1].start && r[k].Length() == segLen
    decreases end - cursor
  {
    if cursor < end {
      var r, rest := Chunks(cursor, end, segLen), Chunks(cursor + segLen, end, segLen);
      ChunksContiguous(cursor + segLen, end, segLen);
      if rest != [] {
        ChunksEnds(cursor + segLen, end, segLen);
      }
      assert forall k :: 1 <= k < |r| ==> r[k] == rest[k - 1];
    }
  }

  /**
   * The pieces of a non-empty stretch run from `cursor` to `end` without gap
   * or overlap; all but the last are `segLen` long, the last at most that; and
   * there are `ceil((end - cursor) / segLen)` of them.
   */
  lemma ChunksShape(cursor: nat, end: nat, segLen: nat)
    requires segLen > 0 && cursor < end
    ensures var r := Chunks(cursor, end, segLen);
            |r| >= 1 && r[0].start == cursor && r[|r| - 1].end == end &&
            (forall k :: 0 <= k < |r| ==> cursor <= r[k].start && r[k].end <= end) &&
            (forall k :: 0 <= k < |r| - 1 ==> r[k].end == r[k + 1].start && r[k].Length() == segLen) &&
            0 < r[|r| - 1].Length() <= segLen &&
            (|r| - 1) * segLen < end - cursor <= |r| * segLen
  {
    ChunksEnds(cursor, end, segLen);
    ChunksCount(cursor, end, segLen);
    ChunksInside(cursor, end, segLen);
    ChunksContiguous(cursor, end, segLen);
  }

  /**
   * What `further_segment` promises: the single pair when cutting is off or
   * not needed; otherwise contiguous pieces from `start` to `end`, all but the
   * last exactly `segLen` long, the last in `(0, segLen]`, and
   * `ceil((end - start) / segLen)` of them.
   */
  lemma SegmentedShape(start: nat, end: nat, segLen: nat)
    ensures segLen == 0 || end - start <= segLen ==> Segmented(start, end, segLen) == [Span(start, end)]
    ensures segLen > 0 && end - start > segLen ==>
              var r := Segmented(start, end, segLen);
              |r| >= 2 && r[0].start == start && r[|r| - 1].end == end &&
              (forall k :: 0 <= k < |r| ==> start <= r[k].start && r[k].end <= end) &&
              (forall k :: 0 <= k < |r| - 1 ==> r[k].end == r[k + 1].start && r[k].Length() == segLen) &&
              0 < r[|r| - 1].Length() <= segLen &&
              (|r| - 1) * segLen < end - start <= |r| * segLen
  {
    if segLen > 0 && end - start > segLen {
      ChunksShape(start, end, segLen);
    }
  }

  /**
   * One turn of the cutting loop: appending the piece at `cursor` to the
   * lists moves it from the pieces still to come to the pieces made.
   */
  lemma ChunksAdvance(starts: seq<nat>, ends: seq<nat>, cursor: nat, end: nat, segLen: nat, whole: seq<Span>)
    requires segLen > 0 && cursor < end && |starts| == |ends|
    requires Zip(starts, ends) + Chunks(cursor, end, segLen) == whole
    ensures var pieceEnd := if cursor + segLen < end then cursor + segLen else end;
            Zip(starts + [cursor], ends + [pieceEnd]) + Chunks(cursor + segLen, end, segLen) == whole
  {
    var pieceEnd := if cursor + segLen < end then cursor + segLen else end;
    var done, rest := Zip(starts, ends), Chunks(cursor + segLen, end, segLen);
    assert Chunks(cursor, end, segLen) == [Span(cursor, pieceEnd)] + rest;
    ZipAppend(starts, ends, cursor, pieceEnd);
    assert (done + [Span(cursor, pieceEnd)]) + rest == done + ([Span(cursor, pieceEnd)] + rest);
  }

  /** `further_segment`: the parallel lists of piece starts and piece ends. */
  method FurtherSegment(startTime: nat, endTime: nat, segLen: nat) returns (segStartTimes: seq<nat>, segEndTimes: seq<nat>)
    ensures |segStartTimes| == |segEndTimes|
    ensures Zip(segStartTimes, segEndTimes) == Segmented(startTime, endTime, segLen)
  {
    if endTime - startTime > segLen && segLen != 0 {
      segStartTimes, segEndTimes := [], [];
      ghost var whole := Chunks(startTime, endTime, segLen);
      var i := startTime;
      while i < endTime
        invariant |segStartTimes| == |segEndTimes|
        invariant Zip(segStartTimes, segEndTimes) + Chunks(i, endTime, segLen) == whole
        decreases endTime - i
      {
        ChunksAdvance(segStartTimes, segEndTimes, i, endTime, segLen, whole);
        segStartTimes := segStartTimes + [i];
        if i + segLen < endTime {
          segEndTimes := segEndTimes + [i + segLen];
        } else {
          segEndTimes := segEndTimes + [endTime];
        }
        i := i + segLen;
      }
      assert Chunks(i, endTime, segLen) == [];
    } else {
      segStartTimes, segEndTimes := [startTime], [endTime];
      assert Zip(segStartTimes, segEndTimes) == [Span(startTime, endTime)];
    }
  }
}
