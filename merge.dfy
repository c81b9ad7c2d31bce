/** Merging busy ranges that overlap into longer ones. */
module Merge {
  import opened TimeRanges

  /** Each range comes wholly before every later one. */
  ghost predicate Disjoint(s: seq<TimeRange>) {
    forall i, j :: 0 <= i < j < |s| ==> s[i].end <= s[j].start
  }

  /** The shape of a merged busy list: proper ranges, in ascending order, no
      two sharing a minute. */
  ghost predicate Normalized(s: seq<TimeRange>) {
    (forall i :: 0 <= i < |s| ==> Proper(s[i])) && Disjoint(s)
  }

  lemma NormalizedAppend(s: seq<TimeRange>, x: TimeRange)
    requires Normalized(s) && Proper(x)
    requires |s| > 0 ==> s[|s| - 1].end <= x.start
    ensures Normalized(s + [x])
  {
    var s' := s + [x];
    forall i, j | 0 <= i < j < |s'|
      ensures s'[i].end <= s'[j].start
    {
      if j == |s| && i < |s| - 1 {
        assert s[i].end <= s[|s| - 1].start;
      }
    }
  }

  /** The ranges already merged together with the open range [start, end)
      cover exactly the minutes of the input ranges looked at so far. */
  ghost predicate SameCover(merged: seq<TimeRange>, open: TimeRange, seen: seq<TimeRange>) {
    forall t :: Covers(merged, t) || open.Includes(t) <==> Covers(seen, t)
  }

  /** Taking in a range that the open range, grown or not, absorbs. */
  lemma {:induction false} GrowCover(merged: seq<TimeRange>, open: TimeRange, seen: seq<TimeRange>,
                                     next: TimeRange, grown: TimeRange)
    requires SameCover(merged, open, seen)
    requires forall t :: open.Includes(t) || next.Includes(t) <==> grown.Includes(t)
    ensures SameCover(merged, grown, seen + [next])
  {
    forall t ensures Covers(merged, t) || grown.Includes(t) <==> Covers(seen + [next], t) {
      CoversAppend(seen, next, t);
    }
  }

  /** Closing the open range and opening a new one at the next range. */
  lemma {:induction false} CloseCover(merged: seq<TimeRange>, open: TimeRange, seen: seq<TimeRange>,
                                      next: TimeRange)
    requires SameCover(merged, open, seen)
    ensures SameCover(merged + [open], next, seen + [next])
  {
    forall t ensures Covers(merged + [open], t) || next.Includes(t) <==> Covers(seen + [next], t) {
      CoversAppend(seen, next, t);
      CoversAppend(merged, open, t);
    }
  }

  /** The state of the merge loop: ranges[..next] have been looked at; the
      open range [start, end) ends where ranges[curr] ends; the ranges closed
      so far are normalized and lie before the open one; together they cover
      exactly the minutes looked at. */
  ghost predicate MergeInvariant(ranges: seq<TimeRange>, merged: seq<TimeRange>, curr: int, next: int,
                                 start: int, end: int) {
    0 <= curr < next <= |ranges| &&
    start <= ranges[curr].start && end == ranges[curr].end &&
    Proper(TimeRange(start, end)) &&
    Normalized(merged) && (|merged| > 0 ==> merged[|merged| - 1].end <= start) &&
    SameCover(merged, TimeRange(start, end), ranges[..next])
  }

  /** The input the merge loop requires: proper ranges sorted by start. */
  ghost predicate MergeInput(ranges: seq<TimeRange>) {
    (forall i :: 0 <= i < |ranges| ==> Proper(ranges[i])) && SortedBy(ranges, ByStart)
  }

  /** The next range lies within the current one: the open range stays. */
  lemma ContainedStep(ranges: seq<TimeRange>, merged: seq<TimeRange>, curr: int, next: int, start: int, end: int)
    requires MergeInput(ranges) && MergeInvariant(ranges, merged, curr, next, start, end)
    requires next < |ranges| && ranges[curr].Contains(ranges[next])
    ensures MergeInvariant(ranges, merged, curr, next + 1, start, end)
  {
    assert ranges[..next + 1] == ranges[..next] + [ranges[next]];
    GrowCover(merged, TimeRange(start, end), ranges[..next], ranges[next], TimeRange(start, end));
  }

  /** The next range overlaps the current one and ends after it: the open
      range grows to the next range's end. */
  lemma OverlapStep(ranges: seq<TimeRange>, merged: seq<TimeRange>, curr: int, next: int, start: int, end: int)
    requires MergeInput(ranges) && MergeInvariant(ranges, merged, curr, next, start, end)
    requires next < |ranges| && !ranges[curr].Contains(ranges[next]) && ranges[curr].Overlaps(ranges[next])
    ensures MergeInvariant(ranges, merged, next, next + 1, start, ranges[next].end)
  {
    assert ranges[curr].start <= ranges[next].start;
    assert ranges[..next + 1] == ranges[..next] + [ranges[next]];
    GrowCover(merged, TimeRange(start, end), ranges[..next], ranges[next], TimeRange(start, ranges[next].end));
  }

  /** The next range starts after the current one ends: the open range is
      closed and the next range opens a new one. */
  lemma SeparateStep(ranges: seq<TimeRange>, merged: seq<TimeRange>, curr: int, next: int, start: int, end: int)
    requires MergeInput(ranges) && MergeInvariant(ranges, merged, curr, next, start, end)
    requires next < |ranges| && !ranges[curr].Overlaps(ranges[next])
    ensures MergeInvariant(ranges, merged + [FromStartEnd(start, end, false)], next, next + 1,
                           ranges[next].start, ranges[next].end)
  {
    assert ranges[curr].start <= ranges[next].start;
    var closed := FromStartEnd(start, end, false);
    NormalizedAppend(merged, closed);
    assert ranges[..next + 1] == ranges[..next] + [ranges[next]];
    CloseCover(merged, closed, ranges[..next], ranges[next]);
  }

  /** Before the loop: the first range is open and nothing is closed. */
  lemma FirstStep(ranges: seq<TimeRange>)
    requires MergeInput(ranges) && |ranges| > 0
    ensures MergeInvariant(ranges, [], 0, 1, ranges[0].start, ranges[0].end)
  {
    assert ranges[..1] == [] + [ranges[0]];
    GrowCover([], TimeRange(ranges[0].start, ranges[0].start), [], ranges[0], ranges[0]);
  }

  /** After the loop: closing the open range gives the merged list. */
  lemma LastStep(ranges: seq<TimeRange>, merged: seq<TimeRange>, curr: int, start: int, end: int)
    requires MergeInvariant(ranges, merged, curr, |ranges|, start, end)
    ensures Normalized(merged + [FromStartEnd(start, end, false)])
    ensures forall t :: Covers(merged + [FromStartEnd(start, end, false)], t) <==> Covers(ranges, t)
  {
    var last := FromStartEnd(start, end, false);
    NormalizedAppend(merged, last);
    assert ranges[..|ranges|] == ranges;
    forall t ensures Covers(merged + [last], t) <==> Covers(ranges, t) {
      CoversAppend(merged, last, t);
    }
  }

  /** Merges a list of proper ranges sorted by start into a normalized list
      that covers exactly the same minutes. */
  method MergeBusyTimes(busyTimeRanges: seq<TimeRange>) returns (merged: seq<TimeRange>)
    requires |busyTimeRanges| > 0
    requires forall i :: 0 <= i < |busyTimeRanges| ==> Proper(busyTimeRanges[i])
    requires SortedBy(busyTimeRanges, ByStart)
    ensures |merged| > 0
    ensures Normalized(merged)
    ensures forall t :: Covers(merged, t) <==> Covers(busyTimeRanges, t)
  {
    var ranges := busyTimeRanges;
    var numRange := |ranges|;
    if numRange == 1 {
      return ranges;
    }
    merged := [];
    var currRangeIndex, nextRangeIndex := 0, 1;
    assert MergeInput(ranges);
    var start, end := ranges[0].start, ranges[0].end;
    FirstStep(ranges);
    while currRangeIndex < numRange && nextRangeIndex < numRange
      invariant MergeInvariant(ranges, merged, currRangeIndex, nextRangeIndex, start, end)
      decreases numRange - nextRangeIndex
    {
      var currRange := ranges[currRangeIndex];
      var nextRange := ranges[nextRangeIndex];

      if currRange.Contains(nextRange) {
        ContainedStep(ranges, merged, currRangeIndex, nextRangeIndex, start, end);
        nextRangeIndex := nextRangeIndex + 1;
      } else if currRange.Overlaps(nextRange) {
        OverlapStep(ranges, merged, currRangeIndex, nextRangeIndex, start, end);
        end := ranges[nextRangeIndex].end;
        currRangeIndex := nextRangeIndex;
        nextRangeIndex := currRangeIndex + 1;
      } else {
        SeparateStep(ranges, merged, currRangeIndex, nextRangeIndex, start, end);
        merged := merged + [FromStartEnd(start, end, false)];
        currRangeIndex := nextRangeIndex;
        start := ranges[currRangeIndex].start;
        end := ranges[currRangeIndex].end;
        nextRangeIndex := currRangeIndex + 1;
      }
    }

    LastStep(ranges, merged, currRangeIndex, start, end);
    merged := merged + [FromStartEnd(start, end, false)];
  }
}
