/** The free ranges of a day around a merged busy list, and what makes a list
    of ranges the answer to a meeting query. */
module Slots {
  import opened TimeRanges
  import opened Merge

  /** [r] when r is at least duration minutes long, [] otherwise. */
  function Keep(r: TimeRange, duration: int): seq<TimeRange> {
    if r.Duration() >= duration then [r] else []
  }

  /** The free ranges up to the n-th busy range of m that are at least
      duration long: the one from the start of the day to the first busy range,
      then those between consecutive busy ranges among the first n that hold
      at least one minute. */
  function FreeBefore(m: seq<TimeRange>, n: int, duration: int): seq<TimeRange>
    requires 1 <= n <= |m|
  {
    if n == 1 then Keep(FromStartEnd(START_OF_DAY, m[0].start, false), duration)
    else
      var gap := FromStartEnd(m[n - 2].end, m[n - 1].start, false);
      FreeBefore(m, n - 1, duration) + (if gap.start < gap.end then Keep(gap, duration) else [])
  }

  /** The free ranges of the day around the merged busy list m that are at
      least duration long: those up to the last busy range, then the one from
      the last busy range to the end of the day. */
  function FreeTimes(m: seq<TimeRange>, duration: int): seq<TimeRange>
    requires |m| > 0
  {
    FreeBefore(m, |m|, duration) + Keep(FromStartEnd(m[|m| - 1].end, END_OF_DAY, true), duration)
  }

  // ---------------------------------------------------------------------
  // What an answer to a meeting query is, for a list of busy ranges.

  /** Every range lies within the day and is at least duration long; only a
      range at an edge of the day may hold no minute. */
  ghost predicate LongEnoughInDay(res: seq<TimeRange>, duration: int) {
    forall k :: 0 <= k < |res| ==>
      START_OF_DAY <= res[k].start <= res[k].end <= END_OF_DAY + 1 && res[k].Duration() >= duration &&
      (res[k].start < res[k].end || res[k].start == START_OF_DAY || res[k].end == END_OF_DAY + 1)
  }

  /** No range shares a minute with a busy range. */
  ghost predicate AvoidsBusy(res: seq<TimeRange>, busy: seq<TimeRange>) {
    forall k :: 0 <= k < |res| ==> Free(busy, res[k].start, res[k].end)
  }

  /** No range can be widened: each starts at the start of the day or right
      after a busy minute, and ends at the end of the day or at a busy
      minute. */
  ghost predicate Maximal(res: seq<TimeRange>, busy: seq<TimeRange>) {
    forall k :: 0 <= k < |res| ==>
      (res[k].start == START_OF_DAY || Covers(busy, res[k].start - 1)) &&
      (res[k].end == END_OF_DAY + 1 || Covers(busy, res[k].end))
  }

  /** Each range ends strictly before every later one starts. */
  ghost predicate Ascending(res: seq<TimeRange>) {
    forall i, j :: 0 <= i < j < |res| ==> res[i].end < res[j].start
  }

  /** For a duration of zero or less, the empty range at an edge of the day is
      a range of the answer whenever a busy range touches that edge. */
  ghost predicate EmptyEdges(res: seq<TimeRange>, busy: seq<TimeRange>, duration: int) {
    duration <= 0 ==>
      (Covers(busy, START_OF_DAY) ==> TimeRange(START_OF_DAY, START_OF_DAY) in res) &&
      (Covers(busy, END_OF_DAY) ==> TimeRange(END_OF_DAY + 1, END_OF_DAY + 1) in res)
  }

  /** Every free window of the day at least duration long lies within one of
      the ranges. */
  ghost predicate Complete(res: seq<TimeRange>, busy: seq<TimeRange>, duration: int) {
    forall a, b :: START_OF_DAY <= a < b <= END_OF_DAY + 1 && b - a >= duration && Free(busy, a, b) ==>
      exists k :: 0 <= k < |res| && res[k].start <= a && b <= res[k].end
  }

  /** res lists, in order, exactly the maximal free ranges of the day around
      busy that are at least duration long. */
  ghost predicate AvailableSlots(res: seq<TimeRange>, busy: seq<TimeRange>, duration: int) {
    Ascending(res) && LongEnoughInDay(res, duration) && Maximal(res, busy) &&
    AvoidsBusy(res, busy) && EmptyEdges(res, busy, duration) && Complete(res, busy, duration)
  }

  /** The whole day is the one slot when nothing is busy. */
  lemma WholeDayWhenNothingBusy(duration: int)
    requires duration <= WHOLE_DAY.Duration()
    ensures AvailableSlots([WHOLE_DAY], [], duration)
  {
    assert forall t :: !Covers([], t);
    assert [WHOLE_DAY][0] == WHOLE_DAY;
  }

  /** The slot predicates depend on the busy list only through the minutes it
      covers. */
  lemma AvailableSlotsSameCover(res: seq<TimeRange>, busy: seq<TimeRange>, other: seq<TimeRange>, duration: int)
    requires forall t :: Covers(busy, t) <==> Covers(other, t)
    requires AvailableSlots(res, busy, duration)
    ensures AvailableSlots(res, other, duration)
  {
    forall a, b ensures Free(busy, a, b) <==> Free(other, a, b) {
    }
  }

  // ---------------------------------------------------------------------
  // Minutes of a normalized busy list.

  lemma NotCoveredBefore(m: seq<TimeRange>, t: int)
    requires Normalized(m) && |m| > 0
    requires t < m[0].start
    ensures !Covers(m, t)
  {
  }

  lemma NotCoveredBetween(m: seq<TimeRange>, i: int, t: int)
    requires Normalized(m) && 0 <= i < |m| - 1
    requires m[i].end <= t < m[i + 1].start
    ensures !Covers(m, t)
  {
  }

  lemma NotCoveredAfter(m: seq<TimeRange>, t: int)
    requires Normalized(m) && |m| > 0
    requires m[|m| - 1].end <= t
    ensures !Covers(m, t)
  {
  }

  /** Minute t of the busy range m[i] is covered. */
  lemma CoveredAt(m: seq<TimeRange>, i: int, t: int)
    requires 0 <= i < |m| && m[i].Includes(t)
    ensures Covers(m, t)
  {
  }

  // ---------------------------------------------------------------------
  // The gaps between busy ranges.

  /** g is the free range between the busy ranges m[i] and m[i + 1], holds at
      least one minute and is at least duration long. */
  ghost predicate GapAt(m: seq<TimeRange>, i: int, duration: int, g: TimeRange) {
    0 <= i < |m| - 1 && g == TimeRange(m[i].end, m[i + 1].start) &&
    m[i].end < m[i + 1].start && g.Duration() >= duration
  }

  /** A range is among the free ranges up to the n-th busy range exactly when
      it is the long enough range from the start of the day to the first busy
      range, or a gap between two consecutive busy ranges among the first n. */
  lemma {:induction false} FreeBeforeMembers(m: seq<TimeRange>, n: int, duration: int, g: TimeRange)
    requires 1 <= n <= |m|
    ensures g in FreeBefore(m, n, duration) <==>
      (g == TimeRange(START_OF_DAY, m[0].start) && g.Duration() >= duration) ||
      exists i :: i < n - 1 && GapAt(m, i, duration, g)
  {
    if n >= 2 {
      FreeBeforeMembers(m, n - 1, duration, g);
      if g in FreeBefore(m, n, duration) && g !in FreeBefore(m, n - 1, duration) {
        assert GapAt(m, n - 2, duration, g);
      }
    }
  }

  lemma AscendingConcat(a: seq<TimeRange>, b: seq<TimeRange>)
    requires Ascending(a) && Ascending(b)
    requires forall x, y :: x in a && y in b ==> x.end < y.start
    ensures Ascending(a + b)
  {
    var c := a + b;
    forall i, j | 0 <= i < j < |c|
      ensures c[i].end < c[j].start
    {
      if i < |a| && j >= |a| {
        assert c[i] in a && c[j] in b;
      }
    }
  }

  /** The free ranges up to the n-th range of a normalized list ascend and end
      no later than the n-th range starts. */
  lemma {:induction false} FreeBeforeAscending(m: seq<TimeRange>, n: int, duration: int)
    requires Normalized(m) && 1 <= n <= |m|
    ensures Ascending(FreeBefore(m, n, duration))
    ensures forall g :: g in FreeBefore(m, n, duration) ==> g.end <= m[n - 1].start
  {
    if n >= 2 {
      FreeBeforeAscending(m, n - 1, duration);
      var gap := FromStartEnd(m[n - 2].end, m[n - 1].start, false);
      var tail := if gap.start < gap.end then Keep(gap, duration) else [];
      assert m[n - 2].start < m[n - 2].end <= m[n - 1].start;
      AscendingConcat(FreeBefore(m, n - 1, duration), tail);
    }
  }

  /** Each free range is the one before the first busy range, a gap between
      busy ranges, or the one after the last busy range. */
  lemma FreeTimesElement(m: seq<TimeRange>, duration: int, g: TimeRange)
    requires |m| > 0
    requires g in FreeTimes(m, duration)
    ensures g.Duration() >= duration
    ensures
      g == TimeRange(START_OF_DAY, m[0].start) ||
      g == TimeRange(m[|m| - 1].end, END_OF_DAY + 1) ||
      exists i :: GapAt(m, i, duration, g)
  {
    var last := Keep(FromStartEnd(m[|m| - 1].end, END_OF_DAY, true), duration);
    FreeBeforeMembers(m, |m|, duration, g);
    assert g in FreeBefore(m, |m|, duration) || g in last;
  }

  // ---------------------------------------------------------------------
  // The free ranges answer the query.

  /** Every free range lies within the day and is long enough. */
  lemma FreeTimesLongEnoughInDay(m: seq<TimeRange>, duration: int)
    requires Normalized(m) && |m| > 0
    ensures LongEnoughInDay(FreeTimes(m, duration), duration)
  {
    var res := FreeTimes(m, duration);
    forall k | 0 <= k < |res|
      ensures START_OF_DAY <= res[k].start <= res[k].end <= END_OF_DAY + 1 && res[k].Duration() >= duration
      ensures res[k].start < res[k].end || res[k].start == START_OF_DAY || res[k].end == END_OF_DAY + 1
    {
      FreeTimesElement(m, duration, res[k]);
    }
  }

  /** No free range shares a minute with a busy range. */
  lemma FreeTimesAvoidBusy(m: seq<TimeRange>, duration: int)
    requires Normalized(m) && |m| > 0
    ensures AvoidsBusy(FreeTimes(m, duration), m)
  {
    var res := FreeTimes(m, duration);
    forall k, t | 0 <= k < |res| && res[k].start <= t < res[k].end
      ensures !Covers(m, t)
    {
      FreeTimesElement(m, duration, res[k]);
      if res[k] == TimeRange(START_OF_DAY, m[0].start) {
        NotCoveredBefore(m, t);
      } else if res[k] == TimeRange(m[|m| - 1].end, END_OF_DAY + 1) {
        NotCoveredAfter(m, t);
      } else {
        var i :| GapAt(m, i, duration, res[k]);
        NotCoveredBetween(m, i, t);
      }
    }
  }

  /** No free range can be widened. */
  lemma FreeTimesMaximal(m: seq<TimeRange>, duration: int)
    requires Normalized(m) && |m| > 0
    ensures Maximal(FreeTimes(m, duration), m)
  {
    var res := FreeTimes(m, duration);
    var n := |m| - 1;
    forall k | 0 <= k < |res|
      ensures res[k].start == START_OF_DAY || Covers(m, res[k].start - 1)
      ensures res[k].end == END_OF_DAY + 1 || Covers(m, res[k].end)
    {
      FreeTimesElement(m, duration, res[k]);
      if res[k] == TimeRange(START_OF_DAY, m[0].start) {
        CoveredAt(m, 0, m[0].start);
      } else if res[k] == TimeRange(m[n].end, END_OF_DAY + 1) {
        CoveredAt(m, n, m[n].end - 1);
      } else {
        var i :| GapAt(m, i, duration, res[k]);
        CoveredAt(m, i, m[i].end - 1);
        CoveredAt(m, i + 1, m[i + 1].start);
      }
    }
  }

  /** The free ranges come in ascending order. */
  lemma FreeTimesAscending(m: seq<TimeRange>, duration: int)
    requires Normalized(m) && |m| > 0
    ensures Ascending(FreeTimes(m, duration))
  {
    var n := |m| - 1;
    var last := Keep(FromStartEnd(m[n].end, END_OF_DAY, true), duration);
    FreeBeforeAscending(m, |m|, duration);
    assert m[n].start < m[n].end;
    AscendingConcat(FreeBefore(m, |m|, duration), last);
  }

  /** The last busy range that ends at or before minute a. */
  lemma LastEndingBefore(m: seq<TimeRange>, a: int) returns (i: int)
    requires Normalized(m) && |m| > 0
    requires m[0].end <= a
    ensures 0 <= i < |m| && m[i].end <= a
    ensures i == |m| - 1 || a < m[i + 1].end
  {
    i := 0;
    while i < |m| - 1 && m[i + 1].end <= a
      invariant 0 <= i < |m| && m[i].end <= a
    {
      i := i + 1;
    }
  }

  /** Every free window at least duration long lies within a free range. */
  lemma FreeTimesComplete(m: seq<TimeRange>, duration: int)
    requires Normalized(m) && |m| > 0
    ensures Complete(FreeTimes(m, duration), m, duration)
  {
    var res := FreeTimes(m, duration);
    var n := |m| - 1;
    var before := FreeBefore(m, |m|, duration);
    var last := Keep(FromStartEnd(m[n].end, END_OF_DAY, true), duration);
    forall a, b | START_OF_DAY <= a < b <= END_OF_DAY + 1 && b - a >= duration && Free(m, a, b)
      ensures exists k :: 0 <= k < |res| && res[k].start <= a && b <= res[k].end
    {
      var g: TimeRange;
      if a < m[0].start {
        CoveredAt(m, 0, m[0].start);
        assert b <= m[0].start;
        g := TimeRange(START_OF_DAY, m[0].start);
        FreeBeforeMembers(m, |m|, duration, g);
        assert g in before;
      } else {
        if a < m[0].end {
          CoveredAt(m, 0, a);
          assert false;
        }
        var i := LastEndingBefore(m, a);
        if i == n {
          g := TimeRange(m[n].end, END_OF_DAY + 1);
          assert g in last;
        } else {
          if m[i + 1].start <= a {
            CoveredAt(m, i + 1, a);
            assert false;
          }
          CoveredAt(m, i + 1, m[i + 1].start);
          assert b <= m[i + 1].start;
          g := TimeRange(m[i].end, m[i + 1].start);
          assert GapAt(m, i, duration, g);
          FreeBeforeMembers(m, |m|, duration, g);
          assert g in before;
        }
      }
      assert g in res && g.start <= a && b <= g.end;
      var k :| 0 <= k < |res| && res[k] == g;
    }
  }

  /** For a duration of zero or less, the walk keeps the empty range before a
      busy range that starts the day and after one that ends it. */
  lemma FreeTimesEmptyEdges(m: seq<TimeRange>, duration: int)
    requires Normalized(m) && |m| > 0
    ensures EmptyEdges(FreeTimes(m, duration), m, duration)
  {
    var n := |m| - 1;
    if duration <= 0 && Covers(m, START_OF_DAY) {
      if START_OF_DAY < m[0].start {
        NotCoveredBefore(m, START_OF_DAY);
      }
      FreeBeforeMembers(m, |m|, duration, TimeRange(START_OF_DAY, START_OF_DAY));
    }
    if duration <= 0 && Covers(m, END_OF_DAY) {
      if m[n].end <= END_OF_DAY {
        NotCoveredAfter(m, END_OF_DAY);
      }
      assert FromStartEnd(m[n].end, END_OF_DAY, true) == TimeRange(END_OF_DAY + 1, END_OF_DAY + 1);
    }
  }

  /** The free ranges around a normalized busy list answer the query. */
  lemma FreeTimesAreSlots(m: seq<TimeRange>, duration: int)
    requires Normalized(m) && |m| > 0
    ensures AvailableSlots(FreeTimes(m, duration), m, duration)
  {
    FreeTimesLongEnoughInDay(m, duration);
    FreeTimesAvoidBusy(m, duration);
    FreeTimesMaximal(m, duration);
    FreeTimesAscending(m, duration);
    FreeTimesEmptyEdges(m, duration);
    FreeTimesComplete(m, duration);
  }

  // ---------------------------------------------------------------------
  // The slot predicates pin the answer down.

  /** Some window of the day at least duration long is free. */
  ghost predicate FitsSomewhere(busy: seq<TimeRange>, duration: int) {
    exists a, b :: START_OF_DAY <= a < b <= END_OF_DAY + 1 && b - a >= duration && Free(busy, a, b)
  }

  /** For a meeting of positive length, there is a slot exactly when the
      meeting fits somewhere in the day. */
  lemma SlotsNonemptyIff(res: seq<TimeRange>, busy: seq<TimeRange>, duration: int)
    requires 0 < duration
    requires AvailableSlots(res, busy, duration)
    ensures res != [] <==> FitsSomewhere(busy, duration)
  {
    if res != [] {
      assert START_OF_DAY <= res[0].start < res[0].end <= END_OF_DAY + 1;
      assert Free(busy, res[0].start, res[0].end);
    }
  }

  /** For a duration of zero or less there is always a slot: the empty
      range at the start of the day when its first minute is busy, otherwise
      a range holding that free minute. */
  lemma SlotsNonemptyWithoutLength(res: seq<TimeRange>, busy: seq<TimeRange>, duration: int)
    requires duration <= 0
    requires AvailableSlots(res, busy, duration)
    ensures res != []
  {
    if !Covers(busy, START_OF_DAY) {
      assert Free(busy, START_OF_DAY, START_OF_DAY + 1);
    }
  }

  /** A free range q around a range r that cannot grow to the left starts
      where r starts. */
  lemma SameStart(r: TimeRange, q: TimeRange, busy: seq<TimeRange>)
    requires START_OF_DAY <= q.start <= r.start < r.end <= q.end
    requires Free(busy, q.start, q.end)
    requires r.start == START_OF_DAY || Covers(busy, r.start - 1)
    ensures q.start == r.start
  {
    if r.start != START_OF_DAY {
      assert !(q.start <= r.start - 1 < q.end);
    }
  }

  /** A free range q around a range r that cannot grow to the right ends
      where r ends. */
  lemma SameEnd(r: TimeRange, q: TimeRange, busy: seq<TimeRange>)
    requires q.start <= r.start < r.end <= q.end <= END_OF_DAY + 1
    requires Free(busy, q.start, q.end)
    requires r.end == END_OF_DAY + 1 || Covers(busy, r.end)
    ensures q.end == r.end
  {
    if r.end != END_OF_DAY + 1 {
      assert !(q.start <= r.end < q.end);
    }
  }

  /** An empty slot of one answer, which sits at an edge of the day, is a
      slot of any other answer. */
  lemma EmptySlotInOther(r: TimeRange, r2: seq<TimeRange>, busy: seq<TimeRange>, duration: int)
    requires r.start == r.end && r.Duration() >= duration
    requires r.start == START_OF_DAY || r.end == END_OF_DAY + 1
    requires r.start == START_OF_DAY || Covers(busy, r.start - 1)
    requires r.end == END_OF_DAY + 1 || Covers(busy, r.end)
    requires EmptyEdges(r2, busy, duration)
    ensures r in r2
  {
  }

  /** A slot of one answer is a slot of any other answer. */
  lemma SlotInOther(r1: seq<TimeRange>, r2: seq<TimeRange>, busy: seq<TimeRange>, duration: int, i: int)
    requires AvailableSlots(r1, busy, duration) && AvailableSlots(r2, busy, duration)
    requires 0 <= i < |r1|
    ensures r1[i] in r2
  {
    var r := r1[i];
    assert START_OF_DAY <= r.start <= r.end <= END_OF_DAY + 1 && r.Duration() >= duration;
    assert r.start < r.end || r.start == START_OF_DAY || r.end == END_OF_DAY + 1;
    assert r.start == START_OF_DAY || Covers(busy, r.start - 1);
    assert r.end == END_OF_DAY + 1 || Covers(busy, r.end);
    if r.start == r.end {
      EmptySlotInOther(r, r2, busy, duration);
      return;
    }
    assert Free(busy, r.start, r.end);
    var k :| 0 <= k < |r2| && r2[k].start <= r.start && r.end <= r2[k].end;
    var q := r2[k];
    assert START_OF_DAY <= q.start && q.end <= END_OF_DAY + 1;
    assert Free(busy, q.start, q.end);
    SameStart(r, q, busy);
    SameEnd(r, q, busy);
  }

  /** The ranges of an ascending list start in strictly ascending order. */
  ghost predicate Ordered(x: seq<TimeRange>) {
    Ascending(x) && forall i :: 0 <= i < |x| ==> x[i].start <= x[i].end
  }

  /** Every range of x is a range of y. */
  ghost predicate Within(x: seq<TimeRange>, y: seq<TimeRange>) {
    forall i :: 0 <= i < |x| ==> x[i] in y
  }

  /** The first range of an ordered list is the one that starts first. */
  lemma FirstStartsFirst(x: seq<TimeRange>, i: int)
    requires Ordered(x) && 0 < i < |x|
    ensures x[0].start < x[i].start
  {
    assert x[0].end < x[i].start;
  }

  /** Two ordered lists holding the same ranges begin with the same range. */
  lemma SameHead(x: seq<TimeRange>, y: seq<TimeRange>)
    requires Ordered(x) && Ordered(y) && Within(x, y) && Within(y, x)
    requires x != [] && y != []
    ensures x[0] == y[0]
  {
    var k :| 0 <= k < |y| && y[k] == x[0];
    var l :| 0 <= l < |x| && x[l] == y[0];
    if k > 0 {
      FirstStartsFirst(y, k);
      if l > 0 {
        FirstStartsFirst(x, l);
      }
    }
  }

  /** Dropping the shared first range keeps the rest within the other's rest. */
  lemma SameTail(x: seq<TimeRange>, y: seq<TimeRange>)
    requires Ordered(x) && Within(x, y)
    requires x != [] && y != [] && x[0] == y[0]
    ensures Within(x[1..], y[1..])
  {
    forall i | 0 <= i < |x| - 1
      ensures x[1..][i] in y[1..]
    {
      var m :| 0 <= m < |y| && y[m] == x[i + 1];
      FirstStartsFirst(x, i + 1);
      assert y[1..][m - 1] == y[m];
    }
  }

  lemma OrderedTail(x: seq<TimeRange>)
    requires Ordered(x) && x != []
    ensures Ordered(x[1..])
  {
    var t := x[1..];
    forall i, j | 0 <= i < j < |t|
      ensures t[i].end < t[j].start
    {
      assert t[i] == x[i + 1] && t[j] == x[j + 1];
    }
  }

  lemma EmptyTogether(x: seq<TimeRange>, y: seq<TimeRange>)
    requires Within(x, y) && Within(y, x)
    ensures x == [] <==> y == []
  {
    if x != [] {
      assert x[0] in y;
    }
    if y != [] {
      assert y[0] in x;
    }
  }

  /** Two ordered lists holding the same ranges are equal. */
  lemma {:induction false} OrderedSameRanges(x: seq<TimeRange>, y: seq<TimeRange>)
    requires Ordered(x) && Ordered(y) && Within(x, y) && Within(y, x)
    ensures x == y
    decreases |x|
  {
    EmptyTogether(x, y);
    if x != [] {
      SameHead(x, y);
      SameTail(x, y);
      SameTail(y, x);
      OrderedTail(x);
      OrderedTail(y);
      OrderedSameRanges(x[1..], y[1..]);
      SameHeadSameTail(x, y);
    }
  }

  lemma SameHeadSameTail(x: seq<TimeRange>, y: seq<TimeRange>)
    requires x != [] && y != [] && x[0] == y[0] && x[1..] == y[1..]
    ensures x == y
  {
    assert x == [x[0]] + x[1..];
    assert y == [y[0]] + y[1..];
  }

  /** There is at most one answer. */
  lemma SlotsUnique(r1: seq<TimeRange>, r2: seq<TimeRange>, busy: seq<TimeRange>, duration: int)
    requires AvailableSlots(r1, busy, duration) && AvailableSlots(r2, busy, duration)
    ensures r1 == r2
  {
    forall i | 0 <= i < |r1|
      ensures r1[i] in r2
    {
      SlotInOther(r1, r2, busy, duration, i);
    }
    forall j | 0 <= j < |r2|
      ensures r2[j] in r1
    {
      SlotInOther(r2, r1, busy, duration, j);
    }
    OrderedSameRanges(r1, r2);
  }

  // ---------------------------------------------------------------------
  // The walk over the busy list.

  /** Among the ranges sorted by end, the last ends where the last range of the
      normalized list ends. */
  lemma LastByEndIsLatest(m: seq<TimeRange>, byEnd: seq<TimeRange>)
    requires Normalized(m) && |m| > 0
    requires SortedBy(byEnd, ByEnd) && multiset(byEnd) == multiset(m)
    ensures |byEnd| == |m| && byEnd[|byEnd| - 1].end == m[|m| - 1].end
  {
    assert |byEnd| == |multiset(byEnd)| == |m|;
    var n := |m| - 1;
    assert byEnd[n] in multiset(m);
    var j :| 0 <= j < |m| && m[j] == byEnd[n];
    if j < n {
      assert m[j].end <= m[n].start;
    }
    assert m[n] in multiset(byEnd);
    var p :| 0 <= p < |byEnd| && byEnd[p] == m[n];
  }

  /** Walks the gaps of the merged busy list from the start of the day to its
      end, keeping those at least duration long. */
  method FindFreeTimes(busyTimeRanges: seq<TimeRange>, sortByEndTime: seq<TimeRange>, duration: int)
    returns (freeTimes: seq<TimeRange>)
    requires |busyTimeRanges| > 0 && Normalized(busyTimeRanges)
    requires SortedBy(sortByEndTime, ByEnd) && multiset(sortByEndTime) == multiset(busyTimeRanges)
    ensures freeTimes == FreeTimes(busyTimeRanges, duration)
  {
    var m := busyTimeRanges;
    freeTimes := [];
    var startIndex, endIndex := 0, 0;
    var numBusyRanges := |m|;

    var freeTime := FromStartEnd(START_OF_DAY, m[endIndex].start, false);
    if freeTime.Duration() >= duration {
      freeTimes := freeTimes + [freeTime];
    }
    endIndex := endIndex + 1;

    while startIndex < numBusyRanges && endIndex < numBusyRanges
      invariant 0 <= startIndex && endIndex == startIndex + 1 && endIndex <= numBusyRanges
      invariant freeTimes == FreeBefore(m, endIndex, duration)
    {
      var start := m[startIndex].end;
      var end := m[endIndex].start;
      assert start <= end;

      if start > end {
        assert false;
        endIndex := endIndex + 1;
      } else if start == end {
        assert FreeBefore(m, endIndex + 1, duration) == FreeBefore(m, endIndex, duration) + [];
        startIndex := startIndex + 1;
        endIndex := endIndex + 1;
      } else {
        freeTime := FromStartEnd(start, end, false);
        assert FreeBefore(m, endIndex + 1, duration) == FreeBefore(m, endIndex, duration) + Keep(freeTime, duration);
        if freeTime.Duration() >= duration {
          freeTimes := freeTimes + [freeTime];
        }
        startIndex := startIndex + 1;
        endIndex := endIndex + 1;
      }
    }

    LastByEndIsLatest(m, sortByEndTime);
    freeTime := FromStartEnd(sortByEndTime[numBusyRanges - 1].end, END_OF_DAY, true);
    if freeTime.Duration() >= duration {
      freeTimes := freeTimes + [freeTime];
    }
  }
}
