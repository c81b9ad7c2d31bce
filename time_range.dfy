/** Minute ranges within one day, as the meeting finder uses them.

    The source of the original range class is not available; what is written
    here is the interval meaning the finder relies on: a range is the
    half-open interval of minutes [start, end), the day runs from minute
    START_OF_DAY to minute END_OF_DAY inclusive, and WHOLE_DAY is the range of
    every minute of the day. */
module TimeRanges {

  const START_OF_DAY: int := 0
  /** The last minute of the day (23:59). */
  const END_OF_DAY: int := 24 * 60 - 1

  /** The half-open range of minutes [start, end). */
  datatype TimeRange = TimeRange(start: int, end: int) {

    function Duration(): int {
      end - start
    }

    /** Minute t lies in this range. */
    predicate Includes(t: int) {
      start <= t < end
    }

    /** Every minute of other lies in this range. */
    predicate Contains(other: TimeRange) {
      start <= other.start && other.end <= end
    }

    /** Each range starts before the other ends. */
    predicate Overlaps(other: TimeRange) {
      start < other.end && other.start < end
    }
  }

  const WHOLE_DAY: TimeRange := TimeRange(START_OF_DAY, END_OF_DAY + 1)

  /** The range from s to e, with e itself included when inclusive holds. */
  function FromStartEnd(s: int, e: int, inclusive: bool): TimeRange {
    if inclusive then TimeRange(s, e + 1) else TimeRange(s, e)
  }

  /** A range that lies within the day and holds at least one minute: the shape
      of every event range this model accepts. */
  predicate Proper(r: TimeRange) {
    START_OF_DAY <= r.start < r.end <= END_OF_DAY + 1
  }

  /** Some range of s includes minute t. */
  ghost predicate Covers(s: seq<TimeRange>, t: int) {
    exists i :: 0 <= i < |s| && s[i].Includes(t)
  }

  /** No range of s includes any minute of [a, b). */
  ghost predicate Free(s: seq<TimeRange>, a: int, b: int) {
    forall t :: a <= t < b ==> !Covers(s, t)
  }

  /** For ranges holding at least one minute each, Overlaps means that the
      two share a minute. */
  lemma OverlapsIffSharedMinute(a: TimeRange, b: TimeRange)
    requires a.start < a.end && b.start < b.end
    ensures a.Overlaps(b) <==> exists t :: a.Includes(t) && b.Includes(t)
  {
    if a.Overlaps(b) {
      var t := if a.start < b.start then b.start else a.start;
      assert a.Includes(t) && b.Includes(t);
    }
  }

  /** For a range holding at least one minute, Contains means that every minute
      of it lies in the containing range. */
  lemma ContainsIffSubset(a: TimeRange, b: TimeRange)
    requires b.start < b.end
    ensures a.Contains(b) <==> forall t :: b.Includes(t) ==> a.Includes(t)
  {
    if forall t :: b.Includes(t) ==> a.Includes(t) {
      assert b.Includes(b.start) && b.Includes(b.end - 1);
    }
  }

  lemma CoversAppend(s: seq<TimeRange>, x: TimeRange, t: int)
    ensures Covers(s + [x], t) <==> Covers(s, t) || x.Includes(t)
  {
    if Covers(s + [x], t) {
      var i :| 0 <= i < |s + [x]| && (s + [x])[i].Includes(t);
      if i < |s| {
        assert s[i].Includes(t);
      }
    }
    if Covers(s, t) {
      var i :| 0 <= i < |s| && s[i].Includes(t);
      assert (s + [x])[i] == s[i];
    }
    if x.Includes(t) {
      assert (s + [x])[|s|] == x;
    }
  }

  /** Reordering a list of ranges does not change the minutes it covers. */
  lemma CoversPermutation(s: seq<TimeRange>, u: seq<TimeRange>, t: int)
    requires multiset(s) == multiset(u)
    ensures Covers(s, t) <==> Covers(u, t)
  {
    if Covers(s, t) {
      var i :| 0 <= i < |s| && s[i].Includes(t);
      assert s[i] in multiset(u);
      var j :| 0 <= j < |u| && u[j] == s[i];
    }
    if Covers(u, t) {
      var j :| 0 <= j < |u| && u[j].Includes(t);
      assert u[j] in multiset(s);
      var i :| 0 <= i < |s| && s[i] == u[j];
    }
  }

  /** The two orders the finder sorts by: by start minute and by end minute. */
  datatype Order = ByStart | ByEnd

  function Key(order: Order, r: TimeRange): int {
    match order
    case ByStart => r.start
    case ByEnd => r.end
  }

  predicate SortedBy(s: seq<TimeRange>, order: Order) {
    forall i, j :: 0 <= i < j < |s| ==> Key(order, s[i]) <= Key(order, s[j])
  }

  /** Every range of s has a key of at least k. */
  predicate KeysAtLeast(k: int, s: seq<TimeRange>, order: Order) {
    forall i :: 0 <= i < |s| ==> k <= Key(order, s[i])
  }

  lemma KeysAtLeastPermutation(k: int, s: seq<TimeRange>, u: seq<TimeRange>, order: Order)
    requires KeysAtLeast(k, s, order) && multiset(u) <= multiset(s)
    ensures KeysAtLeast(k, u, order)
  {
    forall i | 0 <= i < |u|
      ensures k <= Key(order, u[i])
    {
      assert u[i] in multiset(s);
      var j :| 0 <= j < |s| && s[j] == u[i];
    }
  }

  lemma PrependSorted(h: TimeRange, s: seq<TimeRange>, order: Order)
    requires SortedBy(s, order) && KeysAtLeast(Key(order, h), s, order)
    ensures SortedBy([h] + s, order)
  {
    var r := [h] + s;
    forall i, j | 0 <= i < j < |r|
      ensures Key(order, r[i]) <= Key(order, r[j])
    {
      assert r[j] == s[j - 1];
      if i > 0 {
        assert r[i] == s[i - 1];
      }
    }
  }

  /** Putting h in front of a sorted list that holds the ranges of a sorted
      list after h, and x, which comes after h too. */
  lemma PrependBelow(h: TimeRange, x: TimeRange, tail: seq<TimeRange>, rest: seq<TimeRange>, order: Order)
    requires SortedBy([h] + tail, order) && Key(order, h) < Key(order, x)
    requires SortedBy(rest, order) && multiset(rest) == multiset(tail) + multiset{x}
    ensures SortedBy([h] + rest, order)
    ensures multiset([h] + rest) == multiset([h] + tail) + multiset{x}
  {
    forall i | 0 <= i < |tail| + 1
      ensures Key(order, h) <= Key(order, (tail + [x])[i])
    {
      var ht := [h] + tail;
      if i < |tail| {
        assert ht[0] == h && ht[i + 1] == tail[i] == (tail + [x])[i];
        assert Key(order, ht[0]) <= Key(order, ht[i + 1]);
      } else {
        assert (tail + [x])[i] == x;
      }
    }
    assert multiset(rest) == multiset(tail + [x]);
    KeysAtLeastPermutation(Key(order, h), tail + [x], rest, order);
    PrependSorted(h, rest, order);
  }

  /** s with x put in its place by the order. */
  function Insert(x: TimeRange, s: seq<TimeRange>, order: Order): (r: seq<TimeRange>)
    requires SortedBy(s, order)
    ensures SortedBy(r, order)
    ensures multiset(r) == multiset(s) + multiset{x}
  {
    if s == [] then [x]
    else if Key(order, x) <= Key(order, s[0]) then
      PrependSorted(x, s, order);
      [x] + s
    else
      assert s == [s[0]] + s[1..];
      var rest := Insert(x, s[1..], order);
      PrependBelow(s[0], x, s[1..], rest, order);
      [s[0]] + rest
  }

  /** The list s sorted by the given order: a permutation of s whose keys
      ascend. */
  function SortBy(s: seq<TimeRange>, order: Order): (r: seq<TimeRange>)
    ensures SortedBy(r, order)
    ensures multiset(r) == multiset(s)
  {
    if s == [] then []
    else
      assert s == [s[0]] + s[1..];
      Insert(s[0], SortBy(s[1..], order), order)
  }
}
