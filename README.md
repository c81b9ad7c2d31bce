# Meeting finder (FindMeetingQuery) in Dafny

This project models the meeting-slot finder of the week-5 walkthrough,
`FindMeetingQuery`, and proves what its answer means.

The finder takes the events of one day and a meeting request. Each event is a
time range plus a set of attendees. The request has a duration in minutes, the
mandatory attendees and the optional attendees. The finder answers with the
ranges of the day in which the meeting fits. It works in four steps:

1. `findBusyTimes` gathers the ranges of the events that a considered person attends.
2. `findMeetingTimes` sorts those ranges by start, and `mergeBusyTimes` merges the
   overlapping ones.
3. `sortByEnd` orders the merged list by end.
4. `findFreeTimes` walks the gaps from the start of the day to its end. It keeps
   those at least the requested duration long.

`query` adds the optional attendees to the considered people when there are any.

The source of the range class is not available, so only its interval meaning
is assumed (`time_range.dfy`):
- A range is the half-open interval of minutes `[start, end)`, and its duration is `end - start`.
- `START_OF_DAY` is 0 and `END_OF_DAY` is 1439, the last minute of the day.
- `WHOLE_DAY` is `[0, 1440)`.
- `fromStartEnd(s, e, inclusive)` is `[s, e + 1)` when `inclusive` holds and `[s, e)` otherwise.
- `contains` and `overlaps` have the usual interval meaning. Two lemmas tie them to minutes.

The model keeps the source's form:
- `findBusyTimes`, `mergeBusyTimes`, `findFreeTimes`, `findMeetingTimes` and
  `query` are methods with the source's loops, branches and early returns.
- Their lists are `seq` values that the methods reassign.
- Each method is proved against a specification:
  - `BusyTimes` says which ranges are gathered.
  - The merged list is normalized and covers the same minutes as the input.
  - `FreeTimes` says which gaps are kept.
  - `AvailableSlots` says what an answer is.
- `AvailableSlots(res, busy, d)` holds when all of the following hold:
  - every range of `res` lies in the day and is at least `d` long;
  - only a range at an edge of the day, `[0, 0)` or `[1440, 1440)`, may hold no minute;
  - no range of `res` shares a minute with `busy`;
  - no range of `res` can be widened;
  - for `d` of zero or less, the empty range at an edge of the day is in `res` when a busy range touches that edge;
  - the ranges of `res` are in ascending order;
  - every free window of the day at least `d` long lies inside one of them.
- At most one list satisfies it (`SlotsUnique`). For a busy list of proper
  ranges, `FindMeetingTimes` returns one (through `FreeTimesAreSlots`), so the
  answer is determined.

Files:
- `time_range.dfy`: ranges, minute coverage, and sorting by start or end.
- `busy_times.dfy`: events, requests and `findBusyTimes`.
- `merge.dfy`: `mergeBusyTimes`.
- `free_times.dfy` (module `Slots`): `findFreeTimes` and the slot predicates.
- `find_meeting_query.dfy`: `findMeetingTimes`, `query`, and the finding below.

## Model

| member | source | states |
|---|---|---|
| TimeRanges.OverlapsIffSharedMinute | walkthroughs/week-5-tdd/project/src/main/java/com/google/sps/FindMeetingQuery.java:104 | for ranges holding a minute each, the overlap test the merge uses holds exactly when the two ranges share a minute |
| TimeRanges.ContainsIffSubset | walkthroughs/week-5-tdd/project/src/main/java/com/google/sps/FindMeetingQuery.java:102 | for a range holding a minute, the containment test the merge uses holds exactly when each of its minutes lies in the other range |
| TimeRanges.SortBy | walkthroughs/week-5-tdd/project/src/main/java/com/google/sps/FindMeetingQuery.java:122-127 | sorting by end (and, at line 76, by start) yields a permutation of the input whose keys ascend |
| TimeRanges.CoversPermutation | walkthroughs/week-5-tdd/project/src/main/java/com/google/sps/FindMeetingQuery.java:76 | reordering the busy list does not change which minutes are busy |
| Busy.FindBusyTimes | walkthroughs/week-5-tdd/project/src/main/java/com/google/sps/FindMeetingQuery.java:129-144 | the nested loops append the range of each event with at least one considered attendee, in event order, and nothing else |
| Busy.BusyTimesExactlyOnce | walkthroughs/week-5-tdd/project/src/main/java/com/google/sps/FindMeetingQuery.java:132-141 | each event's range enters the busy list exactly once, at an ascending position, if and only if one of its attendees is considered |
| Busy.BusyTimesCovers | walkthroughs/week-5-tdd/project/src/main/java/com/google/sps/FindMeetingQuery.java:132-141 | a minute is busy exactly when some event of a considered person includes it |
| Busy.BusyTimesEmptyIff | walkthroughs/week-5-tdd/project/src/main/java/com/google/sps/FindMeetingQuery.java:129-143 | the busy list is empty exactly when no event has a considered attendee |
| Merge.MergeBusyTimes | walkthroughs/week-5-tdd/project/src/main/java/com/google/sps/FindMeetingQuery.java:85-120 | for a nonempty list of proper ranges sorted by start, the result is nonempty, its ranges are proper, ascending and pairwise disjoint, and it covers exactly the minutes of the input |
| Merge.ContainedStep | walkthroughs/week-5-tdd/project/src/main/java/com/google/sps/FindMeetingQuery.java:102-103 | skipping a range the current one contains keeps the merge invariant |
| Merge.OverlapStep | walkthroughs/week-5-tdd/project/src/main/java/com/google/sps/FindMeetingQuery.java:104-107 | extending the open range to an overlapping range's end keeps the merge invariant |
| Merge.SeparateStep | walkthroughs/week-5-tdd/project/src/main/java/com/google/sps/FindMeetingQuery.java:108-113 | closing the open range before a separate range and opening that one keeps the merge invariant |
| Merge.LastStep | walkthroughs/week-5-tdd/project/src/main/java/com/google/sps/FindMeetingQuery.java:117-119 | closing the last open range yields a normalized list covering exactly the input's minutes |
| Slots.FindFreeTimes | walkthroughs/week-5-tdd/project/src/main/java/com/google/sps/FindMeetingQuery.java:147-188 | the walk returns the long-enough gaps: first the one before the first busy range, then those between consecutive busy ranges, then the one after the last busy range |
| Slots.LastByEndIsLatest | walkthroughs/week-5-tdd/project/src/main/java/com/google/sps/FindMeetingQuery.java:182 | the last range of the list sorted by end ends where the last merged range ends |
| Slots.FreeBeforeMembers | walkthroughs/week-5-tdd/project/src/main/java/com/google/sps/FindMeetingQuery.java:155-179 | a range is among the gaps kept before the end of the day exactly when it is the long-enough range before the first busy range or a nonempty long-enough gap between consecutive busy ranges |
| Slots.FreeTimesLongEnoughInDay | walkthroughs/week-5-tdd/project/src/main/java/com/google/sps/FindMeetingQuery.java:155-185 | every free range lies within the day and is at least the requested duration long; only the ranges at the day's edges may be empty, since an interior gap with no minute is skipped (lines 168-170) |
| Slots.FreeTimesAvoidBusy | walkthroughs/week-5-tdd/project/src/main/java/com/google/sps/FindMeetingQuery.java:155-185 | no free range shares a minute with a busy range |
| Slots.FreeTimesMaximal | walkthroughs/week-5-tdd/project/src/main/java/com/google/sps/FindMeetingQuery.java:155-185 | every free range is bounded by the day's edges or by busy minutes, so it cannot be widened |
| Slots.FreeTimesAscending | walkthroughs/week-5-tdd/project/src/main/java/com/google/sps/FindMeetingQuery.java:155-185 | the free ranges come in ascending order, each ending before the next starts |
| Slots.FreeTimesEmptyEdges | walkthroughs/week-5-tdd/project/src/main/java/com/google/sps/FindMeetingQuery.java:156-159 | for a duration of zero or less, the empty range before a busy range starting at minute 0 is kept, and so is the empty range after a busy range ending at minute 1440 (lines 182-185) |
| Slots.FreeTimesComplete | walkthroughs/week-5-tdd/project/src/main/java/com/google/sps/FindMeetingQuery.java:155-185 | every free window of the day at least the requested duration long lies inside a returned range |
| Slots.FreeTimesAreSlots | walkthroughs/week-5-tdd/project/src/main/java/com/google/sps/FindMeetingQuery.java:147-188 | the free ranges around a merged busy list are an answer: long enough, in the day, empty only at the day's edges, free, maximal, ascending, keeping the empty edge ranges, and complete |
| Slots.WholeDayWhenNothingBusy | walkthroughs/week-5-tdd/project/src/main/java/com/google/sps/FindMeetingQuery.java:72-74 | with nothing busy, the whole day is the answer for any duration up to a day |
| Slots.AvailableSlotsSameCover | walkthroughs/week-5-tdd/project/src/main/java/com/google/sps/FindMeetingQuery.java:76-81 | an answer for the merged busy list is an answer for any list covering the same minutes |
| Slots.SlotsNonemptyIff | walkthroughs/week-5-tdd/project/src/main/java/com/google/sps/FindMeetingQuery.java:59-63 | for a positive duration, an answer is nonempty exactly when some free window of the day is long enough |
| Slots.SlotsNonemptyWithoutLength | walkthroughs/week-5-tdd/project/src/main/java/com/google/sps/FindMeetingQuery.java:59-63 | for a duration of zero or less an answer is never empty, so the empty-list branch at line 61 is taken only for a positive duration |
| Slots.SlotsUnique | walkthroughs/week-5-tdd/project/src/main/java/com/google/sps/FindMeetingQuery.java:71-82 | for any duration, two answers for the same busy list are equal |
| FindMeetingQuery.FindMeetingTimes | walkthroughs/week-5-tdd/project/src/main/java/com/google/sps/FindMeetingQuery.java:71-82 | with nothing busy the answer is the whole day; otherwise sorting, merging and walking the gaps yields an answer for the busy ranges as given |
| FindMeetingQuery.Query | walkthroughs/week-5-tdd/project/src/main/java/com/google/sps/FindMeetingQuery.java:40-68 | too long a meeting gets nothing; no events, or no event of a considered person, gives the whole day; otherwise the answer is an answer for the busy ranges of mandatory plus optional attendees together; by SlotsNonemptyIff, for a positive duration it is empty when the meeting fits nowhere for all of them, with no fallback to the mandatory attendees |
| FindMeetingQuery.SlotsAvoidRelevantEvents | walkthroughs/week-5-tdd/project/src/main/java/com/google/sps/FindMeetingQuery.java:40-68 | no returned range overlaps an event that a considered person attends |
| FindMeetingQuery.SlotsHoldFreeWindows | walkthroughs/week-5-tdd/project/src/main/java/com/google/sps/FindMeetingQuery.java:40-68 | every long-enough window of the day that overlaps no event of a considered person lies inside a returned range |
| FindMeetingQuery.NoFallbackExample | walkthroughs/week-5-tdd/project/src/main/java/com/google/sps/FindMeetingQuery.java:59-63 | with an optional attendee busy all day, the meeting fits nowhere for everyone, so the answer is empty, although the meeting fits the mandatory attendee anywhere |
| FindMeetingQuery.QueryWithFallback | walkthroughs/week-5-tdd/project/src/main/java/com/google/sps/FindMeetingQuery.java:52-67 | corrected query: too long a meeting gets nothing; no event of a considered person gives the whole day; otherwise the answer is for everyone's busy ranges, except that a meeting of positive length that fits nowhere for everyone gets the answer for the mandatory attendees' busy ranges (`FallbackPeople`) |
| FindMeetingQuery.FallbackExample | walkthroughs/week-5-tdd/project/src/main/java/com/google/sps/FindMeetingQuery.java:59-63 | on the same input, the corrected query answers the whole day |

## Left out

- The servlet (`DataServlet.java`) and the browser script (`script.js`) are not part of this model. They are datastore, HTTP and DOM glue with no algorithm.
- The range, event and request classes are not part of this model. Only the interval meaning listed above is assumed. Nothing is claimed about their behaviour on empty ranges beyond that.
- Query: requires every range of an event a considered person attends to hold at least one minute and lie within the day. Other events' ranges are never read (lines 132-141), so they are unconstrained. An event ending after the day would make the last gap start after the day ends: `fromStartEnd(1500, 1439, true)` is `[1500, 1440)`. The in-day clause of the answer predicate cannot describe such a range. An empty event range is left out because the merge treats it through the range class's `contains` and `overlaps`, whose source is not available.
- FindMeetingTimes: requires the same of the busy ranges it is given, and a duration of at most one day, as `query` guarantees before calling it.
- The source's sort, `Collections.sort`, is modelled as the function `SortBy`. Only the sorted-permutation property the finder relies on is stated.
- Lists are `seq` values. The model does not capture two effects on the caller's list: the in-place sort at line 76 and the aliasing return at line 90. No caller uses that list again.
- Both collections are iterated as `seq`s and `set`s: the events in a fixed order, and each event's attendees in an arbitrary order.
- Minutes and durations are unbounded integers. All values stay within one day, so the source's `int` and `long` widths never wrap.
- SlotsNonemptyIff: stated for positive durations only. For a duration of zero or less, a day busy from start to end still has the answer `[[0, 0), [1440, 1440)]`, which is nonempty though no window fits.
- The `start > end` branch of `findFreeTimes` (lines 166-167) is modelled but proved unreachable: merged ranges never overlap.

## Findings

| source | as written | input that shows it | evidently intended | confidence | as-written member | corrected member |
|---|---|---|---|---|---|---|
| walkthroughs/week-5-tdd/project/src/main/java/com/google/sps/FindMeetingQuery.java:59-63 | when optional attendees exist and no slot fits everyone, both branches of the `if` return an empty list; the mandatory-only busy list computed at line 50 is never used | one event `[0, 1440)` attended by "B"; request with mandatory "A", optional "B", duration 30: the answer is empty though "A" is free all day | fall back to the slots of the mandatory attendees alone (`findMeetingTimes(busyTimeRanges, duration)`), which here is the whole day | medium, not executed | FindMeetingQuery.Query, FindMeetingQuery.NoFallbackExample | FindMeetingQuery.QueryWithFallback, FindMeetingQuery.FallbackExample |
