/** The meeting finder: given the events of a day and a meeting request, the
    ranges of the day in which the meeting fits. */
module FindMeetingQuery {
  import opened TimeRanges
  import opened Busy
  import opened Merge
  import opened Slots

  /** The people whose events the finder considers: the mandatory attendees
      followed by the optional ones. */
  function Considered(request: MeetingRequest): seq<string> {
    request.attendees + request.optionalAttendees
  }

  /** The maximal free ranges of the day, at least duration long, around the
      given busy ranges. */
  method FindMeetingTimes(busyTimeRanges: seq<TimeRange>, duration: int) returns (res: seq<TimeRange>)
    requires duration <= WHOLE_DAY.Duration()
    requires forall i :: 0 <= i < |busyTimeRanges| ==> Proper(busyTimeRanges[i])
    ensures AvailableSlots(res, busyTimeRanges, duration)
    ensures busyTimeRanges == [] ==> res == [WHOLE_DAY]
  {
    if busyTimeRanges == [] {
      WholeDayWhenNothingBusy(duration);
      return [WHOLE_DAY];
    }

    var sorted := SortBy(busyTimeRanges, ByStart);
    forall i | 0 <= i < |sorted|
      ensures Proper(sorted[i])
    {
      assert sorted[i] in multiset(busyTimeRanges);
    }
    var busyTimeMerged := MergeBusyTimes(sorted);
    var sortByEndTime := SortBy(busyTimeMerged, ByEnd);
    res := FindFreeTimes(busyTimeMerged, sortByEndTime, duration);

    FreeTimesAreSlots(busyTimeMerged, duration);
    forall t ensures Covers(busyTimeMerged, t) <==> Covers(busyTimeRanges, t) {
      CoversPermutation(sorted, busyTimeRanges, t);
    }
    AvailableSlotsSameCover(res, busyTimeMerged, busyTimeRanges, duration);
  }

  /** When every event a considered person attends has a proper range, every
      busy range of the considered people is proper. */
  lemma BusyTimesProper(events: seq<Event>, people: seq<string>)
    requires forall i :: 0 <= i < |events| && Relevant(events[i], people) ==> Proper(events[i].when)
    ensures forall k :: 0 <= k < |BusyTimes(events, people)| ==> Proper(BusyTimes(events, people)[k])
  {
    BusyTimesExactlyOnce(events, people);
    forall k | 0 <= k < |BusyTimes(events, people)|
      ensures Proper(BusyTimes(events, people)[k])
    {
      var i := RelevantIndices(events, people)[k];
      assert i in RelevantIndices(events, people);
    }
  }

  /** An event the mandatory attendees attend is one the considered people
      attend. */
  lemma MandatoryConsidered(events: seq<Event>, request: MeetingRequest)
    ensures forall i :: 0 <= i < |events| && Relevant(events[i], request.attendees) ==>
      Relevant(events[i], Considered(request))
  {
    forall i | 0 <= i < |events| && Relevant(events[i], request.attendees)
      ensures Relevant(events[i], Considered(request))
    {
      var a :| a in events[i].attendees && a in request.attendees;
      assert a in Considered(request);
    }
  }

  /** The ranges of the day in which the requested meeting fits, for the
      mandatory and, when there are any, the optional attendees together.
      For a meeting of positive length that fits nowhere for all of them
      together, the answer is empty (SlotsNonemptyIff), even where it would fit for the mandatory
      attendees alone (NoFallbackExample). */
  method Query(events: seq<Event>, request: MeetingRequest) returns (res: seq<TimeRange>)
    requires forall i :: 0 <= i < |events| && Relevant(events[i], Considered(request)) ==>
      Proper(events[i].when)
    ensures request.duration <= WHOLE_DAY.Duration() ==>
      AvailableSlots(res, BusyTimes(events, Considered(request)), request.duration)
    ensures (request.duration <= WHOLE_DAY.Duration() &&
      forall i :: 0 <= i < |events| ==> !Relevant(events[i], Considered(request))) ==>
      res == [WHOLE_DAY]
    ensures request.duration > WHOLE_DAY.Duration() ==> res == []
  {
    var duration := request.duration;

    if duration > WHOLE_DAY.Duration() {
      return [];
    } else if events == [] {
      WholeDayWhenNothingBusy(duration);
      return [WHOLE_DAY];
    }

    BusyTimesEmptyIff(events, Considered(request));
    var attendees := request.attendees;
    MandatoryConsidered(events, request);
    BusyTimesProper(events, attendees);
    var busyTimeRanges := FindBusyTimes(events, attendees);

    if request.optionalAttendees != [] {
      var optional := request.optionalAttendees;
      attendees := attendees + optional;

      BusyTimesProper(events, attendees);
      var optionalBusyTimeRanges := FindBusyTimes(events, attendees);
      var optionalMeetingTimes := FindMeetingTimes(optionalBusyTimeRanges, duration);

      if optionalMeetingTimes != [] {
        return optionalMeetingTimes;
      } else {
        return [];
      }
    }

    assert Considered(request) == attendees;
    res := FindMeetingTimes(busyTimeRanges, duration);
  }

  /** The people whose slots the corrected query answers with: the mandatory
      attendees alone when a meeting of positive length fits nowhere for
      everyone considered, and everyone considered otherwise. */
  ghost function FallbackPeople(events: seq<Event>, request: MeetingRequest): seq<string> {
    if 0 < request.duration && !FitsSomewhere(BusyTimes(events, Considered(request)), request.duration)
    then request.attendees
    else Considered(request)
  }

  /** Query as evidently intended: when a meeting of positive length fits
      nowhere for the mandatory and optional attendees together, the slots of
      the mandatory attendees alone. For a duration of zero or less there is
      always a slot (SlotsNonemptyWithoutLength), so the slots are everyone's. */
  method QueryWithFallback(events: seq<Event>, request: MeetingRequest) returns (res: seq<TimeRange>)
    requires forall i :: 0 <= i < |events| && Relevant(events[i], Considered(request)) ==>
      Proper(events[i].when)
    ensures request.duration <= WHOLE_DAY.Duration() ==>
      AvailableSlots(res, BusyTimes(events, FallbackPeople(events, request)), request.duration)
    ensures (request.duration <= WHOLE_DAY.Duration() &&
      forall i :: 0 <= i < |events| ==> !Relevant(events[i], Considered(request))) ==>
      res == [WHOLE_DAY]
    ensures request.duration > WHOLE_DAY.Duration() ==> res == []
  {
    var duration := request.duration;

    if duration > WHOLE_DAY.Duration() {
      return [];
    } else if events == [] {
      WholeDayWhenNothingBusy(duration);
      return [WHOLE_DAY];
    }

    BusyTimesEmptyIff(events, Considered(request));
    var attendees := request.attendees;
    MandatoryConsidered(events, request);
    BusyTimesProper(events, attendees);
    var busyTimeRanges := FindBusyTimes(events, attendees);

    if request.optionalAttendees != [] {
      var optional := request.optionalAttendees;
      attendees := attendees + optional;

      BusyTimesProper(events, attendees);
      var optionalBusyTimeRanges := FindBusyTimes(events, attendees);
      var optionalMeetingTimes := FindMeetingTimes(optionalBusyTimeRanges, duration);
      if 0 < duration {
        SlotsNonemptyIff(optionalMeetingTimes, optionalBusyTimeRanges, duration);
      } else {
        SlotsNonemptyWithoutLength(optionalMeetingTimes, optionalBusyTimeRanges, duration);
      }

      if optionalMeetingTimes != [] {
        return optionalMeetingTimes;
      } else {
        res := FindMeetingTimes(busyTimeRanges, duration);
        return;
      }
    }

    assert Considered(request) == attendees;
    res := FindMeetingTimes(busyTimeRanges, duration);
  }

  /** No answer overlaps an event that a considered person attends. */
  lemma SlotsAvoidRelevantEvents(res: seq<TimeRange>, events: seq<Event>, people: seq<string>, duration: int)
    requires forall i :: 0 <= i < |events| && Relevant(events[i], people) ==> Proper(events[i].when)
    requires AvailableSlots(res, BusyTimes(events, people), duration)
    ensures forall k, i :: (0 <= k < |res| && 0 <= i < |events| &&
      Relevant(events[i], people)) ==> !res[k].Overlaps(events[i].when)
  {
    forall k, i | 0 <= k < |res| && 0 <= i < |events| && Relevant(events[i], people)
      ensures !res[k].Overlaps(events[i].when)
    {
      var w := events[i].when;
      if res[k].start < res[k].end {
        forall t | res[k].Includes(t)
          ensures !w.Includes(t)
        {
          BusyTimesCovers(events, people, t);
        }
        OverlapsIffSharedMinute(res[k], w);
      }
    }
  }

  /** Every window of the day at least duration long that no event of a
      considered person touches lies within one answer. */
  lemma SlotsHoldFreeWindows(res: seq<TimeRange>, events: seq<Event>, people: seq<string>, duration: int,
                             a: int, b: int)
    requires AvailableSlots(res, BusyTimes(events, people), duration)
    requires START_OF_DAY <= a < b <= END_OF_DAY + 1 && b - a >= duration
    requires forall i :: 0 <= i < |events| && Relevant(events[i], people) ==>
      !TimeRange(a, b).Overlaps(events[i].when)
    ensures exists k :: 0 <= k < |res| && res[k].Contains(TimeRange(a, b))
  {
    forall t | a <= t < b
      ensures !Covers(BusyTimes(events, people), t)
    {
      BusyTimesCovers(events, people, t);
    }
    assert Free(BusyTimes(events, people), a, b);
  }

  // ---------------------------------------------------------------------
  // An input on which the two differ: "B" is busy all day and optional,
  // "A" is free all day and mandatory.

  function AllDayEvents(): seq<Event> {
    [Event(WHOLE_DAY, {"B"})]
  }

  function HalfHourRequest(): MeetingRequest {
    MeetingRequest(["A"], ["B"], 30)
  }

  /** On this input Query answers nothing: the meeting fits nowhere for both
      attendees together, though it fits the mandatory attendee anywhere in
      the day. */
  lemma NoFallbackExample(res: seq<TimeRange>)
    requires AvailableSlots(res, BusyTimes(AllDayEvents(), Considered(HalfHourRequest())), HalfHourRequest().duration)
    ensures res == []
    ensures !FitsSomewhere(BusyTimes(AllDayEvents(), Considered(HalfHourRequest())), HalfHourRequest().duration)
    ensures FitsSomewhere(BusyTimes(AllDayEvents(), HalfHourRequest().attendees), HalfHourRequest().duration)
  {
    var e := AllDayEvents()[0];
    assert Relevant(e, Considered(HalfHourRequest())) by {
      assert "B" in e.attendees && "B" in Considered(HalfHourRequest());
    }
    assert !Relevant(e, HalfHourRequest().attendees);
    assert AllDayEvents()[..0] == [];
    var all := BusyTimes(AllDayEvents(), Considered(HalfHourRequest()));
    assert all == [WHOLE_DAY];
    forall a, b | START_OF_DAY <= a < b <= END_OF_DAY + 1
      ensures !Free(all, a, b)
    {
      assert all[0].Includes(a);
      assert Covers(all, a);
    }
    SlotsNonemptyIff(res, all, HalfHourRequest().duration);
    assert BusyTimes(AllDayEvents(), HalfHourRequest().attendees) == [];
    assert Free([], 0, 30);
  }

  /** On the same input the corrected query answers the whole day. */
  lemma FallbackExample(res: seq<TimeRange>)
    requires AvailableSlots(res, BusyTimes(AllDayEvents(), HalfHourRequest().attendees), HalfHourRequest().duration)
    ensures res == [WHOLE_DAY]
  {
    var e := AllDayEvents()[0];
    assert !Relevant(e, HalfHourRequest().attendees);
    assert AllDayEvents()[..0] == [];
    assert BusyTimes(AllDayEvents(), HalfHourRequest().attendees) == [];
    WholeDayWhenNothingBusy(HalfHourRequest().duration);
    SlotsUnique(res, [WHOLE_DAY], [], HalfHourRequest().duration);
  }
}
