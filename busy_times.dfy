/** The events of a day, the meeting request, and the busy ranges of a group
    of people. */
module Busy {
  import opened TimeRanges

  /** An event: when it happens and who attends it. */
  datatype Event = Event(when: TimeRange, attendees: set<string>)

  /** A request for a meeting of the given length in minutes, with the people
      who must attend and the people who may. */
  datatype MeetingRequest = MeetingRequest(
    attendees: seq<string>,
    optionalAttendees: seq<string>,
    duration: int)

  /** At least one attendee of e is among people. */
  ghost predicate Relevant(e: Event, people: seq<string>) {
    exists a :: a in e.attendees && a in people
  }

  /** The ranges of the relevant events, in the order of the events. */
  ghost function BusyTimes(events: seq<Event>, people: seq<string>): seq<TimeRange> {
    if events == [] then []
    else
      var last := events[|events| - 1];
      BusyTimes(events[..|events| - 1], people) + (if Relevant(last, people) then [last.when] else [])
  }

  /** The positions of the relevant events, ascending. */
  ghost function RelevantIndices(events: seq<Event>, people: seq<string>): seq<int> {
    if events == [] then []
    else
      var n := |events| - 1;
      RelevantIndices(events[..n], people) + (if Relevant(events[n], people) then [n] else [])
  }

  /** Each relevant event puts its range into the busy list exactly once, in
      event order, and no other event puts anything there. */
  lemma {:induction false} BusyTimesExactlyOnce(events: seq<Event>, people: seq<string>)
    ensures |RelevantIndices(events, people)| == |BusyTimes(events, people)|
    ensures forall k :: 0 <= k < |RelevantIndices(events, people)| ==>
      0 <= RelevantIndices(events, people)[k] < |events| &&
      BusyTimes(events, people)[k] == events[RelevantIndices(events, people)[k]].when
    ensures forall k, l :: 0 <= k < l < |RelevantIndices(events, people)| ==>
      RelevantIndices(events, people)[k] < RelevantIndices(events, people)[l]
    ensures forall i :: 0 <= i < |events| ==>
      (i in RelevantIndices(events, people) <==> Relevant(events[i], people))
  {
    if events != [] {
      var n := |events| - 1;
      var prefix := events[..n];
      BusyTimesExactlyOnce(prefix, people);
      forall i | 0 <= i < n
        ensures prefix[i] == events[i]
      {
      }
    }
  }

  /** A minute is busy exactly when some relevant event's range includes it. */
  lemma {:induction false} BusyTimesCovers(events: seq<Event>, people: seq<string>, t: int)
    ensures Covers(BusyTimes(events, people), t) <==>
      exists i :: 0 <= i < |events| && Relevant(events[i], people) && events[i].when.Includes(t)
  {
    if events != [] {
      var n := |events| - 1;
      var prefix := events[..n];
      var tail := if Relevant(events[n], people) then [events[n].when] else [];
      BusyTimesCovers(prefix, people, t);
      assert BusyTimes(events, people) == BusyTimes(prefix, people) + tail;
      if tail == [] {
        assert BusyTimes(events, people) == BusyTimes(prefix, people);
      } else {
        CoversAppend(BusyTimes(prefix, people), events[n].when, t);
      }
      if exists i :: 0 <= i < |events| && Relevant(events[i], people) && events[i].when.Includes(t) {
        var i :| 0 <= i < |events| && Relevant(events[i], people) && events[i].when.Includes(t);
        if i < n {
          assert prefix[i] == events[i];
        }
      }
      if exists i :: 0 <= i < |prefix| && Relevant(prefix[i], people) && prefix[i].when.Includes(t) {
        var i :| 0 <= i < |prefix| && Relevant(prefix[i], people) && prefix[i].when.Includes(t);
        assert events[i] == prefix[i];
      }
    }
  }

  /** Every busy range is the range of some event. */
  lemma BusyTimesFromEvents(events: seq<Event>, people: seq<string>, k: int)
    requires 0 <= k < |BusyTimes(events, people)|
    ensures exists i :: 0 <= i < |events| && BusyTimes(events, people)[k] == events[i].when
  {
    BusyTimesExactlyOnce(events, people);
    var i := RelevantIndices(events, people)[k];
    assert BusyTimes(events, people)[k] == events[i].when;
  }

  /** The busy list is empty exactly when no event is relevant. */
  lemma BusyTimesEmptyIff(events: seq<Event>, people: seq<string>)
    ensures BusyTimes(events, people) == [] <==> forall i :: 0 <= i < |events| ==> !Relevant(events[i], people)
  {
    BusyTimesExactlyOnce(events, people);
    if BusyTimes(events, people) != [] {
      var i := RelevantIndices(events, people)[0];
      assert Relevant(events[i], people);
    }
  }

  /** Gathers the ranges of the events that at least one of people attends. */
  method FindBusyTimes(events: seq<Event>, people: seq<string>) returns (busy: seq<TimeRange>)
    ensures busy == BusyTimes(events, people)
  {
    busy := [];
    for i := 0 to |events|
      invariant busy == BusyTimes(events[..i], people)
    {
      var event := events[i];
      var relevantEvent := false;
      var unseen := event.attendees;
      while unseen != {}
        invariant unseen <= event.attendees
        invariant forall a :: a in event.attendees - unseen ==> a !in people
        invariant relevantEvent == false
        decreases unseen
      {
        var eventAttendee :| eventAttendee in unseen;
        if eventAttendee in people {
          relevantEvent := true;
          busy := busy + [event.when];
          break;
        }
        unseen := unseen - {eventAttendee};
      }
      assert relevantEvent == Relevant(event, people);
      assert events[..i + 1][..i] == events[..i];
    }
    assert events[..|events|] == events;
  }
}
