/** The state facade (src/context/EventContext.tsx): it holds the live
    events and offers five operations, each of which builds one action and
    dispatches it to the reducer. What storage holds is the ghost field
    `persisted`; the fresh id that the source draws at random is a parameter. */
module EventContext {
  import opened EventTypes
  import opened EventReducer

  /** The event made of a new event's data and the id it is given: it
      carries exactly that id, and dropping the id gives the data back. */
  function WithId(data: EventData, id: string): (e: Event)
    ensures e.id == id && DataOf(e) == data
  {
    Event(id, data.title, data.description, data.date, data.time, data.location, data.attendees)
  }

  /** The data of an event: every field except its id. */
  function DataOf(e: Event): EventData
  {
    EventData(e.title, e.description, e.date, e.time, e.location, e.attendees)
  }

  /** The attendee the facade submits for an email: its status is always `Yes`. */
  function NewAttendee(email: string): Attendee
  {
    Attendee(email, Yes)
  }

  /** Adding the same email twice through the facade is the same as adding
      it once; every target event then has that email, and distinct emails
      stay distinct. */
  lemma AddAttendeeTwice(state: EventState, eventId: string, email: string)
    ensures Reduce(Reduce(state, AddAttendee(eventId, NewAttendee(email))), AddAttendee(eventId, NewAttendee(email)))
         == Reduce(state, AddAttendee(eventId, NewAttendee(email)))
    ensures forall i :: 0 <= i < |state.events| && state.events[i].id == eventId ==>
      HasEmail(Reduce(state, AddAttendee(eventId, NewAttendee(email))).events[i].attendees, email)
    ensures AllEmailsUnique(state.events) ==>
      AllEmailsUnique(Reduce(state, AddAttendee(eventId, NewAttendee(email))).events)
  {
    AddAttendeeIdempotent(state, eventId, NewAttendee(email));
    AddAttendeeMakesPresent(state, eventId, NewAttendee(email));
    if AllEmailsUnique(state.events) {
      AddAttendeePreservesUniqueEmails(state, eventId, NewAttendee(email));
    }
  }

  /** With distinct emails beforehand, adding the same email twice through
      the facade leaves every target event with exactly one attendee that has
      this email. */
  lemma AddAttendeeTwiceExactlyOnce(state: EventState, eventId: string, email: string)
    requires AllEmailsUnique(state.events)
    ensures forall i :: 0 <= i < |state.events| && state.events[i].id == eventId ==>
      var twice := Reduce(Reduce(state, AddAttendee(eventId, NewAttendee(email))), AddAttendee(eventId, NewAttendee(email)));
      exists k :: 0 <= k < |twice.events[i].attendees| && twice.events[i].attendees[k].email == email &&
        (forall j :: 0 <= j < |twice.events[i].attendees| && twice.events[i].attendees[j].email == email ==> j == k)
  {
    var once := Reduce(state, AddAttendee(eventId, NewAttendee(email)));
    AddAttendeeTwice(state, eventId, email);
    forall i | 0 <= i < |state.events| && state.events[i].id == eventId
      ensures exists k :: 0 <= k < |once.events[i].attendees| && once.events[i].attendees[k].email == email &&
                (forall j :: 0 <= j < |once.events[i].attendees| && once.events[i].attendees[j].email == email ==> j == k)
    {
      var atts := once.events[i].attendees;
      var k :| 0 <= k < |atts| && atts[k].email == email;
      assert UniqueEmails(atts);
    }
  }

  class EventProvider {
    /** The live state (`state.events` of `useReducer`). */
    var events: seq<Event>
    /** What storage last received. */
    ghost var persisted: seq<Event>

    /** Read-after-write consistency: storage holds the live events. */
    ghost predicate Consistent()
      reads this
    {
      persisted == events
    }

    /** The initial state is whatever storage held at start-up. */
    constructor (initial: seq<Event>)
      ensures events == initial && Consistent()
    {
      events := initial;
      persisted := initial;
    }

    /** Runs the reducer on the held state. `persisted` is set to the
        sequence the branch hands to storage, which is `UpdatedEvents`. */
    method Dispatch(action: EventAction)
      modifies this
      ensures events == Reduce(EventState(old(events)), action).events
      ensures persisted == UpdatedEvents(old(events), action)
      ensures Consistent()
    {
      persisted := UpdatedEvents(events, action);
      events := Reduce(EventState(events), action).events;
    }

    /** Creates an event from `data` under the fresh id `id`. */
    method AddEvent(data: EventData, id: string)
      requires id !in Ids(events)
      modifies this
      ensures events == Reduce(EventState(old(events)), EventAction.AddEvent(WithId(data, id))).events
      ensures events == old(events) + [WithId(data, id)]
      ensures events[|old(events)|].id == id && DataOf(events[|old(events)|]) == data
      ensures UniqueIds(old(events)) ==> UniqueIds(events)
      ensures AllEmailsUnique(old(events)) && UniqueEmails(data.attendees) ==> AllEmailsUnique(events)
      ensures Consistent()
    {
      var newEvent := WithId(data, id);
      ghost var before := EventState(events);
      Dispatch(EventAction.AddEvent(newEvent));
      if UniqueIds(before.events) {
        AddEventPreservesUniqueIds(before, newEvent);
      }
      if AllEmailsUnique(before.events) && UniqueEmails(data.attendees) {
        AddEventPreservesUniqueEmails(before, newEvent);
      }
    }

    /** Adds `email` with status `Yes` to the event `eventId`, unless that
        event already has an attendee with this email. */
    method AddAttendee(eventId: string, email: string)
      modifies this
      ensures events == Reduce(EventState(old(events)), EventAction.AddAttendee(eventId, NewAttendee(email))).events
      ensures |events| == |old(events)|
      ensures forall i :: 0 <= i < |events| && (old(events)[i].id != eventId || HasEmail(old(events)[i].attendees, email))
                ==> events[i] == old(events)[i]
      ensures forall i :: 0 <= i < |events| && old(events)[i].id == eventId && !HasEmail(old(events)[i].attendees, email)
                ==> events[i] == old(events)[i].(attendees := old(events)[i].attendees + [Attendee(email, Yes)])
      ensures forall i :: 0 <= i < |events| && old(events)[i].id == eventId ==> HasEmail(events[i].attendees, email)
      ensures UniqueIds(old(events)) ==> UniqueIds(events)
      ensures AllEmailsUnique(old(events)) ==> AllEmailsUnique(events)
      ensures Consistent()
    {
      var attendee := NewAttendee(email);
      ghost var before := EventState(events);
      Dispatch(EventAction.AddAttendee(eventId, attendee));
      AddAttendeeEffect(before, eventId, attendee);
      AddAttendeeMakesPresent(before, eventId, attendee);
      if UniqueIds(before.events) {
        ReducePreservesUniqueIds(before, EventAction.AddAttendee(eventId, attendee));
      }
      if AllEmailsUnique(before.events) {
        AddAttendeePreservesUniqueEmails(before, eventId, attendee);
      }
    }

    /** Removes every event with id `id`. */
    method DeleteEvent(id: string)
      modifies this
      ensures events == Reduce(EventState(old(events)), EventAction.DeleteEvent(id)).events
      ensures forall x :: x in events <==> x in old(events) && x.id != id
      ensures id !in Ids(old(events)) ==> events == old(events)
      ensures UniqueIds(old(events)) ==> UniqueIds(events)
      ensures AllEmailsUnique(old(events)) ==> AllEmailsUnique(events)
      ensures Consistent()
    {
      ghost var before := EventState(events);
      Dispatch(EventAction.DeleteEvent(id));
      DeleteEventKeeps(before, id);
      DeleteEventPreservesInvariants(before, id);
      if id !in Ids(before.events) {
        DeleteEventAbsent(before, id);
      }
    }

    /** Replaces every event whose id is `event.id` by `event`. */
    method UpdateEvent(event: Event)
      modifies this
      ensures events == Reduce(EventState(old(events)), EventAction.UpdateEvent(event)).events
      ensures |events| == |old(events)|
      ensures forall i :: 0 <= i < |events| ==> events[i] == if old(events)[i].id == event.id then event else old(events)[i]
      ensures Ids(events) == Ids(old(events))
      ensures UniqueIds(old(events)) ==> UniqueIds(events)
      ensures AllEmailsUnique(old(events)) && UniqueEmails(event.attendees) ==> AllEmailsUnique(events)
      ensures Consistent()
    {
      ghost var before := EventState(events);
      Dispatch(EventAction.UpdateEvent(event));
      UpdateEventEffect(before, event);
      UpdateEventKeepsIds(before, event);
      if UniqueIds(before.events) {
        UniqueIdsFromIds(before.events, events);
      }
      if AllEmailsUnique(before.events) && UniqueEmails(event.attendees) {
        UpdateEventPreservesUniqueEmails(before, event);
      }
    }

    /** Sets the status of the attendees with `email` in the events with id `eventId`. */
    method UpdateAttendeeStatus(eventId: string, email: string, status: Status)
      modifies this
      ensures events == Reduce(EventState(old(events)), EventAction.UpdateAttendeeStatus(eventId, email, status)).events
      ensures |events| == |old(events)|
      ensures forall i :: 0 <= i < |events| ==> events[i].(attendees := old(events)[i].attendees) == old(events)[i]
      ensures forall i :: 0 <= i < |events| ==> |events[i].attendees| == |old(events)[i].attendees|
      ensures forall i, k :: 0 <= i < |events| && 0 <= k < |old(events)[i].attendees| ==>
        events[i].attendees[k] == Attendee(old(events)[i].attendees[k].email,
          if old(events)[i].id == eventId && old(events)[i].attendees[k].email == email
          then status else old(events)[i].attendees[k].status)
      ensures UniqueIds(old(events)) ==> UniqueIds(events)
      ensures AllEmailsUnique(old(events)) ==> AllEmailsUnique(events)
      ensures Consistent()
    {
      ghost var before := EventState(events);
      Dispatch(EventAction.UpdateAttendeeStatus(eventId, email, status));
      UpdateAttendeeStatusEffect(before, eventId, email, status);
      UpdateAttendeeStatusKeepsIds(before, eventId, email, status);
      if UniqueIds(before.events) {
        UniqueIdsFromIds(before.events, events);
      }
      if AllEmailsUnique(before.events) {
        UpdateAttendeeStatusPreservesUniqueEmails(before, eventId, email, status);
      }
    }
  }

  /** A session through the facade: create an event, add the same attendee
      twice, change that attendee's status, create a second event and delete
      the first. `attendees` are the first event's attendees after the status
      change, `final` the events at the end. Only the facade's contracts are used to reach the outcome. */
  method Session() returns (attendees: seq<Attendee>, final: seq<Event>)
    ensures attendees == [Attendee("a@x.com", No)]
    ensures final == [Event("E2", "Picnic", "", "2025-08-01", "12:00", "Lake", [])]
  {
    var provider := new EventProvider([]);
    var bbq := EventData("Summer BBQ", "d", "2025-07-01", "18:00", "Park", []);
    var picnic := EventData("Picnic", "", "2025-08-01", "12:00", "Lake", []);
    provider.AddEvent(bbq, "E1");
    assert provider.events == [WithId(bbq, "E1")];
    provider.AddAttendee("E1", "a@x.com");
    assert !HasEmail([], "a@x.com");
    assert [] + [Attendee("a@x.com", Yes)] == [Attendee("a@x.com", Yes)];
    assert provider.events[0] == WithId(bbq, "E1").(attendees := [] + [Attendee("a@x.com", Yes)]);
    assert |provider.events| == 1;
    assert provider.events == [WithId(bbq, "E1").(attendees := [Attendee("a@x.com", Yes)])];
    assert HasEmail(provider.events[0].attendees, "a@x.com");
    provider.AddAttendee("E1", "a@x.com");
    assert provider.events[0] == WithId(bbq, "E1").(attendees := [Attendee("a@x.com", Yes)]);
    assert provider.events == [WithId(bbq, "E1").(attendees := [Attendee("a@x.com", Yes)])];
    provider.UpdateAttendeeStatus("E1", "a@x.com", No);
    attendees := provider.events[0].attendees;
    assert attendees == [Attendee("a@x.com", No)];
    ghost var first := provider.events[0];
    assert provider.events == [first] && first.id == "E1";
    assert Ids(provider.events) == ["E1"];
    provider.AddEvent(picnic, "E2");
    assert provider.events == [first, WithId(picnic, "E2")];
    provider.DeleteEvent("E1");
    final := provider.events;
    assert provider.persisted == final;
  }
}
