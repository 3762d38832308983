/** The records of the event planner's state and the actions that change it
    (src/types/index.ts), together with the invariants of the data model. */
module EventTypes {

  /** An attendee's answer to an invitation; no other value is representable. */
  datatype Status = Yes | No | Maybe

  datatype Attendee = Attendee(email: string, status: Status)

  /** An event; `attendees` is kept in insertion (display) order. */
  datatype Event = Event(
    id: string,
    title: string,
    description: string,
    date: string,
    time: string,
    location: string,
    attendees: seq<Attendee>)

  /** The fields of an event other than its id: what the facade receives
      before it gives a new event its id. */
  datatype EventData = EventData(
    title: string,
    description: string,
    date: string,
    time: string,
    location: string,
    attendees: seq<Attendee>)

  /** The single root of the domain: the events in creation order. */
  datatype EventState = EventState(events: seq<Event>)

  /** The five tagged actions the reducer understands. The union is closed,
      so the reducer's fall-through branch has no counterpart here. */
  datatype EventAction =
    | AddEvent(event: Event)
    | AddAttendee(eventId: string, attendee: Attendee)
    | DeleteEvent(id: string)
    | UpdateEvent(event: Event)
    | UpdateAttendeeStatus(eventId: string, email: string, status: Status)

  /** The ids of `events`, position by position. */
  function Ids(events: seq<Event>): (ids: seq<string>)
    ensures |ids| == |events|
    ensures forall i :: 0 <= i < |events| ==> ids[i] == events[i].id
  {
    if events == [] then [] else [events[0].id] + Ids(events[1..])
  }

  /** No two events share an id. */
  ghost predicate UniqueIds(events: seq<Event>)
  {
    forall i, j :: 0 <= i < j < |events| ==> events[i].id != events[j].id
  }

  /** No two attendees of one event share an email (exact string equality). */
  ghost predicate UniqueEmails(attendees: seq<Attendee>)
  {
    forall i, j :: 0 <= i < j < |attendees| ==> attendees[i].email != attendees[j].email
  }

  /** Every event's attendee list has pairwise distinct emails. */
  ghost predicate AllEmailsUnique(events: seq<Event>)
  {
    forall i :: 0 <= i < |events| ==> UniqueEmails(events[i].attendees)
  }
}
