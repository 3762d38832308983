/** The domain reducer (src/reducers/eventReducer.ts): a total transition
    function from a state and an action to the next state. Each branch
    builds a new event sequence by appending, mapping or filtering, hands
    that very sequence to storage and returns it in the new state. */
module EventReducer {
  import opened EventTypes

  // ---------------------------------------------------------------------
  // ADD_ATTENDEE

  /** Whether some attendee in the list has exactly this email. */
  function HasEmail(attendees: seq<Attendee>, email: string): (b: bool)
    ensures b <==> exists k :: 0 <= k < |attendees| && attendees[k].email == email
  {
    if attendees == [] then false
    else attendees[0].email == email || HasEmail(attendees[1..], email)
  }

  /** What ADD_ATTENDEE does to one event: nothing unless the id matches,
      nothing if the email is already there, otherwise append. */
  function AttendeeAdded(event: Event, eventId: string, attendee: Attendee): Event
  {
    if event.id != eventId then event
    else if HasEmail(event.attendees, attendee.email) then event
    else event.(attendees := event.attendees + [attendee])
  }

  function AttendeeAddedAll(events: seq<Event>, eventId: string, attendee: Attendee): (r: seq<Event>)
    ensures |r| == |events|
  {
    if events == [] then []
    else [AttendeeAdded(events[0], eventId, attendee)] + AttendeeAddedAll(events[1..], eventId, attendee)
  }

  // ---------------------------------------------------------------------
  // UPDATE_EVENT

  function Replaced(events: seq<Event>, event: Event): (r: seq<Event>)
    ensures |r| == |events|
  {
    if events == [] then []
    else [if events[0].id == event.id then event else events[0]] + Replaced(events[1..], event)
  }

  // ---------------------------------------------------------------------
  // DELETE_EVENT

  function WithoutId(events: seq<Event>, id: string): (r: seq<Event>)
    ensures |r| <= |events|
  {
    if events == [] then []
    else (if events[0].id != id then [events[0]] else []) + WithoutId(events[1..], id)
  }

  // ---------------------------------------------------------------------
  // UPDATE_ATTENDEE_STATUS

  function StatusSet(attendees: seq<Attendee>, email: string, status: Status): (r: seq<Attendee>)
    ensures |r| == |attendees|
  {
    if attendees == [] then []
    else [if attendees[0].email == email then attendees[0].(status := status) else attendees[0]]
         + StatusSet(attendees[1..], email, status)
  }

  function StatusUpdated(event: Event, eventId: string, email: string, status: Status): Event
  {
    if event.id == eventId then event.(attendees := StatusSet(event.attendees, email, status))
    else event
  }

  function StatusUpdatedAll(events: seq<Event>, eventId: string, email: string, status: Status): (r: seq<Event>)
    ensures |r| == |events|
  {
    if events == [] then []
    else [StatusUpdated(events[0], eventId, email, status)] + StatusUpdatedAll(events[1..], eventId, email, status)
  }

  // ---------------------------------------------------------------------
  // The reducer

  /** The new event sequence each branch builds; it is both what the branch
      saves and what it returns. */
  function UpdatedEvents(events: seq<Event>, action: EventAction): seq<Event>
  {
    match action
    case AddEvent(e) => events + [e]
    case AddAttendee(eventId, attendee) => AttendeeAddedAll(events, eventId, attendee)
    case UpdateEvent(e) => Replaced(events, e)
    case DeleteEvent(id) => WithoutId(events, id)
    case UpdateAttendeeStatus(eventId, email, status) => StatusUpdatedAll(events, eventId, email, status)
  }

  /** The transition. Only ADD_EVENT makes the sequence longer, by one; only
      DELETE_EVENT can make it shorter; the three mapping branches keep its length. */
  function Reduce(state: EventState, action: EventAction): (r: EventState)
    ensures action.AddEvent? ==> |r.events| == |state.events| + 1
    ensures action.DeleteEvent? ==> |r.events| <= |state.events|
    ensures action.AddAttendee? || action.UpdateEvent? || action.UpdateAttendeeStatus? ==>
      |r.events| == |state.events|
  {
    state.(events := UpdatedEvents(state.events, action))
  }

  // ---------------------------------------------------------------------
  // ADD_EVENT

  /** The payload is appended: one longer, last, earlier events untouched
      and in order, one more occurrence of the payload. */
  lemma AddEventAppends(state: EventState, e: Event)
    ensures Reduce(state, AddEvent(e)).events == state.events + [e]
    ensures |Reduce(state, AddEvent(e)).events| == |state.events| + 1
    ensures Reduce(state, AddEvent(e)).events[|state.events|] == e
    ensures Reduce(state, AddEvent(e)).events[..|state.events|] == state.events
    ensures multiset(Reduce(state, AddEvent(e)).events)[e] == multiset(state.events)[e] + 1
  {
  }

  /** Appending an event whose id is fresh keeps ids unique. */
  lemma AddEventPreservesUniqueIds(state: EventState, e: Event)
    requires UniqueIds(state.events)
    requires e.id !in Ids(state.events)
    ensures UniqueIds(Reduce(state, AddEvent(e)).events)
  {
  }

  /** Appending an event whose own attendee emails are distinct keeps every
      event's emails distinct; the reducer stores the payload as given. */
  lemma AddEventPreservesUniqueEmails(state: EventState, e: Event)
    requires AllEmailsUnique(state.events)
    requires UniqueEmails(e.attendees)
    ensures AllEmailsUnique(Reduce(state, AddEvent(e)).events)
  {
  }

  // ---------------------------------------------------------------------
  // ADD_ATTENDEE

  lemma {:induction false} AttendeeAddedAllAt(events: seq<Event>, eventId: string, attendee: Attendee, i: nat)
    requires i < |events|
    ensures AttendeeAddedAll(events, eventId, attendee)[i] == AttendeeAdded(events[i], eventId, attendee)
  {
    if i > 0 {
      AttendeeAddedAllAt(events[1..], eventId, attendee, i - 1);
    }
  }

  /** The effect of ADD_ATTENDEE on each event: events with another id are
      unchanged; a matching event that already has the email is unchanged
      (the status is not overwritten); otherwise the attendee is appended. */
  lemma AddAttendeeEffect(state: EventState, eventId: string, attendee: Attendee)
    ensures |Reduce(state, AddAttendee(eventId, attendee)).events| == |state.events|
    ensures forall i :: 0 <= i < |state.events| && state.events[i].id != eventId ==>
      Reduce(state, AddAttendee(eventId, attendee)).events[i] == state.events[i]
    ensures forall i ::
      (0 <= i < |state.events| && state.events[i].id == eventId &&
       exists k :: 0 <= k < |state.events[i].attendees| && state.events[i].attendees[k].email == attendee.email)
      ==> Reduce(state, AddAttendee(eventId, attendee)).events[i] == state.events[i]
    ensures forall i ::
      (0 <= i < |state.events| && state.events[i].id == eventId &&
       forall k :: 0 <= k < |state.events[i].attendees| ==> state.events[i].attendees[k].email != attendee.email)
      ==> (Reduce(state, AddAttendee(eventId, attendee)).events[i] ==
           state.events[i].(attendees := state.events[i].attendees + [attendee]))
  {
    forall i | 0 <= i < |state.events| {
      AttendeeAddedAllAt(state.events, eventId, attendee, i);
    }
  }

  /** ADD_ATTENDEE changes no event's id. */
  lemma AddAttendeeKeepsIds(state: EventState, eventId: string, attendee: Attendee)
    ensures Ids(Reduce(state, AddAttendee(eventId, attendee)).events) == Ids(state.events)
  {
    var r := Reduce(state, AddAttendee(eventId, attendee)).events;
    forall i | 0 <= i < |r| ensures Ids(r)[i] == Ids(state.events)[i] {
      AttendeeAddedAllAt(state.events, eventId, attendee, i);
    }
  }

  /** ADD_ATTENDEE keeps the emails of every event pairwise distinct. */
  lemma AddAttendeePreservesUniqueEmails(state: EventState, eventId: string, attendee: Attendee)
    requires AllEmailsUnique(state.events)
    ensures AllEmailsUnique(Reduce(state, AddAttendee(eventId, attendee)).events)
  {
    var r := Reduce(state, AddAttendee(eventId, attendee)).events;
    forall i | 0 <= i < |r| ensures UniqueEmails(r[i].attendees) {
      AttendeeAddedAllAt(state.events, eventId, attendee, i);
    }
  }

  /** After ADD_ATTENDEE every event with the target id has an attendee with
      that email. */
  lemma AddAttendeeMakesPresent(state: EventState, eventId: string, attendee: Attendee)
    ensures forall i :: 0 <= i < |state.events| && state.events[i].id == eventId ==>
      HasEmail(Reduce(state, AddAttendee(eventId, attendee)).events[i].attendees, attendee.email)
  {
    var r := Reduce(state, AddAttendee(eventId, attendee)).events;
    forall i | 0 <= i < |state.events| && state.events[i].id == eventId
      ensures HasEmail(r[i].attendees, attendee.email)
    {
      AttendeeAddedAllAt(state.events, eventId, attendee, i);
      var atts := state.events[i].attendees;
      if !HasEmail(atts, attendee.email) {
        assert r[i].attendees[|atts|] == attendee;
      }
    }
  }

  /** Applying the same ADD_ATTENDEE twice gives the state applying it once gives. */
  lemma AddAttendeeIdempotent(state: EventState, eventId: string, attendee: Attendee)
    ensures Reduce(Reduce(state, AddAttendee(eventId, attendee)), AddAttendee(eventId, attendee))
         == Reduce(state, AddAttendee(eventId, attendee))
  {
    var once := Reduce(state, AddAttendee(eventId, attendee));
    var twice := Reduce(once, AddAttendee(eventId, attendee));
    AddAttendeeMakesPresent(state, eventId, attendee);
    forall i | 0 <= i < |once.events| ensures twice.events[i] == once.events[i] {
      AttendeeAddedAllAt(state.events, eventId, attendee, i);
      AttendeeAddedAllAt(once.events, eventId, attendee, i);
    }
  }

  // ---------------------------------------------------------------------
  // UPDATE_EVENT

  lemma {:induction false} ReplacedAt(events: seq<Event>, event: Event, i: nat)
    requires i < |events|
    ensures Replaced(events, event)[i] == if events[i].id == event.id then event else events[i]
  {
    if i > 0 {
      ReplacedAt(events[1..], event, i - 1);
    }
  }

  /** UPDATE_EVENT replaces exactly the events whose id is the payload's,
      keeping length and order. */
  lemma UpdateEventEffect(state: EventState, e: Event)
    ensures |Reduce(state, UpdateEvent(e)).events| == |state.events|
    ensures forall i :: 0 <= i < |state.events| ==>
      Reduce(state, UpdateEvent(e)).events[i] == if state.events[i].id == e.id then e else state.events[i]
  {
    forall i | 0 <= i < |state.events| {
      ReplacedAt(state.events, e, i);
    }
  }

  /** UPDATE_EVENT with an id no event has leaves the events unchanged. */
  lemma UpdateEventAbsent(state: EventState, e: Event)
    requires e.id !in Ids(state.events)
    ensures Reduce(state, UpdateEvent(e)).events == state.events
  {
    UpdateEventEffect(state, e);
    forall i | 0 <= i < |state.events| ensures state.events[i].id != e.id {
      assert Ids(state.events)[i] == state.events[i].id;
    }
  }

  /** UPDATE_EVENT leaves the sequence of ids, hence their multiset, unchanged. */
  lemma UpdateEventKeepsIds(state: EventState, e: Event)
    ensures Ids(Reduce(state, UpdateEvent(e)).events) == Ids(state.events)
  {
    UpdateEventEffect(state, e);
  }

  /** A replacement whose own emails are distinct keeps every event's emails distinct. */
  lemma UpdateEventPreservesUniqueEmails(state: EventState, e: Event)
    requires AllEmailsUnique(state.events)
    requires UniqueEmails(e.attendees)
    ensures AllEmailsUnique(Reduce(state, UpdateEvent(e)).events)
  {
    UpdateEventEffect(state, e);
  }

  // ---------------------------------------------------------------------
  // DELETE_EVENT

  lemma {:induction false} WithoutIdMembers(events: seq<Event>, id: string)
    ensures forall x :: x in WithoutId(events, id) <==> x in events && x.id != id
  {
    if events != [] {
      WithoutIdMembers(events[1..], id);
      assert events == [events[0]] + events[1..];
    }
  }

  lemma {:induction false} WithoutIdAppend(s: seq<Event>, t: seq<Event>, id: string)
    ensures WithoutId(s + t, id) == WithoutId(s, id) + WithoutId(t, id)
  {
    if s == [] {
      assert s + t == t;
    } else {
      assert (s + t)[1..] == s[1..] + t;
      WithoutIdAppend(s[1..], t, id);
    }
  }

  lemma {:induction false} WithoutIdAbsent(events: seq<Event>, id: string)
    requires forall x :: x in events ==> x.id != id
    ensures WithoutId(events, id) == events
  {
    if events != [] {
      assert events[0] in events;
      WithoutIdAbsent(events[1..], id);
    }
  }

  /** DELETE_EVENT keeps exactly the events whose id differs from the payload. */
  lemma DeleteEventKeeps(state: EventState, id: string)
    ensures forall x :: x in Reduce(state, DeleteEvent(id)).events <==> x in state.events && x.id != id
    ensures |Reduce(state, DeleteEvent(id)).events| <= |state.events|
  {
    WithoutIdMembers(state.events, id);
  }

  /** DELETE_EVENT keeps the survivors in their original order: it distributes
      over concatenation, and on one event keeps it exactly when its id differs. */
  lemma DeleteEventKeepsOrder(s: seq<Event>, t: seq<Event>, id: string)
    ensures Reduce(EventState(s + t), DeleteEvent(id)).events
         == Reduce(EventState(s), DeleteEvent(id)).events + Reduce(EventState(t), DeleteEvent(id)).events
    ensures forall e :: Reduce(EventState([e]), DeleteEvent(id)).events == if e.id != id then [e] else []
  {
    WithoutIdAppend(s, t, id);
    forall e ensures WithoutId([e], id) == if e.id != id then [e] else [] {
      assert [e][1..] == [];
    }
  }

  /** DELETE_EVENT of an id no event has changes nothing. */
  lemma DeleteEventAbsent(state: EventState, id: string)
    requires id !in Ids(state.events)
    ensures Reduce(state, DeleteEvent(id)) == state
  {
    forall x | x in state.events ensures x.id != id {
      var i :| 0 <= i < |state.events| && state.events[i] == x;
      assert Ids(state.events)[i] == x.id;
    }
    WithoutIdAbsent(state.events, id);
  }

  /** DELETE_EVENT applied twice gives the state applying it once gives. */
  lemma DeleteEventIdempotent(state: EventState, id: string)
    ensures Reduce(Reduce(state, DeleteEvent(id)), DeleteEvent(id)) == Reduce(state, DeleteEvent(id))
  {
    var once := WithoutId(state.events, id);
    WithoutIdMembers(state.events, id);
    WithoutIdAbsent(once, id);
  }

  lemma {:induction false} WithoutIdPreservesUniqueIds(events: seq<Event>, id: string)
    requires UniqueIds(events)
    ensures UniqueIds(WithoutId(events, id))
  {
    if events != [] {
      var rest := events[1..];
      WithoutIdPreservesUniqueIds(rest, id);
      WithoutIdMembers(rest, id);
      var r := WithoutId(events, id);
      if events[0].id != id {
        forall j | 1 <= j < |r| ensures r[0].id != r[j].id {
          assert r[j] in WithoutId(rest, id);
          var k :| 0 <= k < |rest| && rest[k] == r[j];
          assert events[k + 1] == r[j];
        }
      }
    }
  }

  /** DELETE_EVENT keeps ids unique and every event's emails distinct. */
  lemma DeleteEventPreservesInvariants(state: EventState, id: string)
    ensures UniqueIds(state.events) ==> UniqueIds(Reduce(state, DeleteEvent(id)).events)
    ensures AllEmailsUnique(state.events) ==> AllEmailsUnique(Reduce(state, DeleteEvent(id)).events)
  {
    var r := WithoutId(state.events, id);
    if UniqueIds(state.events) {
      WithoutIdPreservesUniqueIds(state.events, id);
    }
    WithoutIdMembers(state.events, id);
    if AllEmailsUnique(state.events) {
      forall i | 0 <= i < |r| ensures UniqueEmails(r[i].attendees) {
        assert r[i] in state.events;
      }
    }
  }

  // ---------------------------------------------------------------------
  // UPDATE_ATTENDEE_STATUS

  lemma {:induction false} StatusSetAt(attendees: seq<Attendee>, email: string, status: Status, k: nat)
    requires k < |attendees|
    ensures StatusSet(attendees, email, status)[k]
         == Attendee(attendees[k].email, if attendees[k].email == email then status else attendees[k].status)
  {
    if k > 0 {
      StatusSetAt(attendees[1..], email, status, k - 1);
    }
  }

  lemma {:induction false} StatusUpdatedAllAt(events: seq<Event>, eventId: string, email: string, status: Status, i: nat)
    requires i < |events|
    ensures StatusUpdatedAll(events, eventId, email, status)[i] == StatusUpdated(events[i], eventId, email, status)
  {
    if i > 0 {
      StatusUpdatedAllAt(events[1..], eventId, email, status, i - 1);
    }
  }

  /** UPDATE_ATTENDEE_STATUS rewrites only the status of the attendees whose
      email matches, inside the events whose id matches: event count, every
      event's other fields, attendee counts, order and emails are unchanged. */
  lemma UpdateAttendeeStatusEffect(state: EventState, eventId: string, email: string, status: Status)
    ensures |Reduce(state, UpdateAttendeeStatus(eventId, email, status)).events| == |state.events|
    ensures forall i :: 0 <= i < |state.events| ==>
      Reduce(state, UpdateAttendeeStatus(eventId, email, status)).events[i].(attendees := state.events[i].attendees)
        == state.events[i]
    ensures forall i :: 0 <= i < |state.events| ==>
      |Reduce(state, UpdateAttendeeStatus(eventId, email, status)).events[i].attendees| == |state.events[i].attendees|
    ensures forall i, k :: 0 <= i < |state.events| && 0 <= k < |state.events[i].attendees| ==>
      Reduce(state, UpdateAttendeeStatus(eventId, email, status)).events[i].attendees[k]
        == Attendee(state.events[i].attendees[k].email,
                    if state.events[i].id == eventId && state.events[i].attendees[k].email == email
                    then status else state.events[i].attendees[k].status)
  {
    var s := state.events;
    forall i | 0 <= i < |s| {
      StatusUpdatedAllAt(s, eventId, email, status, i);
    }
    forall i, k | 0 <= i < |s| && 0 <= k < |s[i].attendees| {
      StatusSetAt(s[i].attendees, email, status, k);
    }
  }

  /** UPDATE_ATTENDEE_STATUS changes no event's id. */
  lemma UpdateAttendeeStatusKeepsIds(state: EventState, eventId: string, email: string, status: Status)
    ensures Ids(Reduce(state, UpdateAttendeeStatus(eventId, email, status)).events) == Ids(state.events)
  {
    var r := Reduce(state, UpdateAttendeeStatus(eventId, email, status)).events;
    forall i | 0 <= i < |r| ensures Ids(r)[i] == Ids(state.events)[i] {
      StatusUpdatedAllAt(state.events, eventId, email, status, i);
    }
  }

  /** UPDATE_ATTENDEE_STATUS keeps every event's emails distinct. */
  lemma UpdateAttendeeStatusPreservesUniqueEmails(state: EventState, eventId: string, email: string, status: Status)
    requires AllEmailsUnique(state.events)
    ensures AllEmailsUnique(Reduce(state, UpdateAttendeeStatus(eventId, email, status)).events)
  {
    var r := Reduce(state, UpdateAttendeeStatus(eventId, email, status)).events;
    UpdateAttendeeStatusEffect(state, eventId, email, status);
    forall i | 0 <= i < |r| ensures UniqueEmails(r[i].attendees) {
      forall j, k | 0 <= j < k < |r[i].attendees|
        ensures r[i].attendees[j].email != r[i].attendees[k].email
      {
        assert r[i].attendees[j].email == state.events[i].attendees[j].email;
        assert r[i].attendees[k].email == state.events[i].attendees[k].email;
      }
    }
  }

  // ---------------------------------------------------------------------
  // Invariants over every action

  lemma UniqueIdsFromIds(s: seq<Event>, t: seq<Event>)
    requires Ids(s) == Ids(t)
    requires UniqueIds(s)
    ensures UniqueIds(t)
  {
  }

  /** Ids stay unique under every action, provided an added event's id is fresh. */
  lemma ReducePreservesUniqueIds(state: EventState, action: EventAction)
    requires UniqueIds(state.events)
    requires action.AddEvent? ==> action.event.id !in Ids(state.events)
    ensures UniqueIds(Reduce(state, action).events)
  {
    var r := Reduce(state, action).events;
    match action
    case AddEvent(e) => AddEventPreservesUniqueIds(state, e);
    case AddAttendee(eventId, attendee) =>
      AddAttendeeKeepsIds(state, eventId, attendee);
      UniqueIdsFromIds(state.events, r);
    case UpdateEvent(e) =>
      UpdateEventKeepsIds(state, e);
      UniqueIdsFromIds(state.events, r);
    case DeleteEvent(id) => DeleteEventPreservesInvariants(state, id);
    case UpdateAttendeeStatus(eventId, email, status) =>
      UpdateAttendeeStatusKeepsIds(state, eventId, email, status);
      UniqueIdsFromIds(state.events, r);
  }

  /** Emails stay distinct within every event under every action, provided
      the events that ADD_EVENT and UPDATE_EVENT store have distinct emails. */
  lemma ReducePreservesUniqueEmails(state: EventState, action: EventAction)
    requires AllEmailsUnique(state.events)
    requires action.AddEvent? || action.UpdateEvent? ==> UniqueEmails(action.event.attendees)
    ensures AllEmailsUnique(Reduce(state, action).events)
  {
    match action
    case AddEvent(e) => AddEventPreservesUniqueEmails(state, e);
    case AddAttendee(eventId, attendee) => AddAttendeePreservesUniqueEmails(state, eventId, attendee);
    case UpdateEvent(e) => UpdateEventPreservesUniqueEmails(state, e);
    case DeleteEvent(id) => DeleteEventPreservesInvariants(state, id);
    case UpdateAttendeeStatus(eventId, email, status) =>
      UpdateAttendeeStatusPreservesUniqueEmails(state, eventId, email, status);
  }
}
