# Event planner state layer, in Dafny

This project models the state layer of a browser event planner. The layer
keeps an ordered collection of events. Each event has an id, free-text
fields and an ordered list of attendees. Each attendee has an email and an
RSVP status, which is `Yes`, `No` or `Maybe`.

The model has three modules:

- `EventTypes` (`event_types.dfy`) holds the records and the five tagged
  actions. It also holds the data-model invariants: ids are unique within
  the collection, and emails are unique within one event's attendees.
- `EventReducer` (`event_reducer.dfy`) is the domain reducer. It is a total
  function from a state and an action to the next state. Its branches are:
  - ADD_EVENT appends the payload.
  - UPDATE_EVENT replaces by id.
  - DELETE_EVENT filters by id.
  - ADD_ATTENDEE appends the attendee unless its email is already there.
  - UPDATE_ATTENDEE_STATUS rewrites the status of each attendee whose email matches.

  Every branch saves the sequence it builds and returns that same sequence,
  `UpdatedEvents`. Stored and returned events therefore agree by
  construction rather than by a proof.
- `EventContext` (`event_context.dfy`) is the state facade, the class
  `EventProvider`. It holds the live `events` and a ghost `persisted` copy
  of what storage last received. Its five operations each build one action
  and pass it to `Dispatch`. `Dispatch` runs the reducer and records what it
  saved.

The reducer's helpers are written as recursive map and filter functions.
Their meaning is stated position by position, or by membership and
concatenation, in lemmas proved by induction.

Notes on the code's behaviour, which the model follows:
- The reducer's ADD_ATTENDEE stores the attendee it is given. The status
  is fixed to `Yes` only by the facade's `addAttendee`.
- UPDATE_EVENT and UPDATE_ATTENDEE_STATUS act on every event whose id
  matches, not on just one.
- DELETE_EVENT removes every event whose id matches.
- The reducer calls `saveEvents` in every one of the five branches. This
  includes branches that change nothing.
- The facade's `addEvent` takes the attendees from its argument. They do not
  default to empty.

## Model

| member | source | states |
|---|---|---|
| EventReducer.Reduce | src/reducers/eventReducer.ts:4-81 | only ADD_EVENT lengthens the events, by exactly one; DELETE_EVENT never lengthens them; the other three branches keep the length. The full meaning of each branch is stated by AddEventAppends, AddAttendeeEffect, UpdateEventEffect, DeleteEventKeeps with DeleteEventKeepsOrder, and UpdateAttendeeStatusEffect |
| EventReducer.HasEmail | src/reducers/eventReducer.ts:25 | true exactly when some attendee in the list has the given email (exact string equality) |
| EventReducer.AddEventAppends | src/reducers/eventReducer.ts:11-18 | ADD_EVENT yields the old events followed by the payload: length plus one, payload last, the prefix equal to the old events, and one more occurrence of the payload |
| EventReducer.AddEventPreservesUniqueIds | src/reducers/eventReducer.ts:11-18 | if ids were unique and the payload's id is not among them, ids stay unique |
| EventReducer.AddEventPreservesUniqueEmails | src/reducers/eventReducer.ts:11-18 | if every event had distinct emails and so does the payload, every event still has distinct emails |
| EventReducer.AttendeeAddedAll | src/reducers/eventReducer.ts:21-32 | the mapped sequence has as many events as the input; its position-wise meaning is AttendeeAddedAllAt |
| EventReducer.AttendeeAddedAllAt | src/reducers/eventReducer.ts:21-32 | the mapped sequence holds, at each position, the single-event ADD_ATTENDEE step applied to the old event there |
| EventReducer.AddAttendeeEffect | src/reducers/eventReducer.ts:20-38 | the length is kept; events with another id are unchanged; a matching event that already has the email is unchanged, so its status is not overwritten; a matching event without that email gets the attendee appended at the end |
| EventReducer.AddAttendeeKeepsIds | src/reducers/eventReducer.ts:21-32 | ADD_ATTENDEE leaves the sequence of ids unchanged |
| EventReducer.AddAttendeePreservesUniqueEmails | src/reducers/eventReducer.ts:21-32 | if every event's emails were pairwise distinct, they still are |
| EventReducer.AddAttendeeMakesPresent | src/reducers/eventReducer.ts:21-32 | afterwards every event with the target id has an attendee with the added email |
| EventReducer.AddAttendeeIdempotent | src/reducers/eventReducer.ts:20-38 | applying the same ADD_ATTENDEE twice gives the same state as applying it once |
| EventReducer.Replaced | src/reducers/eventReducer.ts:41-43 | the mapped sequence has as many events as the input; its position-wise meaning is ReplacedAt |
| EventReducer.ReplacedAt | src/reducers/eventReducer.ts:41-43 | at each position the result is the payload if the old event's id matches, else the old event |
| EventReducer.UpdateEventEffect | src/reducers/eventReducer.ts:40-48 | UPDATE_EVENT keeps the length and order and replaces exactly the events whose id equals the payload's |
| EventReducer.UpdateEventAbsent | src/reducers/eventReducer.ts:40-48 | when no event has the payload's id, the events are unchanged |
| EventReducer.UpdateEventKeepsIds | src/reducers/eventReducer.ts:40-48 | UPDATE_EVENT leaves the sequence of ids, and so their multiset, unchanged |
| EventReducer.UpdateEventPreservesUniqueEmails | src/reducers/eventReducer.ts:40-48 | if every event had distinct emails and so does the payload, every event still has distinct emails |
| EventReducer.WithoutId | src/reducers/eventReducer.ts:51-53 | the filtered sequence is never longer than the input; its meaning is WithoutIdMembers together with WithoutIdAppend |
| EventReducer.WithoutIdMembers | src/reducers/eventReducer.ts:51-53 | an event is in the filtered sequence exactly when it was in the input and its id differs from the given id |
| EventReducer.WithoutIdAppend | src/reducers/eventReducer.ts:51-53 | filtering distributes over concatenation |
| EventReducer.WithoutIdAbsent | src/reducers/eventReducer.ts:51-53 | filtering a sequence with no event of that id returns it unchanged |
| EventReducer.WithoutIdPreservesUniqueIds | src/reducers/eventReducer.ts:51-53 | filtering a sequence with unique ids leaves the ids unique |
| EventReducer.DeleteEventKeeps | src/reducers/eventReducer.ts:50-58 | DELETE_EVENT keeps exactly the events whose id differs from the payload, and never makes the sequence longer |
| EventReducer.DeleteEventKeepsOrder | src/reducers/eventReducer.ts:50-58 | DELETE_EVENT on a concatenation is the concatenation of the parts' results, and on one event keeps it exactly when its id differs, so the survivors keep their original order |
| EventReducer.DeleteEventAbsent | src/reducers/eventReducer.ts:50-58 | DELETE_EVENT of an id no event has leaves the state unchanged |
| EventReducer.DeleteEventIdempotent | src/reducers/eventReducer.ts:50-58 | DELETE_EVENT applied twice gives the same state as applying it once |
| EventReducer.DeleteEventPreservesInvariants | src/reducers/eventReducer.ts:50-58 | DELETE_EVENT keeps ids unique and every event's emails distinct |
| EventReducer.StatusSet | src/reducers/eventReducer.ts:67-69 | the attendee list keeps its length; its position-wise meaning is StatusSetAt |
| EventReducer.StatusSetAt | src/reducers/eventReducer.ts:67-69 | at each position the attendee keeps its email, and its status becomes the new one exactly when its email matches |
| EventReducer.StatusUpdatedAll | src/reducers/eventReducer.ts:63-72 | the mapped sequence has as many events as the input; its position-wise meaning is StatusUpdatedAllAt |
| EventReducer.StatusUpdatedAllAt | src/reducers/eventReducer.ts:63-72 | the mapped sequence holds, at each position, the single-event status update applied to the old event there |
| EventReducer.UpdateAttendeeStatusEffect | src/reducers/eventReducer.ts:60-76 | the event count, every event's other fields, attendee counts, attendee order and emails are unchanged; an attendee's status becomes the new one exactly when its event's id and its email both match |
| EventReducer.UpdateAttendeeStatusKeepsIds | src/reducers/eventReducer.ts:60-76 | UPDATE_ATTENDEE_STATUS leaves the sequence of ids unchanged |
| EventReducer.UpdateAttendeeStatusPreservesUniqueEmails | src/reducers/eventReducer.ts:60-76 | if every event's emails were pairwise distinct, they still are |
| EventReducer.ReducePreservesUniqueIds | src/reducers/eventReducer.ts:4-81 | under every action, unique ids stay unique, provided an ADD_EVENT payload's id is fresh |
| EventReducer.ReducePreservesUniqueEmails | src/reducers/eventReducer.ts:4-81 | under every action, distinct emails per event stay distinct, provided ADD_EVENT and UPDATE_EVENT payloads have distinct emails |
| EventContext.WithId | src/context/EventContext.tsx:11-14 | the new event carries exactly the given id, and dropping the id gives the supplied data back |
| EventContext.AddAttendeeTwice | src/context/EventContext.tsx:19-29 | submitting the facade's attendee twice equals submitting it once; afterwards every target event has that email; with distinct emails before, they stay distinct |
| EventContext.AddAttendeeTwiceExactlyOnce | src/context/EventContext.tsx:19-29 | with distinct emails beforehand, after two facade calls adding the same email every target event has exactly one attendee with that email |
| EventContext.EventProvider.constructor | src/context/EventContext.tsx:8 | the held events are the ones loaded at start-up, and storage holds them |
| EventContext.EventProvider.Dispatch | src/context/EventContext.tsx:8 | the held events become the reducer's result on the old events, and the persisted copy becomes what that branch saved, which equals the held events |
| EventContext.EventProvider.AddEvent | src/context/EventContext.tsx:10-17 | the events become the old events plus the data under the given fresh id, and the new last event carries exactly that id and the supplied data; unique ids stay unique; distinct emails stay distinct when the data's emails are distinct; storage equals the live events |
| EventContext.EventProvider.AddAttendee | src/context/EventContext.tsx:19-29 | the effect equals ADD_ATTENDEE with status `Yes`; events with another id, or that already have the email, are unchanged; otherwise the attendee with status `Yes` ends up last; every target event then has the email; the invariants are kept; storage equals the live events |
| EventContext.EventProvider.DeleteEvent | src/context/EventContext.tsx:31-36 | the effect equals DELETE_EVENT; exactly the events with another id remain; deleting an absent id changes nothing; the invariants are kept; storage equals the live events |
| EventContext.EventProvider.UpdateEvent | src/context/EventContext.tsx:38-40 | the effect equals UPDATE_EVENT; events with a matching id are replaced position by position; the ids are unchanged; the invariants are kept, given the payload's emails are distinct; storage equals the live events |
| EventContext.EventProvider.UpdateAttendeeStatus | src/context/EventContext.tsx:42-51 | the effect equals UPDATE_ATTENDEE_STATUS; only the statuses of matching attendees in matching events change; the invariants are kept; storage equals the live events |
| EventContext.Session | src/context/EventContext.tsx:10-51 | creating an event, adding the same email twice, setting its status to `No`, creating a second event and deleting the first leaves one attendee with status `No` and then only the second event |

## Left out

- Browser storage (`src/utils/localStorage.ts`) is not part of this model. It reads and writes a fixed key through JSON. Saving is the ghost field `persisted`, which `Dispatch` sets to the sequence the branch hands to storage. Loading is the constructor's argument. There is no JSON round-trip proof, and nothing is said about data stored in the wrong shape.
- The fresh id of `addEvent` comes from `crypto.randomUUID()`, which is external randomness. The id is a parameter of `EventProvider.AddEvent`. Its freshness (`id !in Ids(events)`) is a precondition that stands in for the generator's guarantee.
- The reducer's `default` branch is not modelled. The action type is closed, so no value reaches that branch.
- The React plumbing is not modelled: the provider component, the context value that hands `state` and `dispatch` to consumers, re-rendering, and the guard that throws outside a provider (`src/context/useEventContext.ts`). `EventProvider.Dispatch` stands for the dispatch function itself.
- The UI files under `src/components`, `src/pages`, `src/layout` and `src/App.tsx` are not part of this model. This includes the form's own duplicate check, the confirmed-attendee count display and the duplicate-warning timeout. The reducer's duplicate rule is the one that governs stored state.
- Email uniqueness is not claimed as an unconditional invariant. ADD_EVENT and UPDATE_EVENT store their payload's attendees as given, so the preservation lemmas and method contracts assume distinct emails in those payloads.
- Object identity is not modelled. Every branch returns a fresh array and a fresh state object, and unchanged events are shared by reference. The model compares by value.
