# Event store model

A Dafny model of the in-memory event store behind the `/api/events` resource
of `app/server.py`. The model covers the process-wide list of events, id
assignment (`get_next_id`), lookup (`get_stored_event`), removal
(`remove_event`), the `Event` constructor, and the store logic of the five
handlers: list, get, create, update and delete. The HTTP layer is not modelled.

The store is an immutable `seq<Event>` (`Events.Store`). Each handler is a pure
function from the store before the request to a `Response`. A `Response`
holds the store after the request and an `Outcome`:

- `Ok(event)` stands for 200, or 201 on create.
- `Listed(events)` is the listing.
- `Removed` is "Event removed".
- `NotFound` is 404.
- `BadRequest` is `abort(400)`.
- `ParseFailure` is the uncaught exception `datetime.strptime` raises on text
  that does not match `%Y-%m-%d %H:%M:%S`. Flask turns it into a 500.

Request fields are `Option<string>`. A field counts as given (`Supplied`) only
when it is present and non-empty, because the source tests Python truthiness.
The timestamp parser is a parameter `parses: string -> bool` of create and
update. The stored timestamp is the text the client sent, as in the source.

Files:

- `events.dfy`, module `Events`: the records, the outcomes and the store
  invariant `ValidStore`. The invariant says every id is positive and no id
  occurs twice.
- `store.dfy`, module `EventStore`: the operations. It also holds the
  reference predicates their contracts are stated against:
  - `CreateFieldsValid` and `CreateAccepts` state create's acceptance rules.
  - `Rejected` and `UpdateAccepts` state update's rules, one field at a time.
  - `Merge` is the field-wise meaning of an update.
  - `Keep` is an update body cut off before a given field.
  - `GetAllEvents` is the listing handler; it answers `Listed` with the
    whole store in insertion order.
- `properties.dfy`, module `StoreProperties`: lemmas that relate several
  calls. They cover the id invariant over any request sequence, deletion as
  filtering, id reuse, and the quirks of update.

Behaviour reproduced as the code is written:

- **Update is not atomic.** Fields are handled in the order name, description,
  organizer, timestamp. They are written into the stored event one at a time.
  A refused field aborts the request, but the fields written before it stay
  written.
- **Bounds differ by one.** Create accepts a name or organizer of up to 100
  characters and a description of up to 1000. Update requires fewer than 100
  and fewer than 1000.
- **Empty strings read as absent.** On create, an empty name, description or
  timestamp is refused. An empty organizer is stored as given (`Some("")`), and
  a missing one is stored as `None`. On update, an empty field leaves the old
  value in place, so the organizer can never be cleared.
- **Ids are recomputed.** The next id is always the largest stored id plus 1,
  or 1 for an empty store. After the largest-id event is deleted, the next id
  falls to (largest remaining id) + 1. That is at most the freed id, and equals
  it exactly when the id just below is still stored. So ids are not a running
  counter, and a freed id can be handed out again.
- **No date-range checks.** The code has no "not in the past" or "at most one
  year ahead" rule, so none is modelled.
- **A bad timestamp is not a 400.** An unparseable timestamp raises instead of
  returning a falsy value. So the `else: abort(400)` of update is
  unreachable. The model returns `ParseFailure` and keeps the earlier field
  writes, just as the in-place mutation does.

## Model

| member | source | states |
|---|---|---|
| EventStore.MaxId | app/server.py:14 | the result bounds every stored id from above and is itself one of the stored ids |
| EventStore.NextId | app/server.py:12-17 | 1 for an empty store; otherwise strictly above every stored id, and one more than some stored id (so it is max + 1) |
| EventStore.FindIndex | app/server.py:22-27 | returns the position of the first event with the id, with no earlier event carrying it; None exactly when no event carries the id |
| EventStore.GetStoredEvent | app/server.py:22-27 | returns an event exactly when some stored event has the id; the returned event carries the id and is the first such event in the store |
| EventStore.RemoveEvent | app/server.py:19-20 | the store loses exactly the event at that position: one shorter, the events before and after it kept in order, the multiset minus that event |
| EventStore.NewEvent | app/server.py:29-36 | the new event keeps the given fields and gets exactly the store's next id (NextId), hence above every id in the store and positive when the store is valid |
| EventStore.CreateEvent | app/server.py:63-83 | BadRequest exactly when a field rule fails (name or description missing, empty or too long; a given organizer over 100; timestamp missing or empty); Ok exactly when the rules hold and the timestamp parses; every failure leaves the store unchanged; on success the store is the old store plus one event at the end, with id NextId of the old store and the given fields |
| EventStore.GetEvent | app/server.py:54-61 | NotFound exactly when no event has the id; otherwise Ok with a stored event carrying that id |
| EventStore.ApplyUpdate | app/server.py:91-110 | the id never changes; Ok exactly when no given field is refused, and then the event is the field-wise Merge of the body; if field k is the first refused one, the event is Merge of only the fields before k, with BadRequest for a text field and ParseFailure for the timestamp |
| EventStore.UpdateEvent | app/server.py:86-114 | NotFound exactly when the id is absent, and then the store is unchanged; the length and every id are kept; only the matched event may change; success exactly when no given field is refused, and then the matched event becomes Merge of the body; if field k is the first refused one, the matched event is left as Merge of only the fields before k and the answer is BadRequest for a text field, ParseFailure for the timestamp |
| EventStore.DeleteEvent | app/server.py:117-125 | NotFound exactly when the id is absent, and then the store is unchanged; otherwise Removed, with the store one shorter and missing exactly the looked-up event (as a multiset) |
| StoreProperties.LookupFindsTheOnlyMatch | app/server.py:22-27 | under unique ids, looking up the id of any stored event returns that event, both from the helper and from GET |
| StoreProperties.CreateKeepsValidStore | app/server.py:76-82 | create keeps all ids positive and distinct |
| StoreProperties.UpdateKeepsValidStore | app/server.py:91-110 | update keeps all ids positive and distinct |
| StoreProperties.DeleteKeepsValidStore | app/server.py:117-125 | delete keeps all ids positive and distinct |
| StoreProperties.RunKeepsValidStore | app/server.py:10-17 | from a valid store (the empty start store included), every sequence of list, get, create, update and delete requests leaves ids positive and unique |
| StoreProperties.CreatedEventIsListed | app/server.py:49-52 | after a successful create, the listing (`EventStore.GetAllEvents`) is the old listing with the new event appended, and GET of the new id returns that event |
| StoreProperties.CreateUpdateBoundMismatch | app/server.py:66-95 | an event created with a 100-character name is accepted by create, but the same body sent as an update of that event is BadRequest, with the store unchanged |
| StoreProperties.UpdateKeepsEarlierWrites | app/server.py:91-100 | an update with an acceptable name and an over-long description answers BadRequest, yet the new name stays written and nothing else changes |
| StoreProperties.UpdateOrganizerOnly | app/server.py:101-105 | an update carrying only a short organizer succeeds and changes that event's organizer and nothing else |
| StoreProperties.UpdateIdempotent | app/server.py:91-111 | repeating an accepted update leaves the store as the first one left it |
| StoreProperties.DeleteIsFilter | app/server.py:117-125 | under unique ids, the store after delete is exactly the old store with the events carrying that id filtered out, order kept |
| StoreProperties.DeleteTwiceNotFound | app/server.py:117-125 | after a delete of an id, deleting it again is NotFound with the store unchanged, and GET of it is NotFound |
| StoreProperties.NextIdAfterDelete | app/server.py:12-17 | after deleting the largest-id event, the next id is at most the freed id, and equal to it exactly when the id below it is still stored (or the store is left empty and the freed id was 1); deleting any other event leaves the next id unchanged |
| StoreProperties.ConsecutiveNextId | app/server.py:12-17 | in a store numbered 1..n in order, the next id is n + 1 |
| StoreProperties.CreateKeepsConsecutive | app/server.py:76-82 | create keeps a store numbered 1..n numbered consecutively |
| StoreProperties.DeleteNewestThenCreateReusesId | app/server.py:117-125 | in a store numbered 1..n, deleting event n and then creating one gives the new event id n |

## Left out

- Flask routing, the blueprint, `jsonify`, `request.get_json`, `app.run` and
  the numeric status codes. Outcomes are an enumeration instead.
- `Event.__str__` (app/server.py:38-45) only builds the JSON dictionary. The
  model returns the `Event` value itself.
- `datetime.strptime`: the format grammar is not modelled. It is the parser
  parameter `parses`.
- Non-string JSON values and a missing or null body. In the source these are
  dynamic-typing crashes outside the store logic. Fields are `Option<string>`.
- Concurrency: the shared global list has no lock. The model is a single
  store value that requests pass through one at a time.
- Identity versus equality: `list.remove` removes the object that was looked
  up, because `Event` has no `__eq__`. The model removes the element at the
  looked-up position, which is the same thing.
- String length is the number of `char`s, that is, Unicode scalar values.
  Python's `len` counts code points, which also include lone surrogates (a JSON
  body can carry them as `\ud800` escapes); a Dafny `char` cannot hold those,
  so such strings cannot be represented in the model.
- EventStore.DeleteEvent: its contract says which event disappears as a
  multiset, not that the order of the others is kept. The order is proved
  separately, under unique ids, by `StoreProperties.DeleteIsFilter`.
