/** The records the event store keeps and the requests and outcomes of its handlers. */
module Events {

  datatype Option<+T> = None | Some(value: T)

  /** One stored event. The timestamp is kept as the text the client sent;
      `organizer` is `None` when the request did not carry one. */
  datatype Event = Event(
    id: int,
    name: string,
    description: string,
    organizer: Option<string>,
    datetime: string)

  /** The decoded JSON body of a create or update request: each field may be absent. */
  datatype EventInput = EventInput(
    name: Option<string>,
    description: Option<string>,
    organizer: Option<string>,
    datetime: Option<string>)

  /** What a handler answers. `ParseFailure` is the uncaught exception the
      timestamp parser raises on text that does not match its format. */
  datatype Outcome =
    | Ok(event: Event)
    | Listed(events: seq<Event>)
    | Removed
    | NotFound
    | BadRequest
    | ParseFailure

  /** The store is the insertion-ordered list of events. */
  type Store = seq<Event>

  /** The timestamp parser (format `%Y-%m-%d %H:%M:%S`), left uninterpreted. */
  type Parser = string -> bool

  /** A handler's answer together with the store it leaves behind. */
  datatype Response = Response(store: Store, outcome: Outcome)

  /** A field counts as given only when present and non-empty (the empty
      string is falsy and so reads as "not supplied"). */
  predicate Supplied(f: Option<string>)
  {
    f.Some? && |f.value| > 0
  }

  const MaxNameLength: nat := 100
  const MaxDescriptionLength: nat := 1000
  const MaxOrganizerLength: nat := 100

  /** Some stored event carries `id`. */
  predicate HasId(s: Store, id: int)
  {
    exists i :: 0 <= i < |s| && s[i].id == id
  }

  /** The store invariant: every id is positive and no id occurs twice. */
  predicate ValidStore(s: Store)
  {
    && (forall i :: 0 <= i < |s| ==> s[i].id > 0)
    && (forall i, j :: 0 <= i < j < |s| ==> s[i].id != s[j].id)
  }
}
