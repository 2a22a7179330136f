/** The event store's operations: id assignment, lookup, removal and the
    create / get / list / update / delete handlers, each a pure function
    from the store before the request to the response and the store after. */
module EventStore {
  import opened Events

  // ---------------------------------------------------------------------------
  // Identity assignment and lookup
  // ---------------------------------------------------------------------------

  /** The largest id in a non-empty store. */
  function MaxId(s: Store): (m: int)
    requires |s| > 0
    ensures forall i :: 0 <= i < |s| ==> s[i].id <= m
    ensures exists i :: 0 <= i < |s| && s[i].id == m
  {
    if |s| == 1 then s[0].id
    else
      var rest := MaxId(s[1..]);
      assert s[1..][0] == s[1];
      if s[0].id >= rest then s[0].id else rest
  }

  /** The id the next created event receives: recomputed from the current
      contents, one above the largest id, or 1 for an empty store. */
  function NextId(s: Store): (r: int)
    ensures |s| == 0 ==> r == 1
    ensures forall i :: 0 <= i < |s| ==> s[i].id < r
    ensures |s| > 0 ==> HasId(s, r - 1)
  {
    if |s| > 0 then MaxId(s) + 1 else 1
  }

  /** The position of the first event carrying `id`, if any. */
  function FindIndex(s: Store, id: int): (r: Option<nat>)
    ensures r.Some? ==> r.value < |s| && s[r.value].id == id
    ensures r.Some? ==> forall j :: 0 <= j < r.value ==> s[j].id != id
    ensures r.None? <==> !HasId(s, id)
  {
    if |s| == 0 then None
    else if s[0].id == id then Some(0)
    else
      match FindIndex(s[1..], id)
      case None =>
        assert forall j :: 1 <= j < |s| ==> s[j] == s[1..][j - 1];
        None
      case Some(k) => Some(k + 1)
  }

  /** The first stored event whose id equals `id`, or `None`. */
  function GetStoredEvent(s: Store, id: int): (r: Option<Event>)
    ensures r.Some? <==> HasId(s, id)
    ensures r.Some? ==> r.value.id == id
    ensures r.Some? ==> exists i :: 0 <= i < |s| && s[i] == r.value
                                    && forall j :: 0 <= j < i ==> s[j].id != id
  {
    match FindIndex(s, id)
    case None => None
    case Some(i) => Some(s[i])
  }

  /** Drops the event at position `i`, keeping the others in order. */
  function RemoveEvent(s: Store, i: nat): (r: Store)
    requires i < |s|
    ensures |r| == |s| - 1
    ensures forall j :: 0 <= j < i ==> r[j] == s[j]
    ensures forall j :: i <= j < |r| ==> r[j] == s[j + 1]
    ensures multiset(r) + multiset{s[i]} == multiset(s)
  {
    assert s == s[..i] + [s[i]] + s[i + 1..];
    s[..i] + s[i + 1..]
  }

  // ---------------------------------------------------------------------------
  // Create
  // ---------------------------------------------------------------------------

  /** The field rules create checks before it parses the timestamp: name and
      description given with at most 100 and 1000 characters, organizer either
      not given or at most 100 characters, timestamp given. */
  predicate CreateFieldsValid(input: EventInput)
  {
    && Supplied(input.name) && |input.name.value| <= MaxNameLength
    && Supplied(input.description) && |input.description.value| <= MaxDescriptionLength
    && (Supplied(input.organizer) ==> |input.organizer.value| <= MaxOrganizerLength)
    && Supplied(input.datetime)
  }

  /** Create succeeds exactly when the field rules hold and the timestamp parses. */
  predicate CreateAccepts(input: EventInput, parses: Parser)
  {
    CreateFieldsValid(input) && parses(input.datetime.value)
  }

  /** Building an event assigns it the next id of the store it is about to join. */
  function NewEvent(s: Store, name: string, description: string,
                    organizer: Option<string>, datetime: string): (e: Event)
    ensures e.id == NextId(s)
    ensures forall i :: 0 <= i < |s| ==> s[i].id < e.id
    ensures ValidStore(s) ==> e.id > 0
    ensures e.name == name && e.description == description
    ensures e.organizer == organizer && e.datetime == datetime
  {
    Event(NextId(s), name, description, organizer, datetime)
  }

  /** POST: checks name, description, organizer and timestamp in that order,
      then appends the new event. Every check runs before the store changes. */
  function CreateEvent(s: Store, input: EventInput, parses: Parser): (r: Response)
    ensures r.outcome.Ok? || r.outcome.BadRequest? || r.outcome.ParseFailure?
    ensures r.outcome.BadRequest? <==> !CreateFieldsValid(input)
    ensures r.outcome.Ok? <==> CreateAccepts(input, parses)
    ensures !r.outcome.Ok? ==> r.store == s
    ensures r.outcome.Ok? ==>
              && r.store == s + [r.outcome.event]
              && r.outcome.event.id == NextId(s)
              && r.outcome.event.name == input.name.value
              && r.outcome.event.description == input.description.value
              && r.outcome.event.organizer == input.organizer
              && r.outcome.event.datetime == input.datetime.value
  {
    if !Supplied(input.name) || |input.name.value| > MaxNameLength then
      Response(s, BadRequest)
    else if !Supplied(input.description) || |input.description.value| > MaxDescriptionLength then
      Response(s, BadRequest)
    else if Supplied(input.organizer) && |input.organizer.value| > MaxOrganizerLength then
      Response(s, BadRequest)
    else if !Supplied(input.datetime) then
      Response(s, BadRequest)
    else if !parses(input.datetime.value) then
      Response(s, ParseFailure)
    else
      var e := NewEvent(s, input.name.value, input.description.value,
                        input.organizer, input.datetime.value);
      Response(s + [e], Ok(e))
  }

  // ---------------------------------------------------------------------------
  // Read
  // ---------------------------------------------------------------------------

  /** GET of one event by id. */
  function GetEvent(s: Store, id: int): (r: Outcome)
    ensures r.Ok? || r.NotFound?
    ensures r.NotFound? <==> !HasId(s, id)
    ensures r.Ok? ==> r.event.id == id && r.event in s
  {
    match GetStoredEvent(s, id)
    case None => NotFound
    case Some(e) => Ok(e)
  }

  /** GET of the whole collection, in insertion order. */
  function GetAllEvents(s: Store): Outcome
  {
    Listed(s)
  }

  // ---------------------------------------------------------------------------
  // Update
  // ---------------------------------------------------------------------------

  /** Update looks at the fields in this order: 0 name, 1 description,
      2 organizer, 3 timestamp. */
  function Field(input: EventInput, k: nat): Option<string>
    requires k < 4
  {
    if k == 0 then input.name
    else if k == 1 then input.description
    else if k == 2 then input.organizer
    else input.datetime
  }

  /** Update's bounds are strict: a text field must be SHORTER than this. */
  function UpdateLimit(k: nat): nat
    requires k < 3
  {
    if k == 1 then MaxDescriptionLength else if k == 0 then MaxNameLength else MaxOrganizerLength
  }

  /** Field `k` is given and update refuses it: too long, or a timestamp that
      does not parse. */
  predicate Rejected(input: EventInput, parses: Parser, k: nat)
    requires k < 4
  {
    && Supplied(Field(input, k))
    && (if k < 3 then |Field(input, k).value| >= UpdateLimit(k)
        else !parses(Field(input, k).value))
  }

  /** Update succeeds exactly when no given field is refused. */
  predicate UpdateAccepts(input: EventInput, parses: Parser)
  {
    forall k :: 0 <= k < 4 ==> !Rejected(input, parses, k)
  }

  /** The fields of `input` before position `k`; the later ones read as absent. */
  function Keep(input: EventInput, k: nat): EventInput
  {
    EventInput(
      if k > 0 then input.name else None,
      if k > 1 then input.description else None,
      if k > 2 then input.organizer else None,
      if k > 3 then input.datetime else None)
  }

  /** Reference meaning of an update: every given field overwrites, every
      other field and the id keep their values. */
  function Merge(e: Event, input: EventInput): Event
  {
    Event(
      e.id,
      if Supplied(input.name) then input.name.value else e.name,
      if Supplied(input.description) then input.description.value else e.description,
      if Supplied(input.organizer) then input.organizer else e.organizer,
      if Supplied(input.datetime) then input.datetime.value else e.datetime)
  }

  /** The in-place mutation of one event by a PUT body. A refused field aborts
      the request, but fields handled before it have already been written. */
  function ApplyUpdate(e: Event, input: EventInput, parses: Parser): (r: (Event, Outcome))
    ensures r.0.id == e.id
    ensures r.1.Ok? || r.1.BadRequest? || r.1.ParseFailure?
    ensures r.1.Ok? <==> UpdateAccepts(input, parses)
    ensures r.1.Ok? ==> r.0 == Merge(e, input) && r.1.event == r.0
    ensures forall k :: 0 <= k < 4 && Rejected(input, parses, k)
                        && (forall j :: 0 <= j < k ==> !Rejected(input, parses, j)) ==>
              && r.0 == Merge(e, Keep(input, k))
              && r.1 == (if k == 3 then ParseFailure else BadRequest)
  {
    if Supplied(input.name) && |input.name.value| >= MaxNameLength then
      assert Rejected(input, parses, 0);
      (e, BadRequest)
    else
      var e1 := if Supplied(input.name) then e.(name := input.name.value) else e;
      if Supplied(input.description) && |input.description.value| >= MaxDescriptionLength then
        assert Rejected(input, parses, 1);
        (e1, BadRequest)
      else
        var e2 := if Supplied(input.description) then e1.(description := input.description.value) else e1;
        if Supplied(input.organizer) && |input.organizer.value| >= MaxOrganizerLength then
          assert Rejected(input, parses, 2);
          (e2, BadRequest)
        else
          var e3 := if Supplied(input.organizer) then e2.(organizer := input.organizer) else e2;
          if Supplied(input.datetime) && !parses(input.datetime.value) then
            assert Rejected(input, parses, 3);
            (e3, ParseFailure)
          else
            var e4 := if Supplied(input.datetime) then e3.(datetime := input.datetime.value) else e3;
            assert !Rejected(input, parses, 0) && !Rejected(input, parses, 1);
            assert !Rejected(input, parses, 2) && !Rejected(input, parses, 3);
            (e4, Ok(e4))
  }

  /** PUT: finds the event by id and mutates it in place; the store keeps
      whatever was written before an abort. */
  function UpdateEvent(s: Store, id: int, input: EventInput, parses: Parser): (r: Response)
    ensures r.outcome.NotFound? <==> !HasId(s, id)
    ensures r.outcome.NotFound? ==> r.store == s
    ensures |r.store| == |s|
    ensures forall j :: 0 <= j < |s| ==> r.store[j].id == s[j].id
    ensures HasId(s, id) ==>
              exists i :: 0 <= i < |s| && s[i].id == id
                          && (forall j :: 0 <= j < |s| && j != i ==> r.store[j] == s[j])
                          && (r.outcome.Ok? <==> UpdateAccepts(input, parses))
                          && (r.outcome.Ok? ==> r.store[i] == Merge(s[i], input)
                                                && r.outcome.event == r.store[i])
                          && (forall k :: 0 <= k < 4 && Rejected(input, parses, k)
                                          && (forall j :: 0 <= j < k ==> !Rejected(input, parses, j)) ==>
                                && r.store[i] == Merge(s[i], Keep(input, k))
                                && r.outcome == (if k == 3 then ParseFailure else BadRequest))
  {
    match FindIndex(s, id)
    case None => Response(s, NotFound)
    case Some(i) =>
      var u := ApplyUpdate(s[i], input, parses);
      Response(s[i := u.0], u.1)
  }

  // ---------------------------------------------------------------------------
  // Delete
  // ---------------------------------------------------------------------------

  /** DELETE: removes the first event carrying `id`. */
  function DeleteEvent(s: Store, id: int): (r: Response)
    ensures r.outcome.Removed? || r.outcome.NotFound?
    ensures r.outcome.NotFound? <==> !HasId(s, id)
    ensures r.outcome.NotFound? ==> r.store == s
    ensures r.outcome.Removed? ==>
              && |r.store| == |s| - 1
              && multiset(r.store) + multiset{GetStoredEvent(s, id).value} == multiset(s)
  {
    match FindIndex(s, id)
    case None => Response(s, NotFound)
    case Some(i) => Response(RemoveEvent(s, i), Removed)
  }
}
