/** Properties of the event store that relate several calls: the id
    invariant every handler keeps, deletion as filtering, id reuse after a
    deletion, and the observable quirks of update. */
module StoreProperties {
  import opened Events
  import opened EventStore

  // ---------------------------------------------------------------------------
  // Lookup under unique ids
  // ---------------------------------------------------------------------------

  /** With unique ids the first match is the only match: looking up the id of
      any stored event finds exactly that event. */
  lemma LookupFindsTheOnlyMatch(s: Store, i: nat)
    requires ValidStore(s)
    requires i < |s|
    ensures GetStoredEvent(s, s[i].id) == Some(s[i])
    ensures GetEvent(s, s[i].id) == Ok(s[i])
  {
  }

  // ---------------------------------------------------------------------------
  // The id invariant is kept by every handler
  // ---------------------------------------------------------------------------

  lemma CreateKeepsValidStore(s: Store, input: EventInput, parses: Parser)
    requires ValidStore(s)
    ensures ValidStore(CreateEvent(s, input, parses).store)
  {
  }

  lemma UpdateKeepsValidStore(s: Store, id: int, input: EventInput, parses: Parser)
    requires ValidStore(s)
    ensures ValidStore(UpdateEvent(s, id, input, parses).store)
  {
  }

  lemma DeleteKeepsValidStore(s: Store, id: int)
    requires ValidStore(s)
    ensures ValidStore(DeleteEvent(s, id).store)
  {
  }

  // ---------------------------------------------------------------------------
  // Whole request sequences
  // ---------------------------------------------------------------------------

  /** One request as the HTTP layer hands it to the store. */
  datatype Request =
    | ListAll
    | Get(id: int)
    | Create(input: EventInput)
    | Update(id: int, input: EventInput)
    | Delete(id: int)

  function Handle(s: Store, req: Request, parses: Parser): Response
  {
    match req
    case ListAll => Response(s, GetAllEvents(s))
    case Get(id) => Response(s, GetEvent(s, id))
    case Create(input) => CreateEvent(s, input, parses)
    case Update(id, input) => UpdateEvent(s, id, input, parses)
    case Delete(id) => DeleteEvent(s, id)
  }

  /** The store after serving `reqs` one after another. */
  function Run(s: Store, reqs: seq<Request>, parses: Parser): Store
    decreases |reqs|
  {
    if |reqs| == 0 then s else Run(Handle(s, reqs[0], parses).store, reqs[1..], parses)
  }

  /** Starting from any valid store (the process starts with an empty one),
      every sequence of requests leaves ids positive and unique. */
  lemma {:induction false} RunKeepsValidStore(s: Store, reqs: seq<Request>, parses: Parser)
    requires ValidStore(s)
    ensures ValidStore(Run(s, reqs, parses))
    decreases |reqs|
  {
    if |reqs| > 0 {
      match reqs[0] {
        case ListAll =>
        case Get(id) =>
        case Create(input) => CreateKeepsValidStore(s, input, parses);
        case Update(id, input) => UpdateKeepsValidStore(s, id, input, parses);
        case Delete(id) => DeleteKeepsValidStore(s, id);
      }
      RunKeepsValidStore(Handle(s, reqs[0], parses).store, reqs[1..], parses);
    }
  }

  // ---------------------------------------------------------------------------
  // Create
  // ---------------------------------------------------------------------------

  /** A created event shows up in the listing, at the end, and can be fetched by its id. */
  lemma CreatedEventIsListed(s: Store, input: EventInput, parses: Parser)
    requires ValidStore(s)
    requires CreateAccepts(input, parses)
    ensures var r := CreateEvent(s, input, parses);
            && GetAllEvents(r.store) == Listed(s + [r.outcome.event])
            && GetEvent(r.store, r.outcome.event.id) == r.outcome
  {
    var r := CreateEvent(s, input, parses);
    CreateKeepsValidStore(s, input, parses);
    LookupFindsTheOnlyMatch(r.store, |s|);
  }

  /** Create's bounds are inclusive and update's are strict: an event created
      with a 100-character name is refused when that same body is sent back
      as an update of it, and the event is left as it was. */
  lemma CreateUpdateBoundMismatch(s: Store, input: EventInput, parses: Parser)
    requires ValidStore(s)
    requires CreateAccepts(input, parses)
    requires |input.name.value| == MaxNameLength
    ensures var c := CreateEvent(s, input, parses);
            && c.outcome.Ok?
            && UpdateEvent(c.store, c.outcome.event.id, input, parses)
               == Response(c.store, BadRequest)
  {
    var c := CreateEvent(s, input, parses);
    CreateKeepsValidStore(s, input, parses);
    assert c.store[|s|].id == c.outcome.event.id;
    assert FindIndex(c.store, c.outcome.event.id) == Some(|s|);
  }

  // ---------------------------------------------------------------------------
  // Update
  // ---------------------------------------------------------------------------

  /** Update is not atomic: when the name is accepted and the description is
      too long, the request fails yet the new name stays written. */
  lemma UpdateKeepsEarlierWrites(s: Store, i: nat, input: EventInput, parses: Parser)
    requires ValidStore(s)
    requires i < |s|
    requires Supplied(input.name) && |input.name.value| < MaxNameLength
    requires Supplied(input.description) && |input.description.value| >= MaxDescriptionLength
    ensures var r := UpdateEvent(s, s[i].id, input, parses);
            && r.outcome == BadRequest
            && r.store == s[i := s[i].(name := input.name.value)]
  {
  }

  /** Sending only an organizer changes only the organizer. */
  lemma UpdateOrganizerOnly(s: Store, i: nat, org: string, parses: Parser)
    requires ValidStore(s)
    requires i < |s|
    requires 0 < |org| < MaxOrganizerLength
    ensures var r := UpdateEvent(s, s[i].id, EventInput(None, None, Some(org), None), parses);
            && r.outcome.Ok?
            && r.store == s[i := s[i].(organizer := Some(org))]
  {
  }

  /** Repeating an accepted update changes nothing further. */
  lemma UpdateIdempotent(s: Store, id: int, input: EventInput, parses: Parser)
    requires UpdateAccepts(input, parses)
    ensures var r := UpdateEvent(s, id, input, parses);
            UpdateEvent(r.store, id, input, parses).store == r.store
  {
  }

  // ---------------------------------------------------------------------------
  // Delete
  // ---------------------------------------------------------------------------

  /** Reference meaning of deletion: every event whose id differs, in order. */
  function Without(s: Store, id: int): (r: Store)
    ensures |r| <= |s|
    ensures !HasId(r, id)
    ensures forall x :: HasId(r, x) <==> HasId(s, x) && x != id
  {
    if |s| == 0 then []
    else if s[0].id == id then Without(s[1..], id)
    else
      var rest := Without(s[1..], id);
      assert forall x :: HasId([s[0]] + rest, x) <==> x == s[0].id || HasId(rest, x) by {
        forall x
          ensures HasId([s[0]] + rest, x) <==> x == s[0].id || HasId(rest, x)
        {
          var u := [s[0]] + rest;
          assert forall k :: 0 <= k < |rest| ==> u[k + 1] == rest[k];
          if HasId(u, x) && x != s[0].id {
            var k :| 0 <= k < |u| && u[k].id == x;
            assert rest[k - 1].id == x;
          }
          if x == s[0].id {
            assert u[0].id == x;
          }
        }
      }
      [s[0]] + rest
  }

  lemma {:induction false} WithoutAbsent(s: Store, id: int)
    requires !HasId(s, id)
    ensures Without(s, id) == s
    decreases |s|
  {
    if |s| > 0 {
      assert s[0].id != id;
      assert forall k :: 0 <= k < |s[1..]| ==> s[1..][k] == s[k + 1];
      WithoutAbsent(s[1..], id);
      assert s == [s[0]] + s[1..];
    }
  }

  /** Deleting the id of the first event drops just that event. */
  lemma DeleteAtHead(s: Store, id: int)
    requires |s| > 0 && s[0].id == id
    ensures DeleteEvent(s, id).store == s[1..]
  {
  }

  /** Deleting an id the first event does not carry happens in the tail. */
  lemma DeleteBehindHead(s: Store, id: int)
    requires |s| > 0 && s[0].id != id
    ensures DeleteEvent(s, id).store == [s[0]] + DeleteEvent(s[1..], id).store
  {
  }

  /** Under unique ids, deleting removes exactly the events carrying that id
      (at most one) and keeps the rest in order. */
  lemma {:induction false} DeleteIsFilter(s: Store, id: int)
    requires ValidStore(s)
    ensures DeleteEvent(s, id).store == Without(s, id)
    decreases |s|
  {
    if |s| > 0 {
      var tail := s[1..];
      assert forall k :: 0 <= k < |tail| ==> tail[k] == s[k + 1];
      if s[0].id == id {
        DeleteAtHead(s, id);
        WithoutAbsent(tail, id);
      } else {
        DeleteBehindHead(s, id);
        DeleteIsFilter(tail, id);
      }
    }
  }

  /** After a successful delete the id is gone: a second delete of the same id
      is NotFound, and so is a lookup. */
  lemma DeleteTwiceNotFound(s: Store, id: int)
    requires ValidStore(s)
    ensures var d := DeleteEvent(s, id);
            && DeleteEvent(d.store, id) == Response(d.store, NotFound)
            && GetEvent(d.store, id) == NotFound
  {
  }

  // ---------------------------------------------------------------------------
  // Id reuse
  // ---------------------------------------------------------------------------

  /** Ids are recomputed, not counted: after deleting the event with the
      largest id the next id drops to at most the freed one, and equals it
      exactly when the id just below it is still stored (or the store is left
      empty and the freed id was 1). Deleting any other event leaves the next
      id as it was. */
  lemma NextIdAfterDelete(s: Store, id: int)
    requires ValidStore(s)
    requires HasId(s, id)
    ensures var s' := DeleteEvent(s, id).store;
            && (id == NextId(s) - 1 ==> NextId(s') <= id)
            && (id == NextId(s) - 1 ==>
                  (NextId(s') == id <==> (|s'| == 0 && id == 1) || HasId(s', id - 1)))
            && (id != NextId(s) - 1 ==> NextId(s') == NextId(s))
  {
    var s' := DeleteEvent(s, id).store;
    DeleteIsFilter(s, id);
    assert forall x :: HasId(s', x) <==> HasId(s, x) && x != id;
    var top := NextId(s) - 1;
    assert HasId(s, top);
    if |s'| > 0 {
      assert HasId(s', NextId(s') - 1);
    }
    if id != top {
      assert HasId(s', top);
    }
  }

  /** Ids 1, 2, …, n in insertion order: the shape of any store built only by
      creates from the empty store. */
  predicate Consecutive(s: Store)
  {
    forall i :: 0 <= i < |s| ==> s[i].id == i + 1
  }

  lemma ConsecutiveNextId(s: Store)
    requires Consecutive(s)
    ensures NextId(s) == |s| + 1
  {
    if |s| > 0 {
      var k :| 0 <= k < |s| && s[k].id == NextId(s) - 1;
      assert s[|s| - 1].id == |s|;
    }
  }

  lemma CreateKeepsConsecutive(s: Store, input: EventInput, parses: Parser)
    requires Consecutive(s)
    ensures Consecutive(CreateEvent(s, input, parses).store)
  {
    ConsecutiveNextId(s);
  }

  /** In a consecutively numbered store, deleting the newest event and then
      creating one hands the freed id out again. */
  lemma DeleteNewestThenCreateReusesId(s: Store, input: EventInput, parses: Parser)
    requires Consecutive(s)
    requires |s| > 0
    requires CreateAccepts(input, parses)
    ensures var d := DeleteEvent(s, |s|);
            var c := CreateEvent(d.store, input, parses);
            && d.outcome == Removed
            && c.outcome.Ok?
            && c.outcome.event.id == |s|
  {
    assert s[|s| - 1].id == |s|;
    assert ValidStore(s);
    ConsecutiveNextId(s);
    var d := DeleteEvent(s, |s|);
    DeleteIsFilter(s, |s|);
    assert FindIndex(s, |s|) == Some(|s| - 1);
    assert d.store == s[..|s| - 1];
    ConsecutiveNextId(d.store);
  }
}
