/** Values and specification functions of the reservation service: the rows of the
    reservations table, the seats booked against an event, the capacity invariant,
    the ownership filters and the field-by-field patch, with the lemmas that say
    which operations keep every event within its capacity. */
module ReservationModel {

  /** One row of the reservations table. */
  datatype Reservation = Reservation(id: int, userId: int, eventId: int, numGuests: int)

  /** The errors a handler raises as an HTTP exception. */
  datatype Error = EventNotFound | CapacityExceeded | NotFound

  /** How a handler finishes: it returns a value or raises an error. */
  datatype Outcome<+T> = Ok(value: T) | Err(error: Error)

  datatype Option<+T> = None | Some(value: T) {
    /** The value held, or `default` when there is none. */
    function GetOr(default: T): T {
      if Some? then value else default
    }
  }

  /** The events table, reduced to what reservations need: event id to capacity. */
  type Events = map<int, int>

  // ---------------------------------------------------------------------------
  // Seats booked against an event
  // ---------------------------------------------------------------------------

  /** The seats reservation `r` takes from event `e`. */
  function Share(r: Reservation, e: int): int {
    if r.eventId == e then r.numGuests else 0
  }

  predicate NonNegativeGuests(rs: seq<Reservation>) {
    forall k :: 0 <= k < |rs| ==> rs[k].numGuests >= 0
  }

  /** The sum of num_guests over the reservations stored for event `e`. */
  function Booked(rs: seq<Reservation>, e: int): (total: int)
    ensures NonNegativeGuests(rs) ==> total >= 0
    ensures (forall k :: 0 <= k < |rs| ==> rs[k].eventId != e) ==> total == 0
  {
    if rs == [] then 0 else Share(rs[0], e) + Booked(rs[1..], e)
  }

  /** The invariant of the whole service: no event has more seats booked than its capacity. */
  predicate WithinCapacity(events: Events, rs: seq<Reservation>) {
    forall e :: e in events ==> Booked(rs, e) <= events[e]
  }

  lemma {:induction false} BookedAppend(rs: seq<Reservation>, r: Reservation, e: int)
    ensures Booked(rs + [r], e) == Booked(rs, e) + Share(r, e)
  {
    if rs == [] {
      assert [] + [r] == [r];
    } else {
      assert (rs + [r])[1..] == rs[1..] + [r];
      BookedAppend(rs[1..], r, e);
    }
  }

  lemma {:induction false} BookedReplace(rs: seq<Reservation>, i: nat, r: Reservation, e: int)
    requires i < |rs|
    ensures Booked(rs[i := r], e) == Booked(rs, e) - Share(rs[i], e) + Share(r, e)
  {
    if i > 0 {
      assert rs[i := r][1..] == rs[1..][i - 1 := r];
      BookedReplace(rs[1..], i - 1, r, e);
    }
  }

  /** `rs` without its `i`-th row. */
  function RemoveAt(rs: seq<Reservation>, i: nat): (rest: seq<Reservation>)
    requires i < |rs|
    ensures |rest| == |rs| - 1
    ensures forall k :: 0 <= k < |rest| ==> rest[k] == rs[if k < i then k else k + 1]
  {
    rs[..i] + rs[i + 1..]
  }

  lemma {:induction false} BookedRemove(rs: seq<Reservation>, i: nat, e: int)
    requires i < |rs|
    ensures Booked(RemoveAt(rs, i), e) == Booked(rs, e) - Share(rs[i], e)
  {
    if i > 0 {
      assert RemoveAt(rs, i)[1..] == RemoveAt(rs[1..], i - 1);
      BookedRemove(rs[1..], i - 1, e);
    } else {
      assert RemoveAt(rs, 0) == rs[1..];
    }
  }

  // ---------------------------------------------------------------------------
  // Which operations keep the invariant
  // ---------------------------------------------------------------------------

  /** An admitted create keeps every event within capacity: the event it books
      against had room for it, and no other event's total moves. */
  lemma CreatePreservesCapacity(events: Events, rs: seq<Reservation>, r: Reservation)
    requires WithinCapacity(events, rs)
    requires r.eventId in events && Booked(rs, r.eventId) + r.numGuests <= events[r.eventId]
    ensures WithinCapacity(events, rs + [r])
  {
    forall e | e in events ensures Booked(rs + [r], e) <= events[e] {
      BookedAppend(rs, r, e);
    }
  }

  /** Deleting a reservation with a non-negative seat count only lowers its event's total. */
  lemma DeletePreservesCapacity(events: Events, rs: seq<Reservation>, i: nat)
    requires WithinCapacity(events, rs)
    requires i < |rs| && rs[i].numGuests >= 0
    ensures WithinCapacity(events, RemoveAt(rs, i))
  {
    forall e | e in events ensures Booked(RemoveAt(rs, i), e) <= events[e] {
      BookedRemove(rs, i, e);
    }
  }

  /** Replacing a row by one for the same event with no more seats keeps the invariant. */
  lemma ShrinkPreservesCapacity(events: Events, rs: seq<Reservation>, i: nat, r: Reservation)
    requires WithinCapacity(events, rs)
    requires i < |rs| && r.eventId == rs[i].eventId && r.numGuests <= rs[i].numGuests
    ensures WithinCapacity(events, rs[i := r])
  {
    forall e | e in events ensures Booked(rs[i := r], e) <= events[e] {
      BookedReplace(rs, i, r, e);
    }
  }

  /** Replacing a row of a fully booked event by one for the same event with more seats
      pushes that event over its capacity: nothing in the update path prevents this. */
  lemma GrowBreaksCapacity(events: Events, rs: seq<Reservation>, i: nat, r: Reservation)
    requires i < |rs| && rs[i].eventId in events
    requires Booked(rs, rs[i].eventId) == events[rs[i].eventId]
    requires r.eventId == rs[i].eventId && r.numGuests > rs[i].numGuests
    ensures !WithinCapacity(events, rs[i := r])
  {
    BookedReplace(rs, i, r, r.eventId);
  }

  /** Replacing one row keeps the invariant exactly when every event's total, less the
      old row's share and plus the new row's, stays within its capacity. This covers a
      patch of num_guests and a patch of event_id alike. */
  lemma ReplaceWithinCapacity(events: Events, rs: seq<Reservation>, i: nat, r: Reservation)
    requires i < |rs|
    ensures WithinCapacity(events, rs[i := r]) <==>
      forall e :: e in events ==> Booked(rs, e) - Share(rs[i], e) + Share(r, e) <= events[e]
  {
    forall e | e in events {
      BookedReplace(rs, i, r, e);
    }
  }

  /** Moving a row to another event that has no room for its seats pushes that event
      over its capacity: the update path does not check event_id changes either. */
  lemma MoveBreaksCapacity(events: Events, rs: seq<Reservation>, i: nat, r: Reservation)
    requires i < |rs| && r.eventId in events && r.eventId != rs[i].eventId
    requires Booked(rs, r.eventId) + r.numGuests > events[r.eventId]
    ensures !WithinCapacity(events, rs[i := r])
  {
    BookedReplace(rs, i, r, r.eventId);
  }

  // ---------------------------------------------------------------------------
  // Identifiers and ownership
  // ---------------------------------------------------------------------------

  predicate UniqueIds(rs: seq<Reservation>) {
    forall j, k :: 0 <= j < k < |rs| ==> rs[j].id != rs[k].id
  }

  predicate FreshId(rs: seq<Reservation>, id: int) {
    forall k :: 0 <= k < |rs| ==> rs[k].id != id
  }

  /** The filter every single-row handler applies: this id, owned by this user. */
  predicate Matches(r: Reservation, id: int, userId: int) {
    r.id == id && r.userId == userId
  }

  /** The reservations owned by `userId`, in table order. */
  function Owned(rs: seq<Reservation>, userId: int): (mine: seq<Reservation>)
    ensures forall r :: r in mine <==> r in rs && r.userId == userId
    ensures forall r :: multiset(mine)[r] == if r.userId == userId then multiset(rs)[r] else 0
  {
    if rs == [] then []
    else
      assert rs == [rs[0]] + rs[1..];
      if rs[0].userId == userId then [rs[0]] + Owned(rs[1..], userId)
      else Owned(rs[1..], userId)
  }

  /** The position of the first row with this id owned by `userId`, if any. */
  function FindOwned(rs: seq<Reservation>, id: int, userId: int): (found: Option<nat>)
    ensures found.Some? ==> found.value < |rs| && Matches(rs[found.value], id, userId)
    ensures found.Some? ==> forall k :: 0 <= k < found.value ==> !Matches(rs[k], id, userId)
    ensures found.None? <==> forall k :: 0 <= k < |rs| ==> !Matches(rs[k], id, userId)
  {
    if rs == [] then None
    else if Matches(rs[0], id, userId) then Some(0)
    else
      match FindOwned(rs[1..], id, userId)
      case None => None
      case Some(k) => Some(k + 1)
  }

  /** The row with this id owned by `userId`, if any. */
  function Lookup(rs: seq<Reservation>, id: int, userId: int): (row: Option<Reservation>)
    ensures row.Some? ==> row.value in rs && Matches(row.value, id, userId)
    ensures row.None? <==> forall r :: r in rs ==> !Matches(r, id, userId)
  {
    match FindOwned(rs, id, userId)
    case None => None
    case Some(k) => Some(rs[k])
  }

  /** A first row that does not match leaves the lookup to the rest of the table. */
  lemma LookupSkip(rs: seq<Reservation>, id: int, userId: int)
    requires rs != [] && !Matches(rs[0], id, userId)
    ensures Lookup(rs, id, userId) == Lookup(rs[1..], id, userId)
  {
  }

  /** A lookup sees only the caller's own rows: removing every other user's rows changes
      nothing, so another user's reservation is indistinguishable from a missing id. */
  lemma {:induction false} LookupSeesOnlyOwned(rs: seq<Reservation>, id: int, userId: int)
    ensures Lookup(rs, id, userId) == Lookup(Owned(rs, userId), id, userId)
  {
    if rs != [] {
      var rest := Owned(rs[1..], userId);
      LookupSeesOnlyOwned(rs[1..], id, userId);
      if Matches(rs[0], id, userId) {
        assert Owned(rs, userId) == [rs[0]] + rest;
      } else if rs[0].userId == userId {
        var mine := [rs[0]] + rest;
        assert Owned(rs, userId) == mine;
        assert mine[1..] == rest;
        LookupSkip(rs, id, userId);
        LookupSkip(mine, id, userId);
      } else {
        assert Owned(rs, userId) == rest;
        LookupSkip(rs, id, userId);
      }
    }
  }

  /** With unique ids, at most one row matches, so the lookup's row is the only one. */
  lemma LookupUnique(rs: seq<Reservation>, id: int, userId: int, k: nat)
    requires UniqueIds(rs) && k < |rs| && Matches(rs[k], id, userId)
    ensures FindOwned(rs, id, userId) == Some(k)
  {
  }

  // ---------------------------------------------------------------------------
  // Partial update
  // ---------------------------------------------------------------------------

  /** The fields a patch may carry. */
  datatype Field = NumGuests | EventId

  /** One item of the dumped patch: a field and its value, `None` for null. */
  datatype PatchEntry = PatchEntry(field: Field, value: Option<int>)

  function SetField(r: Reservation, f: Field, v: int): Reservation {
    match f
    case NumGuests => r.(numGuests := v)
    case EventId => r.(eventId := v)
  }

  /** One step of the patch loop: a non-null value overwrites its field. */
  function Step(r: Reservation, entry: PatchEntry): Reservation {
    if entry.value.Some? then SetField(r, entry.field, entry.value.value) else r
  }

  /** `r` after every entry of `patch` has been applied in order. */
  function Patched(r: Reservation, patch: seq<PatchEntry>): Reservation
    decreases |patch|
  {
    if patch == [] then r else Patched(Step(r, patch[0]), patch[1..])
  }

  /** The last non-null value `patch` gives field `f`, read from the end. */
  function LastGiven(patch: seq<PatchEntry>, f: Field): Option<int>
    decreases |patch|
  {
    if patch == [] then None
    else
      var later := LastGiven(patch[1..], f);
      if later.Some? then later
      else if patch[0].field == f then patch[0].value
      else None
  }

  /** What a patch does, field by field: the id and the owner never change, and each
      patchable field takes the last non-null value given for it, or keeps its value. */
  lemma {:induction false} PatchedFields(r: Reservation, patch: seq<PatchEntry>)
    ensures Patched(r, patch).id == r.id && Patched(r, patch).userId == r.userId
    ensures Patched(r, patch).numGuests == LastGiven(patch, NumGuests).GetOr(r.numGuests)
    ensures Patched(r, patch).eventId == LastGiven(patch, EventId).GetOr(r.eventId)
    decreases |patch|
  {
    if patch != [] {
      PatchedFields(Step(r, patch[0]), patch[1..]);
    }
  }

  // ---------------------------------------------------------------------------
  // delete_reservation's miss branch as written
  // ---------------------------------------------------------------------------

  /** How delete_reservation exits as written: the miss branch hands the NotFound
      exception back as its return value instead of raising it, so the handler never
      fails; the value is `Some(NotFound)` exactly when no owned row matches. */
  function DeleteOutcomeAsWritten(rs: seq<Reservation>, id: int, userId: int): (x: Outcome<Option<Error>>)
    ensures x.Ok?
    ensures x.value.Some? <==> forall r :: r in rs ==> !Matches(r, id, userId)
  {
    match Lookup(rs, id, userId)
    case None => Ok(Some(NotFound))
    case Some(_) => Ok(None)
  }
}
