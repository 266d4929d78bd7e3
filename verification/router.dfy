/** The /reservations handlers as methods of one store object. The store holds the
    events table and the reservations table; every handler is one atomic step
    against it, with the caller's user id given as a trusted parameter. */
module ReservationRouter {
  import opened ReservationModel

  /** The patch loop of update_reservation: each non-null value in the dumped patch
      overwrites its field of `r`, in order. */
  method ApplyPatch(r: Reservation, patch: seq<PatchEntry>) returns (p: Reservation)
    ensures p == Patched(r, patch)
    ensures p.id == r.id && p.userId == r.userId
    ensures p.numGuests == LastGiven(patch, NumGuests).GetOr(r.numGuests)
    ensures p.eventId == LastGiven(patch, EventId).GetOr(r.eventId)
  {
    p := r;
    var i := 0;
    while i < |patch|
      invariant 0 <= i <= |patch|
      invariant Patched(p, patch[i..]) == Patched(r, patch)
    {
      var entry := patch[i];
      assert patch[i..][1..] == patch[i + 1..];
      if entry.value.Some? {
        p := SetField(p, entry.field, entry.value.value);
      }
      i := i + 1;
    }
    PatchedFields(r, patch);
  }

  class ReservationStore {
    /** The events table: event id to capacity. This core never changes it. */
    var events: Events
    /** The reservations table. */
    var reservations: seq<Reservation>

    /** Row ids are unique, as the table's primary key makes them. */
    ghost predicate Valid()
      reads this
    {
      UniqueIds(reservations)
    }

    constructor (events: Events, reservations: seq<Reservation>)
      requires UniqueIds(reservations)
      ensures Valid()
      ensures this.events == events && this.reservations == reservations
    {
      this.events := events;
      this.reservations := reservations;
    }

    /** GET /reservations/: the caller's reservations and no one else's. */
    method ListReservations(userId: int) returns (mine: seq<Reservation>)
      ensures mine == Owned(reservations, userId)
      ensures forall r :: r in mine <==> r in reservations && r.userId == userId
    {
      mine := Owned(reservations, userId);
    }

    /** POST /reservations/: admit a request for `numGuests` seats of `eventId` when the
        seats already booked for the event leave room for it. `newId` stands for the id
        the database assigns to the inserted row. */
    method CreateReservation(userId: int, eventId: int, numGuests: int, newId: int)
      returns (res: Outcome<Reservation>)
      requires Valid()
      requires FreshId(reservations, newId)
      modifies this`reservations
      ensures Valid()
      ensures eventId !in events ==>
        res == Err(EventNotFound) && reservations == old(reservations)
      ensures eventId in events && Booked(old(reservations), eventId) + numGuests > events[eventId] ==>
        res == Err(CapacityExceeded) && reservations == old(reservations)
      ensures eventId in events && Booked(old(reservations), eventId) + numGuests <= events[eventId] ==>
        res == Ok(Reservation(newId, userId, eventId, numGuests)) &&
        reservations == old(reservations) + [res.value]
      ensures WithinCapacity(events, old(reservations)) ==> WithinCapacity(events, reservations)
    {
      if eventId !in events {
        return Err(EventNotFound);
      }
      var current := Booked(reservations, eventId);
      if current + numGuests > events[eventId] {
        return Err(CapacityExceeded);
      }
      var row := Reservation(newId, userId, eventId, numGuests);
      if WithinCapacity(events, reservations) {
        CreatePreservesCapacity(events, reservations, row);
      }
      reservations := reservations + [row];
      res := Ok(row);
    }

    /** GET /reservations/{id}: the row with this id when the caller owns it; NotFound
        both when the id is missing and when another user owns it. */
    method GetReservation(userId: int, id: int) returns (res: Outcome<Reservation>)
      ensures res.Ok? ==> res.value in reservations && Matches(res.value, id, userId)
      ensures res.Err? <==> forall r :: r in reservations ==> !Matches(r, id, userId)
      ensures res.Err? ==> res.error == NotFound
    {
      match Lookup(reservations, id, userId)
      case None => res := Err(NotFound);
      case Some(row) => res := Ok(row);
    }

    /** PATCH /reservations/{id}: overwrite the non-null fields of the patch on the
        caller's row; capacity is not checked again. */
    method UpdateReservation(userId: int, id: int, patch: seq<PatchEntry>)
      returns (res: Outcome<Reservation>)
      requires Valid()
      modifies this`reservations
      ensures Valid()
      ensures FindOwned(old(reservations), id, userId).None? ==>
        res == Err(NotFound) && reservations == old(reservations)
      ensures FindOwned(old(reservations), id, userId).Some? ==>
        var k := FindOwned(old(reservations), id, userId).value;
        res == Ok(Patched(old(reservations)[k], patch)) &&
        reservations == old(reservations)[k := res.value]
    {
      var found := FindOwned(reservations, id, userId);
      if found.None? {
        return Err(NotFound);
      }
      var k := found.value;
      var row := ApplyPatch(reservations[k], patch);
      reservations := reservations[k := row];
      res := Ok(row);
    }

    /** DELETE /reservations/{id}: remove the caller's row, failing with NotFound when
        there is none (the behaviour the miss branch evidently intends). */
    method DeleteReservation(userId: int, id: int) returns (res: Outcome<()>)
      requires Valid()
      modifies this`reservations
      ensures Valid()
      ensures FindOwned(old(reservations), id, userId).None? ==>
        res == Err(NotFound) && reservations == old(reservations)
      ensures FindOwned(old(reservations), id, userId).Some? ==>
        res == Ok(()) &&
        reservations == RemoveAt(old(reservations), FindOwned(old(reservations), id, userId).value)
      ensures (WithinCapacity(events, old(reservations)) &&
               (FindOwned(old(reservations), id, userId).Some? ==>
                  old(reservations)[FindOwned(old(reservations), id, userId).value].numGuests >= 0))
        ==> WithinCapacity(events, reservations)
    {
      var found := FindOwned(reservations, id, userId);
      if found.None? {
        return Err(NotFound);
      }
      var k := found.value;
      if WithinCapacity(events, reservations) && reservations[k].numGuests >= 0 {
        DeletePreservesCapacity(events, reservations, k);
      }
      reservations := RemoveAt(reservations, k);
      res := Ok(());
    }
  }

  /** Filling an event to exactly its capacity is admitted, one more seat is not, and an
      unknown event is reported as such. */
  method ScenarioAdmission() {
    var store := new ReservationStore(map[1 := 10], []);
    var a := store.CreateReservation(100, 1, 10, 1);
    assert Booked([], 1) == 0;
    assert a == Ok(Reservation(1, 100, 1, 10));
    BookedAppend([], Reservation(1, 100, 1, 10), 1);
    var b := store.CreateReservation(200, 1, 1, 2);
    assert b == Err(CapacityExceeded);
    var c := store.CreateReservation(100, 7, 1, 3);
    assert c == Err(EventNotFound);
  }

  /** Another user's reservation looks exactly like a missing one. */
  method ScenarioOwnership() {
    var store := new ReservationStore(map[1 := 10], [Reservation(1, 100, 1, 4)]);
    var d := store.GetReservation(200, 1);
    assert d == Err(NotFound);
    var mine := store.ListReservations(200);
    assert mine == [];
    var e := store.UpdateReservation(200, 1, [PatchEntry(NumGuests, Some(9))]);
    assert e == Err(NotFound);
    var f := store.DeleteReservation(200, 1);
    assert f == Err(NotFound) && store.reservations == [Reservation(1, 100, 1, 4)];
  }

  /** Raising num_guests on a full event is accepted and breaks the invariant; deleting
      the row frees its seats for the next request. */
  method ScenarioUpdateAndDelete() {
    var full := Reservation(1, 100, 1, 10);
    BookedAppend([], full, 1);
    var store := new ReservationStore(map[1 := 10], [full]);
    var e := store.UpdateReservation(100, 1, [PatchEntry(NumGuests, Some(11))]);
    assert e == Ok(Reservation(1, 100, 1, 11));
    GrowBreaksCapacity(map[1 := 10], [full], 0, Reservation(1, 100, 1, 11));
    assert !WithinCapacity(store.events, store.reservations);
    var f := store.DeleteReservation(100, 1);
    assert f == Ok(());
    assert store.reservations == [];
    var g := store.CreateReservation(200, 1, 5, 4);
    assert g.Ok?;
  }

  /** Moving a row into a full event through event_id is accepted too and breaks the
      invariant. */
  method ScenarioMove() {
    var small := Reservation(1, 100, 1, 5);
    var full := Reservation(2, 200, 2, 10);
    var store := new ReservationStore(map[1 := 10, 2 := 10], [small, full]);
    var e := store.UpdateReservation(100, 1, [PatchEntry(EventId, Some(2))]);
    assert e == Ok(Reservation(1, 100, 2, 5));
    BookedAppend([small], full, 2);
    BookedAppend([], small, 2);
    MoveBreaksCapacity(map[1 := 10, 2 := 10], [small, full], 0, Reservation(1, 100, 2, 5));
    assert !WithinCapacity(store.events, store.reservations);
  }
}
