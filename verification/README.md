# Event reservations: admission against capacity

This project models the reservation handlers of a FastAPI service (`/reservations`) in Dafny. An event has a fixed seat capacity. An authenticated user books `num_guests` seats of an event, and then lists, reads, patches or deletes their own reservations. The service has one invariant: no event may have more seats booked than its capacity. Create enforces it by summing the `num_guests` already stored for the event and rejecting the request when the sum plus the new request would exceed the capacity.

- `model.dfy`, module `ReservationModel`, holds the pure part:
  - the table rows and error kinds;
  - `Booked`, the sum of `num_guests` for one event;
  - `WithinCapacity`, the invariant;
  - the ownership filters (`Owned`, `FindOwned`, `Lookup`);
  - the field-by-field patch (`Patched`, and `LastGiven` as its reference definition);
  - the lemmas that show which operations keep the invariant and which do not. Create and delete keep it. Update keeps it exactly when every event's adjusted total stays within capacity. Update can break it by raising `num_guests` or by moving a row to another event through `event_id`, because neither change is checked against capacity.
- `router.dfy`, module `ReservationRouter`, holds the stateful part:
  - the class `ReservationStore`. Its two fields are the events table (event id to capacity) and the reservations table. It has one method per handler.
  - `ApplyPatch`, the patch loop of the update handler.
  - `ScenarioAdmission`, `ScenarioOwnership`, `ScenarioUpdateAndDelete` and `ScenarioMove`: client methods whose assertions Dafny proves for sample admission, ownership, update/delete and move sequences.

Each handler is one atomic step against the store. The source makes create atomic with a transaction and a `FOR UPDATE` lock on the event row, so serialized steps are what the model needs. The caller's user id is a trusted parameter, as the JWT dependency supplies it. The id the database assigns to a new row is the parameter `newId`, which must not already be in the table.

## Model

| member | source | states |
|---|---|---|
| `ReservationModel.Booked` | src/reservations/routers.py:67-71 | the seats booked for an event; never negative when no stored count is negative, and 0 when no row belongs to the event |
| `ReservationModel.CreatePreservesCapacity` | src/reservations/routers.py:67-91 | a row admitted because the stored total plus its seats fits the capacity keeps every event within capacity |
| `ReservationModel.DeletePreservesCapacity` | src/reservations/routers.py:151-161 | removing a row with a non-negative seat count keeps every event within capacity |
| `ReservationModel.ShrinkPreservesCapacity` | src/reservations/routers.py:137-141 | an update that keeps the event and does not raise `num_guests` keeps every event within capacity |
| `ReservationModel.ReplaceWithinCapacity` | src/reservations/routers.py:137-141 | after one row is replaced by its patched value, the invariant holds exactly when every event's total, less the old row's seats and plus the new row's, is within capacity |
| `ReservationModel.MoveBreaksCapacity` | src/reservations/routers.py:137-141 | moving a row through `event_id` to an event without room for its seats leaves that event over capacity, because the update path has no capacity check |
| `ReservationModel.GrowBreaksCapacity` | src/reservations/routers.py:137-141 | on a fully booked event, an update that raises `num_guests` leaves that event over capacity, because the update path has no capacity check |
| `ReservationModel.Owned` | src/reservations/routers.py:28-30 | the caller's rows and no others: exactly the rows with the caller's user id, with the same multiplicities |
| `ReservationModel.FindOwned` | src/reservations/routers.py:109-113 | the first row whose id and owner both match, or none exactly when no row matches both |
| `ReservationModel.Lookup` | src/reservations/routers.py:109-116 | the matching row is in the table with the requested id and the caller as owner; none exactly when no row matches both |
| `ReservationModel.LookupSeesOnlyOwned` | src/reservations/routers.py:109-116 | a lookup gives the same answer once every other user's row is removed, so another user's reservation looks the same as a missing id |
| `ReservationModel.LookupUnique` | src/reservations/routers.py:109-113 | with unique ids, the row that matches id and owner is the one `.first()` finds |
| `ReservationModel.PatchedFields` | src/reservations/routers.py:137-139 | a patch never changes the id or the owner; each patchable field ends with the last non-null value given for it, or keeps its value |
| `ReservationModel.DeleteOutcomeAsWritten` | src/reservations/routers.py:157-158 | as written, delete never raises: when no owned row matches, the NotFound exception is returned as a value |
| `ReservationRouter.ApplyPatch` | src/reservations/routers.py:137-139 | the loop applies every non-null patch value in order; id and owner unchanged, each field takes its last non-null value |
| `ReservationRouter.ReservationStore.ListReservations` | src/reservations/routers.py:23-31 | returns exactly the caller's reservations and no one else's |
| `ReservationRouter.ReservationStore.CreateReservation` | src/reservations/routers.py:34-100 | EventNotFound for an unknown event, and CapacityExceeded exactly when stored total plus request exceeds capacity, both leaving the table unchanged; otherwise exactly one row (caller, event, seats) is appended and the old rows are untouched; keeps the capacity invariant and unique ids |
| `ReservationRouter.ReservationStore.GetReservation` | src/reservations/routers.py:103-118 | returns a row with the requested id owned by the caller, and NotFound exactly when there is none |
| `ReservationRouter.ReservationStore.UpdateReservation` | src/reservations/routers.py:121-142 | NotFound with the table unchanged when the caller owns no such row; otherwise only that row changes, to its patched value, and it is returned |
| `ReservationRouter.ReservationStore.DeleteReservation` | src/reservations/routers.py:145-162 | NotFound with the table unchanged when the caller owns no such row; otherwise exactly that row is removed; keeps the capacity invariant when the removed row's count is non-negative |

## Findings

| source | as written | input that shows it | evidently intended | confidence | as-written member | corrected member |
|---|---|---|---|---|---|---|
| src/reservations/routers.py:157-158 | the miss branch `return`s the HTTP 404 exception object instead of raising it, so the handler completes normally | DELETE of an id that does not exist, or that another user owns | fail with NotFound (404), like get and update do on the same lookup | high; not executed | `ReservationModel.DeleteOutcomeAsWritten` | `ReservationRouter.ReservationStore.DeleteReservation` |

## Left out

- Concurrency: transactions, commit and rollback, and the `FOR UPDATE` row lock are not modelled. Each handler is one atomic step, so interleavings are not modelled either.
- Identity: JWT decoding, token expiry and the bearer scheme (`src/security.py`) are not part of this model. The user id is a parameter.
- `src/encryption.py` (AES-CBC through an external crypto library, with a random IV) is not part of this model.
- HTTP routing, status codes and response models are left out. Each handler's exit is an `Outcome`: a returned value or a raised `Error`.
- The request schemas (`src/reservations/schemas.py`) are not part of this model:
  - `num_guests` is an unconstrained integer, since no validation is visible in the handlers.
  - Because of that, deleting a row preserves the capacity invariant only when the removed row's count is non-negative. That requirement appears in `DeletePreservesCapacity` and `DeleteReservation`.
  - The fields of `ReservationUpdate` are not known. The patch is a sequence of (field, value-or-null) entries over `num_guests` and `event_id`.
- Rows are values held in a sequence. The ORM's in-place mutation of a loaded object is modelled as replacing that row in the table.
- Ids: the database's id generation is a `newId` parameter that must be fresh. Ids are unique in the table (`Valid`).
- Row order: list returns rows in table order. SQL gives no order without `ORDER BY`, so the model fixes one.
- The events table is read only. Events are never created or changed here.
