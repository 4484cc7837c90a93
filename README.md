# Booking service: a verified model

This project models the booking core of a hotel-reservation backend. An
authenticated user can view their booking, book a room, or move a booking
to another room. The model has two layers, as the code does:

- **The booking store** (`booking_repository.dfy`) is a class
  `BookingTable`. It holds the rows in insertion order (`id`, `userId`,
  `roomId`), an auto-increment counter for ids, and the read-only room
  table, a map from room id to capacity. Its invariant `Valid()` says:
  - ids are positive, below the counter and increasing, hence unique;
  - every row references an existing room, as the foreign key demands.

  It offers four operations: insert, count by room, find the first row of
  a user together with its room, and overwrite a row by id.
- **The booking service** (`booking_service.dfy`) runs its checks in a
  fixed order over the current table, then makes at most one write:
  - `listBookings` looks up the caller's booking;
  - `createNewBooking` checks hotel access, then that the room exists,
    then that its count is below its capacity, and then inserts;
  - `updateRoom` first requires that the caller owns some booking, then
    runs the same three checks on the new room, and then overwrites the
    target row.

  The ordered checks are stated once, as the function `Admission`.

Other files:

- `booking_rows.dfy` holds the specification functions over the row
  sequence: the count per room and the first row for a user or an id. It
  also holds the counting lemmas behind the capacity invariant "no room
  holds more bookings than its capacity" (`WithinCapacity`).
- `scenarios.dfy` replays the integration tests' situations as client
  methods that rely on the contracts alone.

Two behaviours of the code are reproduced on purpose:

- `updateRoom` never checks that `bookingId` belongs to the caller.
- The update writes the caller's `userId` into the row as well as the new
  room. So a user who owns any booking can move another user's booking and
  take it over (`Scenarios.UpdateTakesOverAnotherUsersBooking`). A reading
  in which only the room changes does not match the code; the model
  follows the code.

Also reproduced: the capacity count for an update includes the booking
being moved. A booking that already sits in a full destination room is
refused with Forbidden, although that move would change no count
(`BookingService.MoveWithinFullRoomRefused`).

## Model

| member | source | states |
|---|---|---|
| `BookingRows.CountInRoom` | src/repositories/booking-repository/index.ts:9-13 | The count for a room is at most the number of rows, and it is zero exactly when no row references the room. |
| `BookingRows.CountIsMultiplicity` | src/repositories/booking-repository/index.ts:9-13 | The count for a room equals how many times the room id occurs in the table's room column. |
| `BookingRows.CountAfterAppend` | src/repositories/booking-repository/index.ts:3-13 | Inserting a row raises its room's count by one and leaves every other room's count unchanged. |
| `BookingRows.CountAfterReplace` | src/repositories/booking-repository/index.ts:9-27 | Overwriting one row lowers its old room's count by one, raises its new room's count by one, and changes nothing else. |
| `BookingRows.IndexOf` | src/repositories/booking-repository/index.ts:15-27 | Looks rows up by the user column or the id column. It returns nothing exactly when no row holds the key there. Otherwise it returns the position of a row holding the key, with no earlier row holding it. |
| `BookingRows.AppendKeepsCapacity` | src/services/bookings-service/index.ts:23-31 | Inserting a booking into a room whose count is below its capacity keeps every room within capacity. |
| `BookingRows.ReplaceKeepsCapacity` | src/services/bookings-service/index.ts:23-40 | Moving any row into a room whose count, moved row included, is below capacity keeps every room within capacity. |
| `BookingRepository.BookingTable.CreateNewBooking` | src/repositories/booking-repository/index.ts:3-7 | Appends exactly one row with the given user and room. The row's id is the counter's value, which no existing row has, and the counter advances. A room id with no room fails with a foreign-key error and changes nothing. |
| `BookingRepository.BookingTable.CountBookingsByRoomId` | src/repositories/booking-repository/index.ts:9-13 | Returns the number of rows whose room is the given room, which is that room id's multiplicity in the room column. |
| `BookingRepository.BookingTable.FindBookingByUserIdWithRoom` | src/repositories/booking-repository/index.ts:15-20 | Returns nothing exactly when the user owns no row. Otherwise it returns the first such row's id and its room record (id and capacity). |
| `BookingRepository.BookingTable.UpdateBookingById` | src/repositories/booking-repository/index.ts:22-27 | An id with no row fails with record-not-found and changes nothing. Otherwise both the user and the room of that row are replaced, and the row count, the counter and all other rows stay the same. |
| `RoomRepository.FindRoomById` | src/services/bookings-service/index.ts:19-21 | Returns nothing exactly when the room id is not in the room table. Otherwise it returns that room with its capacity. |
| `BookingService.AccessCheckedFirst` | src/services/bookings-service/index.ts:14-17 | A user without hotel access gets the hotels error (not-found for no enrollment, payment-required otherwise), whatever the room and the table. |
| `BookingService.AdmissionForGrantedUser` | src/services/bookings-service/index.ts:19-25 | For a user with access, a missing room gives not-found and a capacity-0 room gives forbidden. The checks pass exactly when the room exists and its count plus one fits its capacity. |
| `BookingService.MoveWithinFullRoomRefused` | src/services/bookings-service/index.ts:23-38 | Moving a booking of a full room to that same room is refused with forbidden, although the overwrite would keep every room within capacity. |
| `BookingService.ListBookings` | src/services/bookings-service/index.ts:6-12 | Fails with not-found exactly when the user owns no booking. Otherwise it returns the id and room of the user's first booking. It cannot change the table. |
| `BookingService.CheckIfRoomsExistsAndIsVacant` | src/services/bookings-service/index.ts:14-26 | Returns the first failing check in the order hotel access, room existence, capacity. When all pass, the room exists and has a free place. |
| `BookingService.CreateNewBooking` | src/services/bookings-service/index.ts:28-33 | A failed check returns its error and leaves the table unchanged. Otherwise it appends one row with the given user and room and returns its fresh id. The room's count rises by one, all other counts stay the same, and the capacity invariant is preserved. |
| `BookingService.UpdateRoom` | src/services/bookings-service/index.ts:35-41 | Fails with not-found if the caller owns no booking, before any other check. Then come the creation checks on the new room, then the store's record-not-found. On success the row with the given id, whoever owns it, gets the caller as user and the new room; all other rows are unchanged and the capacity invariant is preserved. |

## Left out

- The hotels service's rules (enrollment, then ticket, then ticket type,
  then payment status) are not part of this model. It appears only as a
  per-user verdict passed to the service: access granted, no enrollment
  (not-found) or no hotel ticket (payment-required).
- The room store is a fixed map from room id to capacity. Room fields
  other than id and capacity, and the hotel a room belongs to, are left
  out. Capacity is a natural number.
- Timestamps, and the persistence engine itself, are left out. So are
  integer widths: ids and counts are unbounded integers, and
  auto-increment overflow is not modelled.
- `findFirst` without an ordering is modelled as "the first matching row
  in insertion order".
- The store's errors are modelled for two cases only: an update by an id
  with no row, and a row that references no room. No other database
  failure is modelled.
- The check-then-write race between counting and writing is not modelled,
  because every operation runs alone. Concurrent requests can exceed a
  room's capacity in the real system.
- The HTTP controller, the router, token authentication and request-body
  validation are left out. This includes mapping errors to statuses and
  the catch-all that turns any other error into 403.
