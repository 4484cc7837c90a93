/** The booking service: list the caller's booking, book a room, move a
    booking to another room. Each operation runs its checks in a fixed
    order over the current table and then performs at most one write. */
module BookingService {
  import opened Wrappers
  import opened Domain
  import opened BookingRows
  import RoomRepository
  import opened BookingRepository

  /** The hotels service's verdict on each user; its rules (enrollment,
      ticket, ticket type) are not part of this model. */
  type HotelsService = UserId -> HotelAccess

  /** The outcome of the three ordered checks before a booking is written
      to `roomId` for a user whose hotel access is `access`: hotel access
      first, then room existence, then free capacity. */
  function Admission(rows: seq<Booking>, rooms: map<RoomId, nat>, access: HotelAccess, roomId: RoomId): Outcome<Error>
  {
    match access
    case NoEnrollment => Fail(NotFound)
    case NoHotelTicket => Fail(CannotListHotels)
    case Granted =>
      if roomId !in rooms then Fail(NotFound)
      else if CountInRoom(rows, roomId) >= rooms[roomId] then Fail(Forbidden)
      else Pass
  }

  /** A user without hotel access gets the hotels error whatever the room
      and the table look like. */
  lemma AccessCheckedFirst(rows: seq<Booking>, rooms: map<RoomId, nat>, access: HotelAccess, roomId: RoomId,
                           rows': seq<Booking>, rooms': map<RoomId, nat>, roomId': RoomId)
    requires access != Granted
    ensures Admission(rows, rooms, access, roomId) == Admission(rows', rooms', access, roomId')
    ensures Admission(rows, rooms, access, roomId) == Fail(if access == NoEnrollment then NotFound else CannotListHotels)
  {
  }

  /** For a user with hotel access, a missing room is not-found and a room
      whose count has reached its capacity (always so at capacity 0) is
      forbidden; admission means the room has a free place. */
  lemma AdmissionForGrantedUser(rows: seq<Booking>, rooms: map<RoomId, nat>, roomId: RoomId)
    ensures roomId !in rooms ==> Admission(rows, rooms, Granted, roomId) == Fail(NotFound)
    ensures roomId in rooms && rooms[roomId] == 0 ==> Admission(rows, rooms, Granted, roomId) == Fail(Forbidden)
    ensures Admission(rows, rooms, Granted, roomId).Pass?
            <==> roomId in rooms && CountInRoom(rows, roomId) + 1 <= rooms[roomId]
  {
  }

  /** The capacity check counts the booking being moved when it already
      sits in the destination: moving a booking of a full room to that same
      room is refused, although the move would leave every count as it is. */
  lemma {:induction false} MoveWithinFullRoomRefused(rows: seq<Booking>, rooms: map<RoomId, nat>, i: nat, userId: UserId)
    requires i < |rows| && rows[i].roomId in rooms
    requires WithinCapacity(rows, rooms)
    requires CountInRoom(rows, rows[i].roomId) == rooms[rows[i].roomId]
    ensures Admission(rows, rooms, Granted, rows[i].roomId) == Fail(Forbidden)
    ensures WithinCapacity(rows[i := Booking(rows[i].id, userId, rows[i].roomId)], rooms)
  {
    var b := Booking(rows[i].id, userId, rows[i].roomId);
    forall r | r in rooms
      ensures CountInRoom(rows[i := b], r) <= rooms[r]
    {
      CountAfterReplace(rows, i, b, r);
    }
  }

  /** The caller's booking with its room, or not-found. */
  method ListBookings(table: BookingTable, userId: UserId) returns (r: Result<BookingWithRoom, Error>)
    requires table.Valid()
    ensures r.Failure? <==> forall i :: 0 <= i < |table.rows| ==> table.rows[i].userId != userId
    ensures r.Failure? ==> r.error == NotFound
    ensures r.Success? ==>
              exists i :: && 0 <= i < |table.rows|
                          && table.rows[i].userId == userId
                          && (forall j :: 0 <= j < i ==> table.rows[j].userId != userId)
                          && r.value.id == table.rows[i].id
                          && r.value.room == Room(table.rows[i].roomId, table.rooms[table.rows[i].roomId])
  {
    var booking := table.FindBookingByUserIdWithRoom(userId);
    if booking.None? {
      return Failure(NotFound);
    }
    r := Success(booking.value);
  }

  /** The ordered checks: hotel access, then the room exists, then the room
      still has a free place. */
  method CheckIfRoomsExistsAndIsVacant(table: BookingTable, hotels: HotelsService, input: BookingInput)
    returns (o: Outcome<Error>)
    requires table.Valid()
    ensures o == Admission(table.rows, table.rooms, hotels(input.userId), input.roomId)
    ensures o.Pass? ==> input.roomId in table.rooms
                        && CountInRoom(table.rows, input.roomId) < table.rooms[input.roomId]
  {
    match hotels(input.userId)
    case NoEnrollment =>
      return Fail(NotFound);
    case NoHotelTicket =>
      return Fail(CannotListHotels);
    case Granted =>
    var room := RoomRepository.FindRoomById(table.rooms, input.roomId);
    if room.None? {
      return Fail(NotFound);
    }
    var roomBookingsAmount := table.CountBookingsByRoomId(input.roomId);
    if roomBookingsAmount >= room.value.capacity {
      return Fail(Forbidden);
    }
    o := Pass;
  }

  /** Books `input.roomId` for `input.userId` and returns the new booking's
      id; on a failed check the table is left as it was. */
  method CreateNewBooking(table: BookingTable, hotels: HotelsService, input: BookingInput)
    returns (r: Result<BookingId, Error>)
    requires table.Valid()
    modifies table
    ensures table.Valid()
    ensures var verdict := Admission(old(table.rows), table.rooms, hotels(input.userId), input.roomId);
            && (verdict.Fail? ==>
                  r == Failure(verdict.error) && table.rows == old(table.rows) && table.nextId == old(table.nextId))
            && (verdict.Pass? ==>
                  && r == Success(old(table.nextId))
                  && table.nextId == old(table.nextId) + 1
                  && table.rows == old(table.rows) + [Booking(r.value, input.userId, input.roomId)]
                  && (forall i :: 0 <= i < |old(table.rows)| ==> old(table.rows)[i].id != r.value))
    ensures r.Success? ==> CountInRoom(table.rows, input.roomId) == CountInRoom(old(table.rows), input.roomId) + 1
    ensures forall roomId :: roomId != input.roomId ==>
              CountInRoom(table.rows, roomId) == CountInRoom(old(table.rows), roomId)
    ensures WithinCapacity(old(table.rows), table.rooms) ==> WithinCapacity(table.rows, table.rooms)
  {
    var check := CheckIfRoomsExistsAndIsVacant(table, hotels, input);
    if check.Fail? {
      return Failure(check.error);
    }
    ghost var before := table.rows;
    var created := table.CreateNewBooking(input);
    assert created.Success?;
    r := Success(created.value.id);
    forall roomId
      ensures CountInRoom(table.rows, roomId)
              == CountInRoom(before, roomId) + (if roomId == input.roomId then 1 else 0)
    {
      CountAfterAppend(before, created.value, roomId);
    }
    if WithinCapacity(before, table.rooms) {
      AppendKeepsCapacity(before, table.rooms, created.value);
    }
  }

  /** Moves booking `bookingId` to `input.roomId` and writes `input.userId`
      as its owner. The caller must own some booking, not necessarily this
      one; then the same checks as for booking run on the new room. */
  method UpdateRoom(table: BookingTable, hotels: HotelsService, bookingId: BookingId, input: BookingInput)
    returns (r: Outcome<Error>)
    requires table.Valid()
    modifies table
    ensures table.Valid() && table.nextId == old(table.nextId)
    ensures r.Fail? ==> table.rows == old(table.rows)
    ensures IndexOf(old(table.rows), UserIdColumn, input.userId).None? ==> r == Fail(NotFound)
    ensures IndexOf(old(table.rows), UserIdColumn, input.userId).Some? ==>
              var verdict := Admission(old(table.rows), table.rooms, hotels(input.userId), input.roomId);
              && (verdict.Fail? ==> r == verdict)
              && (verdict.Pass? && IndexOf(old(table.rows), IdColumn, bookingId).None? ==> r == Fail(RecordNotFound))
              && (verdict.Pass? && IndexOf(old(table.rows), IdColumn, bookingId).Some? ==>
                    && r == Pass
                    && table.rows == old(table.rows)[IndexOf(old(table.rows), IdColumn, bookingId).value
                                                     := Booking(bookingId, input.userId, input.roomId)])
    ensures WithinCapacity(old(table.rows), table.rooms) ==> WithinCapacity(table.rows, table.rooms)
  {
    var owned := ListBookings(table, input.userId);
    if owned.Failure? {
      return Fail(owned.error);
    }
    var check := CheckIfRoomsExistsAndIsVacant(table, hotels, input);
    if check.Fail? {
      return check;
    }
    ghost var before := table.rows;
    var updated := table.UpdateBookingById(bookingId, input);
    if updated.Failure? {
      return Fail(updated.error);
    }
    r := Pass;
    if WithinCapacity(before, table.rooms) {
      ReplaceKeepsCapacity(before, table.rooms, IndexOf(before, IdColumn, bookingId).value, updated.value);
    }
  }
}
