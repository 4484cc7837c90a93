/** The booking table as the store keeps it: rows in insertion order, an
    auto-increment counter for ids, and the read-only room table that
    each row's room id references. */
module BookingRepository {
  import opened Wrappers
  import opened Domain
  import opened BookingRows

  class BookingTable {
    /** The room table: room id to capacity. */
    const rooms: map<RoomId, nat>
    var rows: seq<Booking>
    /** The id the next inserted row receives. */
    var nextId: BookingId

    /** Ids are positive, below the counter and increase along the table
        (hence unique); every row references an existing room. */
    ghost predicate Valid()
      reads this
    {
      && nextId >= 1
      && (forall i :: 0 <= i < |rows| ==> 1 <= rows[i].id < nextId && rows[i].roomId in rooms)
      && (forall i, j :: 0 <= i < j < |rows| ==> rows[i].id < rows[j].id)
    }

    /** The room record of a row that references an existing room. */
    function RoomOf(b: Booking): (room: Room)
      requires b.roomId in rooms
      ensures room.id == b.roomId && room.capacity == rooms[b.roomId]
    {
      Room(b.roomId, rooms[b.roomId])
    }

    constructor (rooms: map<RoomId, nat>)
      ensures Valid()
      ensures this.rooms == rooms && rows == [] && nextId == 1
    {
      this.rooms := rooms;
      rows := [];
      nextId := 1;
    }

    /** Inserts a row and returns it with its fresh id; a room id that
        references no room is refused by the foreign key. */
    method CreateNewBooking(input: BookingInput) returns (r: Result<Booking, Error>)
      requires Valid()
      modifies this
      ensures Valid()
      ensures input.roomId !in rooms ==>
                r == Failure(ForeignKeyViolation) && rows == old(rows) && nextId == old(nextId)
      ensures input.roomId in rooms ==>
                && r.Success?
                && r.value == Booking(old(nextId), input.userId, input.roomId)
                && rows == old(rows) + [r.value]
                && nextId == old(nextId) + 1
      ensures r.Success? ==> forall i :: 0 <= i < |old(rows)| ==> old(rows)[i].id != r.value.id
    {
      if input.roomId !in rooms {
        return Failure(ForeignKeyViolation);
      }
      var b := Booking(nextId, input.userId, input.roomId);
      rows := rows + [b];
      nextId := nextId + 1;
      r := Success(b);
    }

    /** The number of rows referencing `roomId`. */
    method CountBookingsByRoomId(roomId: RoomId) returns (n: nat)
      ensures n == CountInRoom(rows, roomId)
      ensures n == multiset(RoomIds(rows))[roomId]
    {
      CountIsMultiplicity(rows, roomId);
      n := CountInRoom(rows, roomId);
    }

    /** The first row owned by `userId`, exposing only its id and its room,
        or nothing when the user owns no row. */
    method FindBookingByUserIdWithRoom(userId: UserId) returns (r: Option<BookingWithRoom>)
      requires Valid()
      ensures r.None? <==> forall i :: 0 <= i < |rows| ==> rows[i].userId != userId
      ensures r.Some? ==>
                exists i :: && 0 <= i < |rows|
                            && rows[i].userId == userId
                            && (forall j :: 0 <= j < i ==> rows[j].userId != userId)
                            && r.value == BookingWithRoom(rows[i].id, Room(rows[i].roomId, rooms[rows[i].roomId]))
    {
      match IndexOf(rows, UserIdColumn, userId)
      case None =>
        r := None;
      case Some(k) =>
        r := Some(BookingWithRoom(rows[k].id, RoomOf(rows[k])));
    }

    /** Overwrites both the user and the room of the row with id `id`; no
        such row is an error, and so is a room id that references no room. */
    method UpdateBookingById(id: BookingId, input: BookingInput) returns (r: Result<Booking, Error>)
      requires Valid()
      modifies this
      ensures Valid() && nextId == old(nextId)
      ensures IndexOf(old(rows), IdColumn, id).None? ==> r == Failure(RecordNotFound) && rows == old(rows)
      ensures IndexOf(old(rows), IdColumn, id).Some? && input.roomId !in rooms ==>
                r == Failure(ForeignKeyViolation) && rows == old(rows)
      ensures IndexOf(old(rows), IdColumn, id).Some? && input.roomId in rooms ==>
                && r == Success(Booking(id, input.userId, input.roomId))
                && rows == old(rows)[IndexOf(old(rows), IdColumn, id).value := r.value]
    {
      match IndexOf(rows, IdColumn, id)
      case None =>
        r := Failure(RecordNotFound);
      case Some(k) =>
        if input.roomId !in rooms {
          r := Failure(ForeignKeyViolation);
        } else {
          var b := Booking(id, input.userId, input.roomId);
          rows := rows[k := b];
          r := Success(b);
        }
    }
  }
}
