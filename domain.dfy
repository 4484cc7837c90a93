/** The entities the booking core works on and the errors it raises. */
module Domain {

  type UserId = int
  type RoomId = int
  type BookingId = int

  /** One row of the booking table (timestamps left out). */
  datatype Booking = Booking(id: BookingId, userId: UserId, roomId: RoomId)

  /** The input the service passes to the store on create and on update. */
  datatype BookingInput = BookingInput(userId: UserId, roomId: RoomId)

  /** A room record; only the fields this core reads. */
  datatype Room = Room(id: RoomId, capacity: nat)

  /** What a booking lookup by user exposes: the booking id and its room. */
  datatype BookingWithRoom = BookingWithRoom(id: BookingId, room: Room)

  /** What the hotels service decides about a user: it either lets the call
      through or throws one of two errors. */
  datatype HotelAccess =
    | Granted
    | NoEnrollment    // the user has no enrollment: not-found error
    | NoHotelTicket   // no ticket, ticket not paid, remote, or without hotel

  /** The errors the service propagates to its caller. */
  datatype Error =
    | NotFound            // missing booking, enrollment or room
    | CannotListHotels    // the ticket does not give hotel access (payment required)
    | Forbidden           // the room is full
    | RecordNotFound      // the store's update found no row with the given id
    | ForeignKeyViolation // the store refused a row pointing at no room
}
