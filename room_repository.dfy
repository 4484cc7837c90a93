/** The room store, read-only here: a fixed map from room id to capacity. */
module RoomRepository {
  import opened Wrappers
  import opened Domain

  /** The room with id `roomId`, or nothing when there is none. */
  function FindRoomById(rooms: map<RoomId, nat>, roomId: RoomId): (r: Option<Room>)
    ensures r.None? <==> roomId !in rooms
    ensures r.Some? ==> r.value.id == roomId && r.value.capacity == rooms[roomId]
  {
    if roomId in rooms then Some(Room(roomId, rooms[roomId])) else None
  }
}
