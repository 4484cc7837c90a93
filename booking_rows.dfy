/** Specification functions over the rows of the booking table, in table
    order, and the counting facts the capacity rule relies on. */
module BookingRows {
  import opened Wrappers
  import opened Domain

  /** The number of bookings whose room is `roomId`. */
  function CountInRoom(rows: seq<Booking>, roomId: RoomId): (n: nat)
    ensures n <= |rows|
    ensures n == 0 <==> forall i :: 0 <= i < |rows| ==> rows[i].roomId != roomId
  {
    if rows == [] then 0
    else (if rows[0].roomId == roomId then 1 else 0) + CountInRoom(rows[1..], roomId)
  }

  /** The room column of the table. */
  function RoomIds(rows: seq<Booking>): (ids: seq<RoomId>)
    ensures |ids| == |rows|
    ensures forall i :: 0 <= i < |rows| ==> ids[i] == rows[i].roomId
  {
    seq(|rows|, i requires 0 <= i < |rows| => rows[i].roomId)
  }

  /** The count is the multiplicity of `roomId` in the room column. */
  lemma {:induction false} CountIsMultiplicity(rows: seq<Booking>, roomId: RoomId)
    ensures CountInRoom(rows, roomId) == multiset(RoomIds(rows))[roomId]
  {
    if rows != [] {
      assert RoomIds(rows) == [rows[0].roomId] + RoomIds(rows[1..]);
      CountIsMultiplicity(rows[1..], roomId);
    }
  }

  /** Appending a row adds one to its room's count and changes no other count. */
  lemma {:induction false} CountAfterAppend(rows: seq<Booking>, b: Booking, roomId: RoomId)
    ensures CountInRoom(rows + [b], roomId)
            == CountInRoom(rows, roomId) + (if b.roomId == roomId then 1 else 0)
  {
    if rows != [] {
      assert (rows + [b])[1..] == rows[1..] + [b];
      CountAfterAppend(rows[1..], b, roomId);
    }
  }

  /** Overwriting row `i` moves one unit of count from its old room to its new one. */
  lemma {:induction false} CountAfterReplace(rows: seq<Booking>, i: nat, b: Booking, roomId: RoomId)
    requires i < |rows|
    ensures CountInRoom(rows[i := b], roomId)
            == CountInRoom(rows, roomId)
               - (if rows[i].roomId == roomId then 1 else 0)
               + (if b.roomId == roomId then 1 else 0)
  {
    if i > 0 {
      assert rows[i := b][1..] == rows[1..][i - 1 := b];
      CountAfterReplace(rows[1..], i - 1, b, roomId);
    } else {
      assert rows[i := b][1..] == rows[1..];
    }
  }

  /** The two columns the store looks rows up by. */
  datatype Column = UserIdColumn | IdColumn

  function KeyOf(b: Booking, column: Column): int
  {
    match column
    case UserIdColumn => b.userId
    case IdColumn => b.id
  }

  /** The position of the first row whose `column` holds `key`, if any. */
  function IndexOf(rows: seq<Booking>, column: Column, key: int): (r: Option<nat>)
    ensures r.None? <==> forall i :: 0 <= i < |rows| ==> KeyOf(rows[i], column) != key
    ensures r.Some? ==> r.value < |rows| && KeyOf(rows[r.value], column) == key
    ensures r.Some? ==> forall j :: 0 <= j < r.value ==> KeyOf(rows[j], column) != key
  {
    if rows == [] then None
    else if KeyOf(rows[0], column) == key then Some(0)
    else match IndexOf(rows[1..], column, key)
      case None => None
      case Some(k) => Some(k + 1)
  }

  /** The capacity invariant: no room holds more bookings than its capacity. */
  ghost predicate WithinCapacity(rows: seq<Booking>, rooms: map<RoomId, nat>)
  {
    forall r :: r in rooms ==> CountInRoom(rows, r) <= rooms[r]
  }

  /** Adding a booking to a room that still has space keeps the invariant. */
  lemma AppendKeepsCapacity(rows: seq<Booking>, rooms: map<RoomId, nat>, b: Booking)
    requires WithinCapacity(rows, rooms)
    requires b.roomId in rooms && CountInRoom(rows, b.roomId) < rooms[b.roomId]
    ensures WithinCapacity(rows + [b], rooms)
  {
    forall r | r in rooms
      ensures CountInRoom(rows + [b], r) <= rooms[r]
    {
      CountAfterAppend(rows, b, r);
    }
  }

  /** Moving row `i` into a room whose current count, the row itself
      included, is below capacity keeps the invariant. */
  lemma ReplaceKeepsCapacity(rows: seq<Booking>, rooms: map<RoomId, nat>, i: nat, b: Booking)
    requires i < |rows|
    requires WithinCapacity(rows, rooms)
    requires b.roomId in rooms && CountInRoom(rows, b.roomId) < rooms[b.roomId]
    ensures WithinCapacity(rows[i := b], rooms)
  {
    forall r | r in rooms
      ensures CountInRoom(rows[i := b], r) <= rooms[r]
    {
      CountAfterReplace(rows, i, b, r);
    }
  }
}
