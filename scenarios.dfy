/** Client runs of the booking service on a small table, following the
    integration tests: what a caller can conclude from the contracts alone. */
module Scenarios {
  import opened Wrappers
  import opened Domain
  import opened BookingRows
  import opened BookingRepository
  import opened BookingService

  /** Room 1 has capacity 3 and room 2 capacity 0. */
  method BookAndList()
  {
    var table := new BookingTable(map[1 := 3, 2 := 0]);
    var hotels: HotelsService := u => Granted;

    var created := CreateNewBooking(table, hotels, BookingInput(7, 1));
    assert created == Success(1);
    assert table.rows == [Booking(1, 7, 1)];
    assert CountInRoom(table.rows, 1) == 1;

    var listed := ListBookings(table, 7);
    assert listed == Success(BookingWithRoom(1, Room(1, 3)));
    var none := ListBookings(table, 8);
    assert none == Failure(NotFound);
  }

  /** Each refusal names the first check that fails and leaves the table
      as it was: user 9's ticket gives no hotel access, user 5 has no
      enrollment, room 2 has capacity 0 and room 42 does not exist. */
  method RefusalsInOrder()
  {
    var table := new BookingTable(map[1 := 3, 2 := 0]);
    var hotels: HotelsService := u => if u == 9 then NoHotelTicket else if u == 5 then NoEnrollment else Granted;

    assert hotels(8) == Granted;
    var full := CreateNewBooking(table, hotels, BookingInput(8, 2));
    assert full == Failure(Forbidden);
    var missing := CreateNewBooking(table, hotels, BookingInput(8, 42));
    assert missing == Failure(NotFound);
    assert hotels(9) == NoHotelTicket;
    var unpaid := CreateNewBooking(table, hotels, BookingInput(9, 42));
    assert unpaid == Failure(CannotListHotels);
    assert hotels(5) == NoEnrollment;
    var unenrolled := CreateNewBooking(table, hotels, BookingInput(5, 2));
    assert unenrolled == Failure(NotFound);
    assert table.rows == [];
  }

  /** A user who owns some booking can move another user's booking and
      thereby becomes its owner. The two bookings are inserted through the
      store directly, as the tests' factories do. */
  method UpdateTakesOverAnotherUsersBooking()
  {
    var table := new BookingTable(map[1 := 3, 2 := 1]);
    var hotels: HotelsService := u => Granted;

    var first := table.CreateNewBooking(BookingInput(7, 1));
    var second := table.CreateNewBooking(BookingInput(8, 1));
    assert table.rows == [Booking(1, 7, 1), Booking(2, 8, 1)];
    assert IndexOf(table.rows, UserIdColumn, 8) == Some(1);
    assert IndexOf(table.rows, IdColumn, 1) == Some(0);
    assert CountInRoom(table.rows, 2) == 0;

    var moved := UpdateRoom(table, hotels, 1, BookingInput(8, 2));
    assert moved == Pass;
    assert table.rows == [Booking(1, 8, 2), Booking(2, 8, 1)];

    var lost := ListBookings(table, 7);
    assert lost == Failure(NotFound);
  }

  /** Update refusals: a caller with no booking, and a destination that is
      full although it already holds the booking being moved. */
  method UpdateRefusals()
  {
    var table := new BookingTable(map[1 := 1]);
    var hotels: HotelsService := u => Granted;

    var first := CreateNewBooking(table, hotels, BookingInput(7, 1));
    assert table.rows == [Booking(1, 7, 1)];
    assert IndexOf(table.rows, UserIdColumn, 6) == None;
    var stranger := UpdateRoom(table, hotels, 1, BookingInput(6, 1));
    assert stranger == Fail(NotFound);

    assert IndexOf(table.rows, UserIdColumn, 7) == Some(0);
    assert CountInRoom(table.rows, 1) == 1;
    var stay := UpdateRoom(table, hotels, 1, BookingInput(7, 1));
    assert stay == Fail(Forbidden);
    assert table.rows == [Booking(1, 7, 1)];
  }

  /** An update whose checks pass but whose id names no row is the store's
      record-not-found error. */
  method UpdateMissingId()
  {
    var table := new BookingTable(map[1 := 3]);
    var hotels: HotelsService := u => Granted;

    var first := CreateNewBooking(table, hotels, BookingInput(7, 1));
    assert table.rows == [Booking(1, 7, 1)];
    assert IndexOf(table.rows, UserIdColumn, 7) == Some(0);
    assert IndexOf(table.rows, IdColumn, 99) == None;
    assert CountInRoom(table.rows, 1) == 1;
    var gone := UpdateRoom(table, hotels, 99, BookingInput(7, 1));
    assert gone == Fail(RecordNotFound);
  }
}
