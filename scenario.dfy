/** The loan cycle of one key, end to end, on a ledger holding one room on the
    third floor, its ordinary key, one person and that person's authorization
    for the room. */
module Scenario {
  import opened Wrappers
  import opened Models
  import opened Ledger

  /** The ledger before the loan. */
  method Setup() returns (db: Db, room: Room, key: Key)
    ensures fresh(db) && fresh(room) && db.Valid()
    ensures db.rooms == [room] && db.keys == [key] && db.borrowings == []
    ensures room.id == 1 && room.floor == 3 && key.id == 1 && key.roomId == 1 && key.IsOrdinary()
    ensures |db.authorizations| == 1 && db.authorizations[0].id == 1 && db.authorizations[0].roomId == 1
  {
    room := new Room(1, "R", 3, None, None, 0);
    key := Key(1, 4711, 1, Some(0));
    var auth := new Authorization(1, 1, 1, 0, 100, 1);
    var person := Person(1, "Jan", "Novak", None, 0);
    db := new Db([room], [key], [auth], [], [person], [], (s: string) => s);
  }

  /** A room with an ordinary key none of whose keys is out is available. */
  lemma FreeRoomAvailable(db: Db, room: Room, key: Key)
    requires db.Valid() && room in db.rooms && key in db.keys && key.roomId == room.id && key.IsOrdinary()
    requires forall k :: k in db.keys ==> !db.KeyIsBorrowed(k)
    ensures room in db.AvailableRoomsByFloor(room.floor, true)
  {
    assert db.HasKey(room, true);
  }

  /** A room one of whose keys is out is not available. */
  lemma TakenRoomUnavailable(db: Db, room: Room, key: Key, floor: int)
    requires db.Valid() && key in db.keys && key.roomId == room.id && db.KeyIsBorrowed(key)
    ensures room !in db.AvailableRoomsByFloor(floor, true)
  {
    assert db.RoomTaken(room, false);
  }

  /** Lending the key: the loan is ongoing and the room is no longer available. */
  method Lend(db: Db, room: Room, key: Key) returns (lent: Outcome<Error>, loan: Borrowing, available: bool, ongoing: bool)
    requires db.Valid() && db.rooms == [room] && db.keys == [key] && db.borrowings == []
    requires room.id == 1 && room.floor == 3 && key.id == 1 && key.roomId == 1
    requires |db.authorizations| == 1 && db.authorizations[0].id == 1 && db.authorizations[0].roomId == 1
    modifies db, db.rooms
    ensures db.Valid() && db.rooms == [room] && db.keys == [key] && db.borrowings == [loan]
    ensures lent == Pass && fresh(loan) && loan.id == 1 && loan.returned == None
    ensures ongoing && !available
  {
    assert db.AuthorizationById(1) == Some(db.authorizations[0]);
    assert db.RoomById(1) == Some(room);
    lent := db.AddBorrowing(1, 1, 10);
    loan := db.borrowings[0];
    TakenRoomUnavailable(db, room, key, 3);
    available := room in db.AvailableRoomsByFloor(3, true);
    ongoing := loan in db.OngoingBorrowings();
  }

  /** Returning the key: the loan is closed and the room is available again. */
  method Return(db: Db, room: Room, key: Key, loan: Borrowing) returns (returned: Outcome<Error>, available: bool, ongoing: bool)
    requires db.Valid() && db.rooms == [room] && db.keys == [key] && db.borrowings == [loan]
    requires room.floor == 3 && key.roomId == room.id && key.IsOrdinary() && loan.id == 1 && loan.returned == None
    modifies loan
    ensures returned == Pass && loan.returned != None
    ensures !ongoing && available
  {
    assert db.BorrowingById(1) == Some(loan);
    returned := db.ReturnKey(1, 20);
    FreeRoomAvailable(db, room, key);
    available := room in db.AvailableRoomsByFloor(3, true);
    ongoing := loan in db.OngoingBorrowings();
  }

  /** Returning a closed loan a second time is refused. */
  method ReturnAgain(db: Db, loan: Borrowing) returns (returnedAgain: Outcome<Error>)
    requires db.Valid() && db.borrowings == [loan] && loan.id == 1 && loan.returned != None
    modifies loan
    ensures returnedAgain == Fail(AlreadyReturned)
  {
    assert db.BorrowingById(1) == Some(loan);
    returnedAgain := db.ReturnKey(1, 30);
  }

  /** Lending the key takes the room off the floor's available list and puts
      the loan on the ongoing list; returning it puts the room back and takes
      the loan off; a second return of the same loan is refused. */
  method LoanCycle() returns (lent: Outcome<Error>, returned: Outcome<Error>, returnedAgain: Outcome<Error>,
                              availableWhileLent: bool, ongoingWhileLent: bool,
                              availableAfterReturn: bool, ongoingAfterReturn: bool)
    ensures lent == Pass && returned == Pass && returnedAgain == Fail(AlreadyReturned)
    ensures !availableWhileLent && ongoingWhileLent
    ensures availableAfterReturn && !ongoingAfterReturn
  {
    var db, room, key := Setup();
    var loan;
    lent, loan, availableWhileLent, ongoingWhileLent := Lend(db, room, key);
    returned, availableAfterReturn, ongoingAfterReturn := Return(db, room, key, loan);
    returnedAgain := ReturnAgain(db, loan);
  }
}
