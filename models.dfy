/** The ledger's entities (unused_models.py). A row whose columns the source
    changes through the entity's own methods is a class whose changing column
    is a `var` and whose other columns are `const`: a borrowing is closed in
    place, a room's usage counter is bumped in place, an authorization's expiry
    is moved in place. The rows nothing changes in place are values. Times are
    integer timestamps; "now" is always passed in. */
module Models {
  import opened Wrappers
  import Text

  /** The exceptions the ledger's operations raise. */
  datatype Error =
    | NotFound          // `.one()` found no row with the id
    | AlreadyReturned   // Borrowing.return_key on a closed borrowing
    | DuplicateUsername // the unique constraint on users.username
    | MissingReference  // a relationship that should lead to a row leads to None
    | KeyAlreadyBorrowed

  /** A row of `borrowings`: a key taken out under an authorization. */
  class Borrowing {
    const id: nat
    const keyId: nat
    const authorizationId: nat
    const borrowed: int
    /** `None` while the key is out. */
    var returned: Option<int>

    constructor (id: nat, keyId: nat, authorizationId: nat, borrowed: int)
      ensures this.id == id && this.keyId == keyId && this.authorizationId == authorizationId
      ensures this.borrowed == borrowed && returned == None
    {
      this.id := id;
      this.keyId := keyId;
      this.authorizationId := authorizationId;
      this.borrowed := borrowed;
      returned := None;
    }

    /** Closes the borrowing at `now`; a closed borrowing is refused and left
        as it was, so a second return always fails. */
    method ReturnKey(now: int) returns (outcome: Outcome<Error>)
      modifies this
      ensures old(returned) != None ==> outcome == Fail(AlreadyReturned) && returned == old(returned)
      ensures old(returned) == None ==> outcome == Pass && returned == Some(now)
    {
      if returned != None {
        return Fail(AlreadyReturned);
      }
      returned := Some(now);
      return Pass;
    }
  }

  /** A row of `keys`. `key_class` is a nullable column; 0 is an ordinary key. */
  datatype Key = Key(id: nat, registrationNumber: int, roomId: nat, keyClass: Option<int>)
  {
    predicate IsOrdinary() {
      keyClass == Some(0)
    }
  }

  /** A row of `rooms`. */
  class Room {
    const id: nat
    const name: string
    const floor: int
    const typeId: Option<nat>
    const facultyId: Option<nat>
    /** How many borrowings have been opened on the room's keys. */
    var borrowingsCount: nat

    constructor (id: nat, name: string, floor: int, typeId: Option<nat>, facultyId: Option<nat>, borrowingsCount: nat)
      ensures this.id == id && this.name == name && this.floor == floor
      ensures this.typeId == typeId && this.facultyId == facultyId
      ensures this.borrowingsCount == borrowingsCount
    {
      this.id := id;
      this.name := name;
      this.floor := floor;
      this.typeId := typeId;
      this.facultyId := facultyId;
      this.borrowingsCount := borrowingsCount;
    }

    /** Raises the usage counter by one; afterwards it is at least one. The
        column is not nullable, so for rows read from the table the source's
        reset of a missing counter to 0 cannot change anything; a room not yet
        written, whose counter is still unset, is not modelled. */
    method IncrementBorrowingsCount()
      modifies this
      ensures borrowingsCount == old(borrowingsCount) + 1
      ensures borrowingsCount >= 1
    {
      borrowingsCount := borrowingsCount + 1;
    }
  }

  /** A row of `authorizations`: `personId` may borrow the keys of `roomId`
      until `expiration`. A NULL `person_id` is modelled as an id no person has:
      both drop out of every join with `authorized_persons`. */
  class Authorization {
    const id: nat
    const personId: nat
    const roomId: nat
    const created: int
    const originId: nat
    var expiration: int

    constructor (id: nat, personId: nat, roomId: nat, created: int, expiration: int, originId: nat)
      ensures this.id == id && this.personId == personId && this.roomId == roomId
      ensures this.created == created && this.expiration == expiration && this.originId == originId
    {
      this.id := id;
      this.personId := personId;
      this.roomId := roomId;
      this.created := created;
      this.expiration := expiration;
      this.originId := originId;
    }

    /** Valid strictly before its expiry. */
    predicate IsValid(now: int)
      reads this
    {
      expiration > now
    }

    /** Moves the expiry to `now`; the authorization is no longer valid at
        `now`, and the new state does not depend on the old one, so invalidating
        twice is the same as invalidating once. */
    method Invalidate(now: int)
      modifies this
      ensures expiration == now
      ensures !IsValid(now)
    {
      expiration := now;
    }
  }

  /** A row of `authorized_persons`. */
  datatype Person = Person(id: nat, firstname: string, surname: string, workplaceId: Option<nat>, created: int)
  {
    /** The first name and the surname with one space between them. */
    function FullName(): (r: string)
      ensures |r| == |firstname| + 1 + |surname|
      ensures r[..|firstname|] == firstname && r[|firstname|] == ' ' && r[|firstname| + 1..] == surname
    {
      firstname + " " + surname
    }
  }

  /** A full name splits back into the two names it was made of, and searching
      for it (either way round) finds the person. */
  lemma FullNameFindsPerson(p: Person)
    requires ' ' !in p.firstname && ' ' !in p.surname
    ensures Text.Split(p.FullName()) == [p.firstname, p.surname]
    ensures Text.MatchesWords(Text.Split(p.FullName()), p.firstname, p.surname)
    ensures Text.MatchesWords(Text.Split(p.surname + " " + p.firstname), p.firstname, p.surname)
  {
    assert Text.Join([p.firstname, p.surname]) == p.FullName();
    Text.SplitJoin([p.firstname, p.surname]);
    Text.FullNameSearchFinds(p.firstname, p.surname);
  }

  /** A row of `users`; `password` holds the digest, never the password. */
  datatype User = User(id: nat, username: string, password: string, isSuperuser: bool)
  {
    /** The password is right when its digest is the stored one. */
    predicate CheckPassword(hash: string -> string, candidate: string) {
      hash(candidate) == password
    }
  }
}
