/** The key-loan ledger of db_interface.py: class `Db` holds one sequence per
    table and answers the floor, room, key, authorization and name-search
    queries over them; its methods open and close borrowings, invalidate
    authorizations and add people and users. Each method is one committed
    step; "now" is an integer timestamp passed in. */
module Ledger {
  import opened Wrappers
  import opened Models
  import opened Sorting
  import Text
  import Utils

  /** The dictionary `{"available": ..., "unavailable": ...}`. */
  datatype Availability = Availability(available: seq<Room>, unavailable: seq<Room>)

  /** The first row of `s` that satisfies `p` (a search loop with an early
      return, or `.one()` / `.one_or_none()` on a unique column). */
  function FindFirst<T>(s: seq<T>, p: T -> bool): (r: Option<T>)
    ensures r.Some? ==> r.value in s && p(r.value)
    ensures r.Some? ==> exists i :: 0 <= i < |s| && s[i] == r.value && forall j :: 0 <= j < i ==> !p(s[j])
    ensures r.None? ==> forall x :: x in s ==> !p(x)
  {
    if s == [] then None
    else if p(s[0]) then Some(s[0])
    else
      var r := FindFirst(s[1..], p);
      if r.Some? then
        ghost var i :| 0 <= i < |s[1..]| && s[1..][i] == r.value && forall j :: 0 <= j < i ==> !p(s[1..][j]);
        assert s[i + 1] == r.value && forall j :: 0 <= j < i + 1 ==> !p(s[j]);
        r
      else r
  }

  /** When at most one row satisfies `p`, the search finds exactly that row. */
  lemma FindFirstUnique<T>(s: seq<T>, p: T -> bool, x: T)
    requires x in s && p(x)
    requires forall y, z :: y in s && z in s && p(y) && p(z) ==> y == z
    ensures FindFirst(s, p) == Some(x)
  {
  }

  /** The largest id in a table, 0 for an empty one. */
  function MaxId<T>(s: seq<T>, id: T -> nat): (m: nat)
    ensures forall x :: x in s ==> id(x) <= m
  {
    if s == [] then 0
    else
      var m := MaxId(s[1..], id);
      if id(s[0]) > m then id(s[0]) else m
  }

  // ---- Row predicates, as values that Filter, SortBy and FindFirst take ----

  function OnFloor(floor: int): Room -> bool {
    (x: Room) => x.floor == floor
  }

  function OnFloorNamed(floor: int, expression: string): Room -> bool {
    (x: Room) => x.floor == floor && Text.Contains(x.name, expression)
  }

  function RoomWithId(id: nat): Room -> bool {
    (x: Room) => x.id == id
  }

  /** A key of room `x` (an ordinary one, if `ordinaryOnly`) is out. */
  function TakenBy(keys: seq<Key>, open: set<nat>, ordinaryOnly: bool): Room -> bool {
    (x: Room) => exists k :: k in keys && k.roomId == x.id && (!ordinaryOnly || k.IsOrdinary()) && k.id in open
  }

  /** Room `x` is not taken in the sense of `TakenBy(.., takenOrdinaryOnly)`
      and joins at least one key (an ordinary one, if `keyOrdinaryOnly`). */
  function Free(keys: seq<Key>, open: set<nat>, takenOrdinaryOnly: bool, keyOrdinaryOnly: bool): Room -> bool {
    (x: Room) => !TakenBy(keys, open, takenOrdinaryOnly)(x) &&
         exists k :: k in keys && k.roomId == x.id && (!keyOrdinaryOnly || k.IsOrdinary())
  }

  /** Descending `borrowings_count`, read from a snapshot of the counters. */
  function ByCountDesc(counts: map<Room, nat>): Room -> seq<int> {
    (x: Room) => if x in counts then [-(counts[x] as int)] else []
  }

  /** Rooms in non-increasing order of use. */
  ghost predicate MostUsedFirst(s: seq<Room>)
    reads s
  {
    forall i, j :: 0 <= i < j < |s| ==> s[i].borrowingsCount >= s[j].borrowingsCount
  }

  function Borrowable(rooms: seq<Room>, open: set<nat>, floor: int, ordinaryOnly: bool): Key -> bool {
    (k: Key) => k.id !in open && (!ordinaryOnly || k.IsOrdinary()) &&
         exists x :: x in rooms && x.id == k.roomId && x.floor == floor
  }

  /** Descending use count of the key's room. */
  function ByRoomCountDesc(rooms: seq<Room>, counts: map<Room, nat>): Key -> seq<int> {
    (k: Key) => match FindFirst(rooms, RoomWithId(k.roomId))
         case Some(x) => ByCountDesc(counts)(x)
         case None => []
  }

  function OrdinaryKeyOf(roomId: nat): Key -> bool {
    (k: Key) => k.roomId == roomId && k.IsOrdinary()
  }

  function BorrowableKeyOf(roomId: nat, open: set<nat>): Key -> bool {
    (k: Key) => k.roomId == roomId && k.IsOrdinary() && k.id !in open
  }

  /** `Key.is_borrowed`: one of the key's borrowings is still open. */
  function AnyOpen(bs: seq<Borrowing>, keyId: nat): (r: bool)
    reads bs
    ensures r <==> exists b :: b in bs && b.keyId == keyId && b.returned == None
  {
    if bs == [] then false
    else if bs[0].keyId == keyId && bs[0].returned == None then true
    else AnyOpen(bs[1..], keyId)
  }

  function OfAuthorization(authorizationId: nat): Borrowing -> bool {
    (b: Borrowing) => b.authorizationId == authorizationId
  }

  /** `len(authorization.borrowings)`: how many borrowings were made under
      the authorization. */
  function UsesOf(bs: seq<Borrowing>, authorizationId: nat): (n: nat) {
    |Filter(bs, OfAuthorization(authorizationId))|
  }

  function ByUsesAsc(bs: seq<Borrowing>): Authorization -> seq<int> {
    (a: Authorization) => [UsesOf(bs, a.id)]
  }

  function SameUses(bs: seq<Borrowing>, n: nat): Authorization -> bool {
    KeyEquals<Authorization>(ByUsesAsc(bs), [n])
  }

  /** An authorization for the room, valid at `now` by the snapshot of
      expiries; `roomExists` is whether the join with `rooms` finds the room. */
  function ValidFor(roomId: nat, expirations: map<Authorization, int>, now: int, roomExists: bool): Authorization -> bool {
    (a: Authorization) => roomExists && a.roomId == roomId && a in expirations && expirations[a] > now
  }

  /** The authorization joins a person. */
  function HasPersonIn(persons: seq<Person>): Authorization -> bool {
    (a: Authorization) => exists p :: p in persons && p.id == a.personId
  }

  function ByPerson(): Authorization -> int {
    (a: Authorization) => a.personId
  }

  /** `COUNT(b.id)` over a person's group: the borrowings made under the
      person's authorizations among `v`. */
  function GroupUses(v: seq<Authorization>, bs: seq<Borrowing>, personId: nat): (n: nat) {
    if v == [] then 0
    else (if v[0].personId == personId then UsesOf(bs, v[0].id) else 0) + GroupUses(v[1..], bs, personId)
  }

  /** The ranking: group use count, then `origin_id`, then expiry, all descending. */
  function RankKey(v: seq<Authorization>, bs: seq<Borrowing>, expirations: map<Authorization, int>): Authorization -> seq<int> {
    (a: Authorization) => [-(GroupUses(v, bs, a.personId) as int), -(a.originId as int),
                           -(if a in expirations then expirations[a] else 0)]
  }

  /** `GROUP BY` person over the candidate rows `v`, ranked. */
  function Ranked(v: seq<Authorization>, bs: seq<Borrowing>, expirations: map<Authorization, int>): seq<Authorization> {
    SortBy(FirstOfEachGroup(v, ByPerson()), RankKey(v, bs, expirations))
  }

  lemma RankedFacts(v: seq<Authorization>, bs: seq<Borrowing>, expirations: map<Authorization, int>)
    ensures forall a :: a in Ranked(v, bs, expirations) ==> a in v
    ensures forall a :: a in v ==> exists b :: b in Ranked(v, bs, expirations) && b.personId == a.personId
    ensures DistinctBy(Ranked(v, bs, expirations), ByPerson())
    ensures SortedBy(Ranked(v, bs, expirations), RankKey(v, bs, expirations))
  {
    var key := RankKey(v, bs, expirations);
    var reps := FirstOfEachGroup(v, ByPerson());
    FirstOfEachGroupDistinct(v, ByPerson());
    SortByFacts(reps, key);
    SortByDistinctBy(reps, key, ByPerson());
    forall a | a in v ensures exists b :: b in Ranked(v, bs, expirations) && b.personId == a.personId {
      FirstOfEachGroupCovers(v, ByPerson(), a);
      var b :| b in reps && ByPerson()(b) == ByPerson()(a);
      assert b in Ranked(v, bs, expirations);
    }
  }

  lemma FilterRanked(v: seq<Authorization>, bs: seq<Borrowing>, expirations: map<Authorization, int>, m: Authorization -> bool)
    requires forall a: Authorization, b: Authorization :: a.personId == b.personId ==> m(a) == m(b)
    ensures Filter(Ranked(v, bs, expirations), m) == SortBy(FirstOfEachGroup(Filter(v, m), ByPerson()), RankKey(v, bs, expirations))
  {
    FilterSortBy(FirstOfEachGroup(v, ByPerson()), RankKey(v, bs, expirations), m);
    FilterFirstOfEachGroup(v, ByPerson(), m);
  }

  lemma RankKeyFiltered(v: seq<Authorization>, bs: seq<Borrowing>, expirations: map<Authorization, int>, m: Authorization -> bool)
    requires forall a: Authorization, b: Authorization :: a.personId == b.personId ==> m(a) == m(b)
    ensures forall a :: a in FirstOfEachGroup(Filter(v, m), ByPerson()) ==>
              RankKey(v, bs, expirations)(a) == RankKey(Filter(v, m), bs, expirations)(a)
  {
    forall a | a in FirstOfEachGroup(Filter(v, m), ByPerson())
      ensures RankKey(v, bs, expirations)(a) == RankKey(Filter(v, m), bs, expirations)(a)
    {
      assert a in Filter(v, m) && m(a);
      GroupUsesFilter(v, bs, m, a.personId);
    }
  }

  /** A filter that depends on the person alone can be applied before or
      after the ranking: it keeps all or none of a person's rows, so the
      person's count does not change. */
  lemma SearchIsFilter(v: seq<Authorization>, bs: seq<Borrowing>, expirations: map<Authorization, int>, m: Authorization -> bool)
    requires forall a: Authorization, b: Authorization :: a.personId == b.personId ==> m(a) == m(b)
    ensures Ranked(Filter(v, m), bs, expirations) == Filter(Ranked(v, bs, expirations), m)
  {
    FilterRanked(v, bs, expirations, m);
    RankKeyFiltered(v, bs, expirations, m);
    SortByKeyAgreement(FirstOfEachGroup(Filter(v, m), ByPerson()), RankKey(v, bs, expirations), RankKey(Filter(v, m), bs, expirations));
  }

  /** Dropping rows of other people, or none of a person's rows, leaves the
      person's count as it was. */
  lemma {:induction false} GroupUsesFilter(v: seq<Authorization>, bs: seq<Borrowing>, m: Authorization -> bool, personId: nat)
    requires forall a :: a in v && a.personId == personId ==> m(a)
    ensures GroupUses(Filter(v, m), bs, personId) == GroupUses(v, bs, personId)
  {
    if v != [] {
      GroupUsesFilter(v[1..], bs, m, personId);
      assert v == [v[0]] + v[1..];
      FilterCons(v[0], v[1..], m);
      if m(v[0]) {
        assert ([v[0]] + Filter(v[1..], m))[1..] == Filter(v[1..], m);
      } else {
        assert [] + Filter(v[1..], m) == Filter(v[1..], m);
      }
    }
  }

  function PersonWithId(personId: nat): Person -> bool {
    (p: Person) => p.id == personId
  }

  /** The one- or two-word name filter, on the authorization's person. */
  function NameMatches(persons: seq<Person>, words: seq<string>): Authorization -> bool {
    (a: Authorization) => exists p :: p in persons && p.id == a.personId && Text.MatchesWords(words, p.firstname, p.surname)
  }

  /** The name filter of the prioritized search, which passes everyone for
      more than two words. */
  function NameMatchesOrAll(persons: seq<Person>, words: seq<string>): Authorization -> bool {
    (a: Authorization) => exists p :: p in persons && p.id == a.personId && Text.MatchesWordsOrAll(words, p.firstname, p.surname)
  }

  function PersonMatches(words: seq<string>): Person -> bool {
    (p: Person) => Text.MatchesWords(words, p.firstname, p.surname)
  }

  /** Ascending surname of the authorization's person. */
  function BySurname(persons: seq<Person>): Authorization -> seq<int> {
    (a: Authorization) => match FindFirst(persons, PersonWithId(a.personId))
                          case Some(p) => Text.StringKey(p.surname)
                          case None => []
  }

  function OwnSurname(): Person -> seq<int> {
    (p: Person) => Text.StringKey(p.surname)
  }

  function RoomName(): Room -> seq<int> {
    (x: Room) => Text.StringKey(x.name)
  }

  /** Name contains `expression`; on `floor`, when a floor is given. */
  function NamedOn(expression: string, floor: Option<int>): Room -> bool {
    (x: Room) => Text.Contains(x.name, expression) && (floor.Some? ==> x.floor == floor.value)
  }

  function OpenIn(returned: map<Borrowing, Option<int>>): Borrowing -> bool {
    (b: Borrowing) => b in returned && returned[b] == None
  }

  function ByBorrowed(): Borrowing -> seq<int> {
    (b: Borrowing) => [b.borrowed]
  }

  function UserNamed(username: string): User -> bool {
    (u: User) => u.username == username
  }

  function KeyWithId(id: nat): Key -> bool {
    (k: Key) => k.id == id
  }

  function AuthorizationWithId(id: nat): Authorization -> bool {
    (a: Authorization) => a.id == id
  }

  function BorrowingWithId(id: nat): Borrowing -> bool {
    (b: Borrowing) => b.id == id
  }

  function BorrowingIdOf(): Borrowing -> nat {
    (b: Borrowing) => b.id
  }

  function AuthorizationIdOf(): Authorization -> nat {
    (a: Authorization) => a.id
  }

  function PersonIdOf(): Person -> nat {
    (p: Person) => p.id
  }

  function UserIdOf(): User -> nat {
    (u: User) => u.id
  }

  /** One row of `excel_dump`: borrowed date and time, the key's registration
      number, the borrower's full name, and the return date and time, or two
      empty fields while the key is out. */
  function ExportRow(formatDate: int -> string, formatTime: int -> string, borrowed: int, returned: Option<int>,
                     key: Key, person: Person): (row: seq<string>)
    ensures |row| == 6
    ensures row[0] == formatDate(borrowed) && row[1] == formatTime(borrowed)
    ensures |row[2]| > 0 && (row[2][0] == '-' <==> key.registrationNumber < 0)
    ensures row[3] == person.FullName()
    ensures returned == None ==> row[4] == "" && row[5] == ""
    ensures returned != None ==> row[4] == formatDate(returned.value) && row[5] == formatTime(returned.value)
  {
    [formatDate(borrowed), formatTime(borrowed), Utils.IntToString(key.registrationNumber), person.FullName(),
     if returned.Some? then formatDate(returned.value) else "",
     if returned.Some? then formatTime(returned.value) else ""]
  }

  /** The registration number column reads back, with `int()`, as the key's
      registration number. */
  lemma RegistrationNumberReadsBack(formatDate: int -> string, formatTime: int -> string, borrowed: int, returned: Option<int>,
                                    key: Key, person: Person)
    ensures Utils.ParseInt(ExportRow(formatDate, formatTime, borrowed, returned, key, person)[2]) == Some(key.registrationNumber)
  {
    Utils.ParseIntToString(key.registrationNumber);
  }

  /** A date or time formatter that never yields the empty string. */
  ghost predicate NeverEmpty(format: int -> string) {
    forall t :: format(t) != []
  }

  /** The rendered date and time are never empty, so the last two fields of a
      row are empty exactly while the key is out. */
  lemma ReturnFieldsEmptyIffOpen(formatDate: int -> string, formatTime: int -> string, borrowed: int, returned: Option<int>,
                                 key: Key, person: Person)
    requires NeverEmpty(formatDate) && NeverEmpty(formatTime)
    ensures var row := ExportRow(formatDate, formatTime, borrowed, returned, key, person);
      (row[4] == "" <==> returned == None) && (row[5] == "" <==> returned == None)
  {
    if returned != None {
      var t := returned.value;
      assert formatDate(t) != [] && formatTime(t) != [];
    }
  }

  class Db {
    var rooms: seq<Room>
    var keys: seq<Key>
    var authorizations: seq<Authorization>
    var borrowings: seq<Borrowing>
    var persons: seq<Person>
    var users: seq<User>
    /** The password digest function, which lives outside this model. */
    const hash: string -> string

    /** Primary keys and the unique columns `rooms.name` and `users.username`. */
    ghost predicate Valid()
      reads this
    {
      && (forall i, j :: 0 <= i < j < |rooms| ==> rooms[i].id != rooms[j].id && rooms[i].name != rooms[j].name)
      && (forall i, j :: 0 <= i < j < |keys| ==> keys[i].id != keys[j].id)
      && (forall i, j :: 0 <= i < j < |authorizations| ==> authorizations[i].id != authorizations[j].id)
      && (forall i, j :: 0 <= i < j < |borrowings| ==> borrowings[i].id != borrowings[j].id)
      && (forall i, j :: 0 <= i < j < |persons| ==> persons[i].id != persons[j].id)
      && (forall i, j :: 0 <= i < j < |users| ==> users[i].id != users[j].id && users[i].username != users[j].username)
    }

    /** Opens a ledger over existing tables. */
    constructor (rooms: seq<Room>, keys: seq<Key>, authorizations: seq<Authorization>, borrowings: seq<Borrowing>,
                 persons: seq<Person>, users: seq<User>, hash: string -> string)
      requires forall i, j :: 0 <= i < j < |rooms| ==> rooms[i].id != rooms[j].id && rooms[i].name != rooms[j].name
      requires forall i, j :: 0 <= i < j < |keys| ==> keys[i].id != keys[j].id
      requires forall i, j :: 0 <= i < j < |authorizations| ==> authorizations[i].id != authorizations[j].id
      requires forall i, j :: 0 <= i < j < |borrowings| ==> borrowings[i].id != borrowings[j].id
      requires forall i, j :: 0 <= i < j < |persons| ==> persons[i].id != persons[j].id
      requires forall i, j :: 0 <= i < j < |users| ==> users[i].id != users[j].id && users[i].username != users[j].username
      ensures Valid()
      ensures this.rooms == rooms && this.keys == keys && this.authorizations == authorizations
      ensures this.borrowings == borrowings && this.persons == persons && this.users == users
      ensures this.hash == hash
    {
      this.rooms := rooms;
      this.keys := keys;
      this.authorizations := authorizations;
      this.borrowings := borrowings;
      this.persons := persons;
      this.users := users;
      this.hash := hash;
    }

    // ---- Snapshots of the columns the source changes in place ----

    function Counts(): (m: map<Room, nat>)
      reads this, rooms
      ensures forall x :: x in rooms ==> x in m && m[x] == x.borrowingsCount
    {
      map x | x in rooms :: x.borrowingsCount
    }

    function OpenKeyIds(): (ids: set<nat>)
      reads this, borrowings
      ensures forall id :: id in ids <==> AnyOpen(borrowings, id)
    {
      set b | b in borrowings && b.returned == None :: b.keyId
    }

    // ---- Rooms and keys ----

    /** `Key.is_borrowed`. */
    function KeyIsBorrowed(k: Key): (r: bool)
      reads this, borrowings
      ensures r <==> exists b :: b in borrowings && b.keyId == k.id && b.returned == None
    {
      AnyOpen(borrowings, k.id)
    }

    /** Some key of `x` (an ordinary one, if `ordinaryOnly`) is out. */
    ghost predicate RoomTaken(x: Room, ordinaryOnly: bool)
      reads this, borrowings
    {
      exists k :: k in keys && k.roomId == x.id && (!ordinaryOnly || k.IsOrdinary()) && KeyIsBorrowed(k)
    }

    ghost predicate HasKey(x: Room, ordinaryOnly: bool)
      reads this
    {
      exists k :: k in keys && k.roomId == x.id && (!ordinaryOnly || k.IsOrdinary())
    }

    lemma TakenMeaning(ordinaryOnly: bool)
      ensures forall x: Room :: TakenBy(keys, OpenKeyIds(), ordinaryOnly)(x) <==> RoomTaken(x, ordinaryOnly)
    {
    }

    lemma CountOrder(s: seq<Room>)
      requires forall x :: x in s ==> x in rooms
      requires SortedBy(s, ByCountDesc(Counts()))
      ensures MostUsedFirst(s)
    {
      var key := ByCountDesc(Counts());
      forall i, j | 0 <= i < j < |s| ensures s[i].borrowingsCount >= s[j].borrowingsCount {
        assert s[i] in rooms && s[j] in rooms;
        LexLeSingleton(-(s[i].borrowingsCount as int), -(s[j].borrowingsCount as int));
      }
    }

    /** `get_all_floors`: every floor some room is on, once, ascending. */
    function AllFloors(): (r: seq<int>)
      reads this
      ensures forall i, j :: 0 <= i < j < |r| ==> r[i] < r[j]
      ensures forall f :: f in r ==> exists x :: x in rooms && x.floor == f
      ensures forall x :: x in rooms ==> x.floor in r
    {
      var rs := rooms;
      var floors := seq(|rs|, i requires 0 <= i < |rs| => rs[i].floor);
      var same: int -> int := f => f;
      var key: int -> seq<int> := f => [f];
      var once := FirstOfEachGroup(floors, same);
      FirstOfEachGroupDistinct(floors, same);
      assert Distinct(once);
      SortByFacts(once, key);
      var r := SortBy(once, key);
      assert forall i, j :: 0 <= i < j < |r| ==> r[i] < r[j] by {
        forall i, j | 0 <= i < j < |r| ensures r[i] < r[j] {
          LexLeSingleton(r[i], r[j]);
        }
      }
      assert forall x :: x in rs ==> x.floor in r by {
        forall x | x in rs ensures x.floor in r {
          var i :| 0 <= i < |rs| && rs[i] == x;
          FirstOfEachGroupCovers(floors, same, floors[i]);
        }
      }
      assert forall f :: f in r ==> exists x :: x in rs && x.floor == f by {
        forall f | f in r ensures exists x :: x in rs && x.floor == f {
          var i :| 0 <= i < |floors| && floors[i] == f;
          assert rs[i] in rs;
        }
      }
      r
    }

    /** `get_rooms_by_floor`: the floor's rooms, most used first. */
    function RoomsByFloor(floor: int): (r: seq<Room>)
      requires Valid()
      reads this, rooms
      ensures forall x :: x in r ==> x in rooms && x.floor == floor
      ensures forall x :: x in rooms && x.floor == floor ==> x in r
      ensures Distinct(r)
      ensures MostUsedFirst(r)
    {
      var key := ByCountDesc(Counts());
      var onFloor := Filter(rooms, OnFloor(floor));
      FilterDistinct(rooms, OnFloor(floor));
      SortByFacts(onFloor, key);
      CountOrder(SortBy(onFloor, key));
      SortBy(onFloor, key)
    }

    /** The availability split of the rooms in `candidates`: a room is
        unavailable when one of its keys (an ordinary one, if `ordinaryOnly`)
        is out, and available when it is not and has such a key. */
    function Partition(candidates: seq<Room>, ordinaryOnly: bool): (d: Availability)
      requires Distinct(candidates)
      requires forall x :: x in candidates ==> x in rooms
      reads this, rooms, borrowings
      ensures forall x :: x in d.unavailable ==> x in candidates && RoomTaken(x, ordinaryOnly)
      ensures forall x :: x in candidates && RoomTaken(x, ordinaryOnly) ==> x in d.unavailable
      ensures forall x :: x in d.available ==> x in candidates && !RoomTaken(x, ordinaryOnly) && HasKey(x, ordinaryOnly)
      ensures forall x :: x in candidates && !RoomTaken(x, ordinaryOnly) && HasKey(x, ordinaryOnly) ==> x in d.available
      ensures Distinct(d.available) && Distinct(d.unavailable)
      ensures MostUsedFirst(d.available) && MostUsedFirst(d.unavailable)
    {
      var open := OpenKeyIds();
      var key := ByCountDesc(Counts());
      var taken := Filter(candidates, TakenBy(keys, open, ordinaryOnly));
      var free := Filter(candidates, Free(keys, open, ordinaryOnly, ordinaryOnly));
      TakenMeaning(ordinaryOnly);
      FilterDistinct(candidates, TakenBy(keys, open, ordinaryOnly));
      FilterDistinct(candidates, Free(keys, open, ordinaryOnly, ordinaryOnly));
      SortByFacts(taken, key);
      SortByFacts(free, key);
      CountOrder(SortBy(taken, key));
      CountOrder(SortBy(free, key));
      Availability(SortBy(free, key), SortBy(taken, key))
    }

    /** `get_rooms_availability_dict_by_floor`. */
    function RoomsAvailabilityByFloor(floor: int, ordinaryOnly: bool): (d: Availability)
      requires Valid()
      reads this, rooms, borrowings
      ensures forall x :: x in d.unavailable ==> x in rooms && x.floor == floor && RoomTaken(x, ordinaryOnly)
      ensures forall x :: x in rooms && x.floor == floor && RoomTaken(x, ordinaryOnly) ==> x in d.unavailable
      ensures forall x :: x in d.available ==> x in rooms && x.floor == floor && !RoomTaken(x, ordinaryOnly) && HasKey(x, ordinaryOnly)
      ensures forall x :: x in rooms && x.floor == floor && !RoomTaken(x, ordinaryOnly) && HasKey(x, ordinaryOnly) ==> x in d.available
      ensures forall x :: x in d.available ==> x !in d.unavailable
      ensures Distinct(d.available) && Distinct(d.unavailable)
      ensures MostUsedFirst(d.available) && MostUsedFirst(d.unavailable)
    {
      FilterDistinct(rooms, OnFloor(floor));
      Partition(Filter(rooms, OnFloor(floor)), ordinaryOnly)
    }

    /** `search_rooms_availability_dict_by_floor`: the same split, over the
        floor's rooms whose name contains `expression`. */
    function SearchRoomsAvailabilityByFloor(expression: string, floor: int, ordinaryOnly: bool): (d: Availability)
      requires Valid()
      reads this, rooms, borrowings
      ensures forall x :: x in d.unavailable ==> x in rooms && x.floor == floor && Text.Contains(x.name, expression) && RoomTaken(x, ordinaryOnly)
      ensures forall x :: x in rooms && x.floor == floor && Text.Contains(x.name, expression) && RoomTaken(x, ordinaryOnly) ==> x in d.unavailable
      ensures forall x :: x in d.available ==> x in rooms && x.floor == floor && Text.Contains(x.name, expression) && !RoomTaken(x, ordinaryOnly) && HasKey(x, ordinaryOnly)
      ensures forall x :: x in rooms && x.floor == floor && Text.Contains(x.name, expression) && !RoomTaken(x, ordinaryOnly) && HasKey(x, ordinaryOnly) ==> x in d.available
      ensures forall x :: x in d.available ==> x !in d.unavailable
      ensures Distinct(d.available) && Distinct(d.unavailable)
      ensures MostUsedFirst(d.available) && MostUsedFirst(d.unavailable)
    {
      FilterDistinct(rooms, OnFloorNamed(floor, expression));
      Partition(Filter(rooms, OnFloorNamed(floor, expression)), ordinaryOnly)
    }

    /** `get_available_rooms_by_floor`: the floor's rooms none of whose keys,
        of whatever class, is out, and which have a key (an ordinary one, if
        `ordinaryOnly`); most used first. */
    function AvailableRoomsByFloor(floor: int, ordinaryOnly: bool): (r: seq<Room>)
      requires Valid()
      reads this, rooms, borrowings
      ensures forall x :: x in r ==> x in rooms && x.floor == floor && !RoomTaken(x, false) && HasKey(x, ordinaryOnly)
      ensures forall x :: x in rooms && x.floor == floor && !RoomTaken(x, false) && HasKey(x, ordinaryOnly) ==> x in r
      ensures Distinct(r)
      ensures MostUsedFirst(r)
    {
      var open := OpenKeyIds();
      var key := ByCountDesc(Counts());
      var onFloor := Filter(rooms, OnFloor(floor));
      var free := Filter(onFloor, Free(keys, open, false, ordinaryOnly));
      TakenMeaning(false);
      FilterDistinct(rooms, OnFloor(floor));
      FilterDistinct(onFloor, Free(keys, open, false, ordinaryOnly));
      SortByFacts(free, key);
      CountOrder(SortBy(free, key));
      SortBy(free, key)
    }

    /** The room with the given id, if there is one. */
    function RoomById(id: nat): (r: Option<Room>)
      reads this
      ensures r.Some? ==> r.value in rooms && r.value.id == id
      ensures r.None? ==> forall x :: x in rooms ==> x.id != id
    {
      FindFirst(rooms, RoomWithId(id))
    }

    lemma RoomByIdFinds(x: Room)
      requires Valid() && x in rooms
      ensures RoomById(x.id) == Some(x)
    {
      forall y, z | y in rooms && z in rooms && RoomWithId(x.id)(y) && RoomWithId(x.id)(z) ensures y == z {
        var i :| 0 <= i < |rooms| && rooms[i] == y;
        var j :| 0 <= j < |rooms| && rooms[j] == z;
        assert i == j;
      }
      FindFirstUnique(rooms, RoomWithId(x.id), x);
    }

    lemma KeyCountOrder(r: seq<Key>)
      requires Valid()
      requires SortedBy(r, ByRoomCountDesc(rooms, Counts()))
      ensures forall i, j, x, y :: 0 <= i < j < |r| && x in rooms && y in rooms && x.id == r[i].roomId && y.id == r[j].roomId
                ==> x.borrowingsCount >= y.borrowingsCount
    {
      var key := ByRoomCountDesc(rooms, Counts());
      forall i, j, x, y | 0 <= i < j < |r| && x in rooms && y in rooms && x.id == r[i].roomId && y.id == r[j].roomId
        ensures x.borrowingsCount >= y.borrowingsCount
      {
        RoomByIdFinds(x);
        RoomByIdFinds(y);
        var counts := Counts();
        assert FindFirst(rooms, RoomWithId(r[i].roomId)) == Some(x);
        assert FindFirst(rooms, RoomWithId(r[j].roomId)) == Some(y);
        assert x in counts && counts[x] == x.borrowingsCount;
        assert y in counts && counts[y] == y.borrowingsCount;
        assert key(r[i]) == ByCountDesc(counts)(x) == [-(x.borrowingsCount as int)];
        assert key(r[j]) == ByCountDesc(counts)(y) == [-(y.borrowingsCount as int)];
        assert LexLe(key(r[i]), key(r[j]));
        LexLeSingleton(-(x.borrowingsCount as int), -(y.borrowingsCount as int));
      }
    }

    /** `get_borrowable_keys_by_floor`: keys that are not out, of rooms on
        the floor (ordinary ones, if `ordinaryOnly`), keys of the most used
        rooms first. */
    function BorrowableKeysByFloor(floor: int, ordinaryOnly: bool): (r: seq<Key>)
      requires Valid()
      reads this, rooms, borrowings
      ensures forall k :: k in r ==> k in keys && !KeyIsBorrowed(k) && (ordinaryOnly ==> k.IsOrdinary()) &&
                                     exists x :: x in rooms && x.id == k.roomId && x.floor == floor
      ensures forall k :: (k in keys && !KeyIsBorrowed(k) && (ordinaryOnly ==> k.IsOrdinary()) &&
                           exists x :: x in rooms && x.id == k.roomId && x.floor == floor) ==> k in r
      ensures Distinct(r)
      ensures forall i, j, x, y :: 0 <= i < j < |r| && x in rooms && y in rooms && x.id == r[i].roomId && y.id == r[j].roomId
                ==> x.borrowingsCount >= y.borrowingsCount
    {
      var open := OpenKeyIds();
      var counts := Counts();
      var key := ByRoomCountDesc(rooms, counts);
      var ks := Filter(keys, Borrowable(rooms, open, floor, ordinaryOnly));
      assert Distinct(keys);
      FilterDistinct(keys, Borrowable(rooms, open, floor, ordinaryOnly));
      SortByFacts(ks, key);
      KeyCountOrder(SortBy(ks, key));
      SortBy(ks, key)
    }

    /** `Room.get_ordinary_key`: the room's first ordinary key. */
    function OrdinaryKey(x: Room): (r: Option<Key>)
      reads this
      ensures r.Some? ==> r.value in keys && r.value.roomId == x.id && r.value.IsOrdinary()
      ensures r.Some? ==> exists i :: 0 <= i < |keys| && keys[i] == r.value &&
                            forall j :: 0 <= j < i ==> !(keys[j].roomId == x.id && keys[j].IsOrdinary())
      ensures r.None? <==> !HasKey(x, true)
    {
      FindFirst(keys, OrdinaryKeyOf(x.id))
    }

    /** `Room.get_borrowable_key`: the room's first ordinary key that is not out. */
    function BorrowableKey(x: Room): (r: Option<Key>)
      reads this, borrowings
      ensures r.Some? ==> r.value in keys && r.value.roomId == x.id && r.value.IsOrdinary() && !KeyIsBorrowed(r.value)
      ensures r.Some? ==> exists i :: 0 <= i < |keys| && keys[i] == r.value &&
                            forall j :: 0 <= j < i ==> !(keys[j].roomId == x.id && keys[j].IsOrdinary() && !KeyIsBorrowed(keys[j]))
      ensures r.None? <==> forall k :: k in keys && k.roomId == x.id && k.IsOrdinary() ==> KeyIsBorrowed(k)
    {
      FindFirst(keys, BorrowableKeyOf(x.id, OpenKeyIds()))
    }
      // ---- Authorizations ----

    function Expirations(): (m: map<Authorization, int>)
      reads this, authorizations
      ensures forall a :: a in authorizations ==> a in m && m[a] == a.expiration
    {
      map a | a in authorizations :: a.expiration
    }

    ghost predicate RoomExists(roomId: nat)
      reads this
    {
      exists x :: x in rooms && x.id == roomId
    }

    ghost predicate PersonExists(personId: nat)
      reads this
    {
      exists p :: p in persons && p.id == personId
    }

    /** `len(authorization.borrowings)`. */
    function Uses(a: Authorization): nat
      reads this
    {
      UsesOf(borrowings, a.id)
    }

    /** The authorizations for the room valid at `now`, in table order. */
    function ValidRows(roomId: nat, now: int): (v: seq<Authorization>)
      reads this, authorizations
      ensures forall a :: a in v ==> a in authorizations && a.roomId == roomId && a.IsValid(now) && RoomExists(roomId)
      ensures forall a :: a in authorizations && a.roomId == roomId && a.IsValid(now) && RoomExists(roomId) ==> a in v
    {
      Filter(authorizations, ValidFor(roomId, Expirations(), now, RoomById(roomId).Some?))
    }

    /** `get_valid_authorizations_for_room`: the room's authorizations valid at
        `now`, least used first; equally used ones keep their table order. */
    function ValidAuthorizationsForRoom(roomId: nat, now: int): (r: seq<Authorization>)
      requires Valid()
      reads this, authorizations
      ensures forall a :: a in r ==> a in authorizations && a.roomId == roomId && a.IsValid(now) && RoomExists(roomId)
      ensures forall a :: a in authorizations && a.roomId == roomId && a.IsValid(now) && RoomExists(roomId) ==> a in r
      ensures Distinct(r)
      ensures forall i, j :: 0 <= i < j < |r| ==> Uses(r[i]) <= Uses(r[j])
      ensures forall n: nat :: Filter(r, SameUses(borrowings, n)) == Filter(ValidRows(roomId, now), SameUses(borrowings, n))
    {
      var v := ValidRows(roomId, now);
      var key := ByUsesAsc(borrowings);
      assert Distinct(authorizations);
      FilterDistinct(authorizations, ValidFor(roomId, Expirations(), now, RoomById(roomId).Some?));
      SortByFacts(v, key);
      var r := SortBy(v, key);
      assert forall i, j :: 0 <= i < j < |r| ==> Uses(r[i]) <= Uses(r[j]) by {
        forall i, j | 0 <= i < j < |r| ensures Uses(r[i]) <= Uses(r[j]) {
          LexLeSingleton(Uses(r[i]), Uses(r[j]));
        }
      }
      assert forall n: nat :: Filter(r, SameUses(borrowings, n)) == Filter(v, SameUses(borrowings, n)) by {
        forall n: nat ensures Filter(r, SameUses(borrowings, n)) == Filter(v, SameUses(borrowings, n)) {
          SortByStable(v, key, [n]);
        }
      }
      r
    }

    /** The rows the prioritized queries group: valid authorizations for the
        room that join a person. */
    function Candidates(roomId: nat, now: int): (v: seq<Authorization>)
      reads this, authorizations
      ensures forall a :: a in v ==> a in authorizations && a.roomId == roomId && a.IsValid(now) && RoomExists(roomId) && PersonExists(a.personId)
      ensures forall a :: a in authorizations && a.roomId == roomId && a.IsValid(now) && RoomExists(roomId) && PersonExists(a.personId) ==> a in v
    {
      Filter(ValidRows(roomId, now), HasPersonIn(persons))
    }

    /** The borrowings made under the person's valid authorizations for the room. */
    ghost function PersonUses(roomId: nat, now: int, personId: nat): nat
      reads this, authorizations
    {
      GroupUses(Candidates(roomId, now), borrowings, personId)
    }

    /** `a` ranks at least as high as `b`: more uses of the person, or as many
        and a higher origin, or both equal and a later expiry. */
    ghost predicate RanksAbove(roomId: nat, now: int, a: Authorization, b: Authorization)
      reads this, authorizations, a, b
    {
      var ca := PersonUses(roomId, now, a.personId);
      var cb := PersonUses(roomId, now, b.personId);
      ca > cb || (ca == cb && (a.originId > b.originId || (a.originId == b.originId && a.expiration >= b.expiration)))
    }

    lemma RankOrder(roomId: nat, now: int, r: seq<Authorization>)
      requires forall a :: a in r ==> a in Candidates(roomId, now)
      requires SortedBy(r, RankKey(Candidates(roomId, now), borrowings, Expirations()))
      ensures forall i, j :: 0 <= i < j < |r| ==> RanksAbove(roomId, now, r[i], r[j])
    {
      var v := Candidates(roomId, now);
      var key := RankKey(v, borrowings, Expirations());
      forall i, j | 0 <= i < j < |r| ensures RanksAbove(roomId, now, r[i], r[j]) {
        assert LexLe(key(r[i]), key(r[j]));
        assert r[i] in authorizations && r[j] in authorizations;
        LexLeTriple(-(GroupUses(v, borrowings, r[i].personId) as int), -(r[i].originId as int), -r[i].expiration,
                    -(GroupUses(v, borrowings, r[j].personId) as int), -(r[j].originId as int), -r[j].expiration);
      }
    }

    lemma PrioritizedRows(roomId: nat, now: int)
      ensures var r := Ranked(Candidates(roomId, now), borrowings, Expirations());
        forall a :: a in r ==> a in authorizations && a.roomId == roomId && a.IsValid(now) && RoomExists(roomId) && PersonExists(a.personId)
    {
      RankedFacts(Candidates(roomId, now), borrowings, Expirations());
    }

    lemma PrioritizedCovers(roomId: nat, now: int)
      ensures var r := Ranked(Candidates(roomId, now), borrowings, Expirations());
        forall a :: a in authorizations && a.roomId == roomId && a.IsValid(now) && RoomExists(roomId) && PersonExists(a.personId)
          ==> exists b :: b in r && b.personId == a.personId
    {
      RankedFacts(Candidates(roomId, now), borrowings, Expirations());
    }

    lemma PrioritizedOnePerPerson(roomId: nat, now: int)
      ensures var r := Ranked(Candidates(roomId, now), borrowings, Expirations());
        forall i, j :: 0 <= i < j < |r| ==> r[i].personId != r[j].personId
    {
      var r := Ranked(Candidates(roomId, now), borrowings, Expirations());
      RankedFacts(Candidates(roomId, now), borrowings, Expirations());
      forall i, j | 0 <= i < j < |r| ensures r[i].personId != r[j].personId {
        assert ByPerson()(r[i]) != ByPerson()(r[j]);
      }
    }

    lemma PrioritizedOrder(roomId: nat, now: int)
      ensures var r := Ranked(Candidates(roomId, now), borrowings, Expirations());
        forall i, j :: 0 <= i < j < |r| ==> RanksAbove(roomId, now, r[i], r[j])
    {
      var r := Ranked(Candidates(roomId, now), borrowings, Expirations());
      RankedFacts(Candidates(roomId, now), borrowings, Expirations());
      RankOrder(roomId, now, r);
    }

    /** `get_prioritized_authorizations_for_room`: one valid authorization per
        person who holds one for the room, in ranking order. */
    function PrioritizedAuthorizationsForRoom(roomId: nat, now: int): (r: seq<Authorization>)
      requires Valid()
      reads this, authorizations
      ensures forall a :: a in r ==> a in authorizations && a.roomId == roomId && a.IsValid(now) && RoomExists(roomId) && PersonExists(a.personId)
      ensures forall a :: a in authorizations && a.roomId == roomId && a.IsValid(now) && RoomExists(roomId) && PersonExists(a.personId)
                ==> exists b :: b in r && b.personId == a.personId
      ensures forall i, j :: 0 <= i < j < |r| ==> r[i].personId != r[j].personId
      ensures forall i, j :: 0 <= i < j < |r| ==> RanksAbove(roomId, now, r[i], r[j])
    {
      PrioritizedRows(roomId, now);
      PrioritizedCovers(roomId, now);
      PrioritizedOnePerPerson(roomId, now);
      PrioritizedOrder(roomId, now);
      Ranked(Candidates(roomId, now), borrowings, Expirations())
    }
  

    /** `search_prioritized_authorizations_for_room`: the prioritized list of
        the people whose names match the expression. Three or more words
        filter nobody out. */
    function SearchPrioritizedAuthorizationsForRoom(expression: string, roomId: nat, now: int): (r: seq<Authorization>)
      requires Valid()
      reads this, authorizations
      ensures r == Filter(PrioritizedAuthorizationsForRoom(roomId, now), NameMatchesOrAll(persons, Text.Split(expression)))
      ensures |Text.Split(expression)| > 2 ==> r == PrioritizedAuthorizationsForRoom(roomId, now)
    {
      var words := Text.Split(expression);
      var m := NameMatchesOrAll(persons, words);
      var v := Candidates(roomId, now);
      SearchIsFilter(v, borrowings, Expirations(), m);
      ManyWordsKeepAll(v, words);
      Ranked(Filter(v, m), borrowings, Expirations())
    }

    lemma ManyWordsKeepAll(v: seq<Authorization>, words: seq<string>)
      requires forall a :: a in v ==> PersonExists(a.personId)
      ensures |words| > 2 ==> Filter(Ranked(v, borrowings, Expirations()), NameMatchesOrAll(persons, words)) == Ranked(v, borrowings, Expirations())
    {
      if |words| > 2 {
        RankedFacts(v, borrowings, Expirations());
        var r := Ranked(v, borrowings, Expirations());
        forall a | a in r ensures NameMatchesOrAll(persons, words)(a) {
          var p :| p in persons && p.id == a.personId;
        }
        FilterAllKept(r, NameMatchesOrAll(persons, words));
      }
    }

    // ---- Name searches ----

    /** `search_authorizations`: authorizations whose person matches the one-
        or two-word expression, by surname; nothing for more words. */
    function SearchAuthorizations(expression: string): (r: seq<Authorization>)
      requires Valid()
      reads this
      ensures forall a :: a in r ==> (a in authorizations &&
                exists p :: p in persons && p.id == a.personId && Text.MatchesWords(Text.Split(expression), p.firstname, p.surname))
      ensures forall a :: (a in authorizations &&
                exists p :: p in persons && p.id == a.personId && Text.MatchesWords(Text.Split(expression), p.firstname, p.surname)) ==> a in r
      ensures |Text.Split(expression)| > 2 ==> r == []
      ensures Distinct(r)
      ensures forall i, j, p, q :: 0 <= i < j < |r| && p in persons && q in persons && p.id == r[i].personId && q.id == r[j].personId
                ==> LexLe(Text.StringKey(p.surname), Text.StringKey(q.surname))
    {
      var words := Text.Split(expression);
      if |words| > 2 then []
      else
        var found := Filter(authorizations, NameMatches(persons, words));
        assert Distinct(authorizations);
        FilterDistinct(authorizations, NameMatches(persons, words));
        SortByFacts(found, BySurname(persons));
        SurnameOrder(SortBy(found, BySurname(persons)));
        SortBy(found, BySurname(persons))
    }

    lemma PersonByIdFinds(p: Person)
      requires Valid() && p in persons
      ensures FindFirst(persons, PersonWithId(p.id)) == Some(p)
    {
      forall y, z | y in persons && z in persons && PersonWithId(p.id)(y) && PersonWithId(p.id)(z) ensures y == z {
        var i :| 0 <= i < |persons| && persons[i] == y;
        var j :| 0 <= j < |persons| && persons[j] == z;
        assert i == j;
      }
      FindFirstUnique(persons, PersonWithId(p.id), p);
    }

    lemma SurnameOrder(r: seq<Authorization>)
      requires Valid()
      requires SortedBy(r, BySurname(persons))
      ensures forall i, j, p, q :: 0 <= i < j < |r| && p in persons && q in persons && p.id == r[i].personId && q.id == r[j].personId
                ==> LexLe(Text.StringKey(p.surname), Text.StringKey(q.surname))
    {
      forall i, j, p, q | 0 <= i < j < |r| && p in persons && q in persons && p.id == r[i].personId && q.id == r[j].personId
        ensures LexLe(Text.StringKey(p.surname), Text.StringKey(q.surname))
      {
        PersonByIdFinds(p);
        PersonByIdFinds(q);
        assert LexLe(BySurname(persons)(r[i]), BySurname(persons)(r[j]));
      }
    }

    /** `search_authorized_persons`: people matching the one- or two-word
        expression, by surname; nobody for more words. */
    function SearchAuthorizedPersons(expression: string): (r: seq<Person>)
      requires Valid()
      reads this
      ensures forall p :: p in r ==> p in persons && Text.MatchesWords(Text.Split(expression), p.firstname, p.surname)
      ensures forall p :: p in persons && Text.MatchesWords(Text.Split(expression), p.firstname, p.surname) ==> p in r
      ensures |Text.Split(expression)| > 2 ==> r == []
      ensures Distinct(r)
      ensures forall i, j :: 0 <= i < j < |r| ==> LexLe(Text.StringKey(r[i].surname), Text.StringKey(r[j].surname))
    {
      var words := Text.Split(expression);
      if |words| > 2 then []
      else
        var found := Filter(persons, PersonMatches(words));
        assert Distinct(persons);
        FilterDistinct(persons, PersonMatches(words));
        SortByFacts(found, OwnSurname());
        SortBy(found, OwnSurname())
    }

    /** Rooms whose name contains the expression, on the floor if one is
        given, by name. */
    function SearchRoomsOnFloor(expression: string, floor: Option<int>): (r: seq<Room>)
      requires Valid()
      reads this
      ensures forall x :: x in r ==> x in rooms && Text.Contains(x.name, expression) && (floor.Some? ==> x.floor == floor.value)
      ensures forall x :: x in rooms && Text.Contains(x.name, expression) && (floor.Some? ==> x.floor == floor.value) ==> x in r
      ensures Distinct(r)
      ensures forall i, j :: 0 <= i < j < |r| ==> LexLe(Text.StringKey(r[i].name), Text.StringKey(r[j].name))
    {
      var found := Filter(rooms, NamedOn(expression, floor));
      FilterDistinct(rooms, NamedOn(expression, floor));
      SortByFacts(found, RoomName());
      SortBy(found, RoomName())
    }

    /** `search_rooms` as written: `if floor:` is false for floor 0 as well as
        for no floor, so asking for floor 0 filters on no floor at all. */
    function SearchRooms(expression: string, floor: Option<int>): (r: seq<Room>)
      requires Valid()
      reads this
      ensures floor != Some(0) ==> r == SearchRoomsOnFloor(expression, floor)
      ensures floor == Some(0) ==> r == SearchRoomsOnFloor(expression, None)
    {
      SearchRoomsOnFloor(expression, if floor == Some(0) then None else floor)
    }

    /** Asking `search_rooms` for floor 0 returns matching rooms of other floors. */
    lemma SearchRoomsGroundFloorIgnored(expression: string, x: Room)
      requires Valid()
      requires x in rooms && Text.Contains(x.name, expression) && x.floor != 0
      ensures x in SearchRooms(expression, Some(0))
      ensures x !in SearchRoomsOnFloor(expression, Some(0))
    {
    }

    // ---- Borrowings ----

    function Returns(): (m: map<Borrowing, Option<int>>)
      reads this, borrowings
      ensures forall b :: b in borrowings ==> b in m && m[b] == b.returned
    {
      map b | b in borrowings :: b.returned
    }

    /** `get_ongoing_borrowings`: the open borrowings, oldest first. */
    function OngoingBorrowings(): (r: seq<Borrowing>)
      requires Valid()
      reads this, borrowings
      ensures forall b :: b in r ==> b in borrowings && b.returned == None
      ensures forall b :: b in borrowings && b.returned == None ==> b in r
      ensures Distinct(r)
      ensures forall i, j :: 0 <= i < j < |r| ==> r[i].borrowed <= r[j].borrowed
    {
      var open := Filter(borrowings, OpenIn(Returns()));
      assert Distinct(borrowings);
      FilterDistinct(borrowings, OpenIn(Returns()));
      SortByFacts(open, ByBorrowed());
      var r := SortBy(open, ByBorrowed());
      assert forall i, j :: 0 <= i < j < |r| ==> r[i].borrowed <= r[j].borrowed by {
        forall i, j | 0 <= i < j < |r| ensures r[i].borrowed <= r[j].borrowed {
          LexLeSingleton(r[i].borrowed, r[j].borrowed);
        }
      }
      r
    }

    // ---- Users ----

    /** `get_user_by_username`. */
    function UserByUsername(username: string): (r: Option<User>)
      reads this
      ensures r.Some? ==> r.value in users && r.value.username == username
      ensures r.None? <==> forall u :: u in users ==> u.username != username
    {
      FindFirst(users, UserNamed(username))
    }
  

    // ---- Lookups by primary key ----

    function KeyById(id: nat): (r: Option<Key>)
      reads this
      ensures r.Some? ==> r.value in keys && r.value.id == id
      ensures r.None? ==> forall k :: k in keys ==> k.id != id
    {
      FindFirst(keys, KeyWithId(id))
    }

    function AuthorizationById(id: nat): (r: Option<Authorization>)
      reads this
      ensures r.Some? ==> r.value in authorizations && r.value.id == id
      ensures r.None? ==> forall a :: a in authorizations ==> a.id != id
    {
      FindFirst(authorizations, AuthorizationWithId(id))
    }

    function BorrowingById(id: nat): (r: Option<Borrowing>)
      reads this
      ensures r.Some? ==> r.value in borrowings && r.value.id == id
      ensures r.None? ==> forall b :: b in borrowings ==> b.id != id
    {
      FindFirst(borrowings, BorrowingWithId(id))
    }

    function PersonById(id: nat): (r: Option<Person>)
      reads this
      ensures r.Some? ==> r.value in persons && r.value.id == id
      ensures r.None? ==> forall p :: p in persons ==> p.id != id
    {
      FindFirst(persons, PersonWithId(id))
    }

    /** `authorization.room` for the authorization with the given id. */
    function RoomOfAuthorization(authorizationId: nat): (r: Option<Room>)
      reads this
      ensures r.Some? ==> r.value in rooms && exists a :: a in authorizations && a.id == authorizationId && a.roomId == r.value.id
      ensures r.Some? ==> AuthorizationById(authorizationId).Some? && r.value.id == AuthorizationById(authorizationId).value.roomId
      ensures r.None? <==> AuthorizationById(authorizationId).None? || !RoomExists(AuthorizationById(authorizationId).value.roomId)
    {
      match AuthorizationById(authorizationId)
      case Some(a) => RoomById(a.roomId)
      case None => None
    }

    // ---- Borrowing and returning keys ----

    /** The ledger's intended invariant: a key has at most one open borrowing. */
    ghost predicate OneOpenPerKey()
      reads this, borrowings
    {
      forall i, j :: 0 <= i < j < |borrowings| && borrowings[i].keyId == borrowings[j].keyId ==>
        borrowings[i].returned != None || borrowings[j].returned != None
    }

    /** `add_borrowing` as written: opens a borrowing of the key under the
        authorization and bumps the use counter of the authorization's room,
        without looking at whether the key is already out. */
    method AddBorrowing(keyId: nat, authorizationId: nat, now: int) returns (outcome: Outcome<Error>)
      requires Valid()
      modifies this, rooms
      ensures Valid()
      ensures rooms == old(rooms) && keys == old(keys) && authorizations == old(authorizations)
      ensures persons == old(persons) && users == old(users)
      ensures old(AuthorizationById(authorizationId)).None? ==> outcome == Fail(NotFound)
      ensures old(AuthorizationById(authorizationId)).Some? && old(RoomOfAuthorization(authorizationId)).None? ==> outcome == Fail(MissingReference)
      ensures outcome.Pass? <==> old(RoomOfAuthorization(authorizationId)).Some?
      ensures outcome.Fail? ==> borrowings == old(borrowings)
      ensures outcome.Pass? ==>
        && |borrowings| == |old(borrowings)| + 1
        && borrowings[..|old(borrowings)|] == old(borrowings)
        && fresh(borrowings[|old(borrowings)|])
        && borrowings[|old(borrowings)|].id == MaxId(old(borrowings), BorrowingIdOf()) + 1
        && borrowings[|old(borrowings)|].keyId == keyId
        && borrowings[|old(borrowings)|].authorizationId == authorizationId
        && borrowings[|old(borrowings)|].borrowed == now
        && borrowings[|old(borrowings)|].returned == None
      ensures forall x :: x in rooms ==>
        x.borrowingsCount == old(x.borrowingsCount) + (if outcome.Pass? && old(RoomOfAuthorization(authorizationId)) == Some(x) then 1 else 0)
      ensures forall b :: b in old(borrowings) ==> b.returned == old(b.returned)
      ensures outcome.Pass? && old(AnyOpen(borrowings, keyId)) ==> !OneOpenPerKey()
    {
      var found := AuthorizationById(authorizationId);
      if found.None? {
        return Fail(NotFound);
      }
      var room := RoomById(found.value.roomId);
      if room.None? {
        return Fail(MissingReference);
      }
      ghost var wasOut := AnyOpen(borrowings, keyId);
      ghost var n := |borrowings|;
      var b := new Borrowing(MaxId(borrowings, BorrowingIdOf()) + 1, keyId, authorizationId, now);
      forall i | 0 <= i < n ensures borrowings[i].id < b.id {
        assert BorrowingIdOf()(borrowings[i]) <= MaxId(borrowings, BorrowingIdOf());
      }
      borrowings := borrowings + [b];
      room.value.IncrementBorrowingsCount();
      if wasOut {
        var old' :| old' in borrowings[..n] && old'.keyId == keyId && old'.returned == None;
        var i :| 0 <= i < n && borrowings[i] == old';
        assert borrowings[n] == b;
      }
      return Pass;
    }

    /** `add_borrowing` as the ledger means it: a key that is out is refused,
        so at most one borrowing per key stays open. */
    method AddBorrowingChecked(keyId: nat, authorizationId: nat, now: int) returns (outcome: Outcome<Error>)
      requires Valid() && OneOpenPerKey()
      modifies this, rooms
      ensures Valid() && OneOpenPerKey()
      ensures rooms == old(rooms) && keys == old(keys) && authorizations == old(authorizations)
      ensures persons == old(persons) && users == old(users)
      ensures old(AnyOpen(borrowings, keyId)) ==> outcome == Fail(KeyAlreadyBorrowed)
      ensures !old(AnyOpen(borrowings, keyId)) && old(AuthorizationById(authorizationId)).None? ==> outcome == Fail(NotFound)
      ensures !old(AnyOpen(borrowings, keyId)) && old(AuthorizationById(authorizationId)).Some? && old(RoomOfAuthorization(authorizationId)).None? ==>
                outcome == Fail(MissingReference)
      ensures !old(AnyOpen(borrowings, keyId)) ==> (outcome.Pass? <==> old(RoomOfAuthorization(authorizationId)).Some?)
      ensures outcome.Fail? ==> borrowings == old(borrowings)
      ensures outcome.Pass? ==>
        && |borrowings| == |old(borrowings)| + 1
        && borrowings[..|old(borrowings)|] == old(borrowings)
        && fresh(borrowings[|old(borrowings)|])
        && borrowings[|old(borrowings)|].id == MaxId(old(borrowings), BorrowingIdOf()) + 1
        && borrowings[|old(borrowings)|].keyId == keyId
        && borrowings[|old(borrowings)|].authorizationId == authorizationId
        && borrowings[|old(borrowings)|].borrowed == now
        && borrowings[|old(borrowings)|].returned == None
      ensures forall x :: x in rooms ==>
        x.borrowingsCount == old(x.borrowingsCount) + (if outcome.Pass? && old(RoomOfAuthorization(authorizationId)) == Some(x) then 1 else 0)
      ensures forall b :: b in old(borrowings) ==> b.returned == old(b.returned)
    {
      if AnyOpen(borrowings, keyId) {
        return Fail(KeyAlreadyBorrowed);
      }
      ghost var n := |borrowings|;
      outcome := AddBorrowing(keyId, authorizationId, now);
      if outcome.Pass? {
        forall i, j | 0 <= i < j < |borrowings| && borrowings[i].keyId == borrowings[j].keyId
          ensures borrowings[i].returned != None || borrowings[j].returned != None
        {
          if j == n {
            assert borrowings[i] in old(borrowings);
          } else {
            assert borrowings[i] == old(borrowings)[i] && borrowings[j] == old(borrowings)[j];
          }
        }
      }
    }

    /** `return_key`: closes the borrowing with the given id. */
    method ReturnKey(borrowingId: nat, now: int) returns (outcome: Outcome<Error>)
      requires Valid()
      modifies borrowings
      ensures Valid()
      ensures old(BorrowingById(borrowingId)).None? ==> outcome == Fail(NotFound)
      ensures old(BorrowingById(borrowingId)).Some? && old(BorrowingById(borrowingId).value.returned) != None ==>
                outcome == Fail(AlreadyReturned)
      ensures old(BorrowingById(borrowingId)).Some? && old(BorrowingById(borrowingId).value.returned) == None ==>
                outcome == Pass && BorrowingById(borrowingId).value.returned == Some(now)
      ensures forall b :: b in borrowings && (b.id != borrowingId || outcome.Fail?) ==> b.returned == old(b.returned)
      ensures forall b :: b in OngoingBorrowings() ==> b.id != borrowingId
      ensures old(OneOpenPerKey()) ==> OneOpenPerKey()
    {
      var found := BorrowingById(borrowingId);
      if found.None? {
        return Fail(NotFound);
      }
      outcome := found.value.ReturnKey(now);
      forall b | b in borrowings && b.id == borrowingId ensures b == found.value {
        var i :| 0 <= i < |borrowings| && borrowings[i] == b;
        var j :| 0 <= j < |borrowings| && borrowings[j] == found.value;
        assert i == j;
      }
    }

    // ---- Authorizations and people ----

    /** `add_authorization`: a new authorization, with no check for an
        existing one for the same person and room. */
    method AddAuthorization(personId: nat, roomId: nat, expiration: int, originId: nat, now: int)
      requires Valid()
      modifies this
      ensures Valid()
      ensures rooms == old(rooms) && keys == old(keys) && borrowings == old(borrowings)
      ensures persons == old(persons) && users == old(users)
      ensures |authorizations| == |old(authorizations)| + 1
      ensures authorizations[..|old(authorizations)|] == old(authorizations)
      ensures var a := authorizations[|old(authorizations)|];
        && fresh(a)
        && a.id == MaxId(old(authorizations), AuthorizationIdOf()) + 1
        && a.personId == personId && a.roomId == roomId && a.originId == originId
        && a.expiration == expiration && a.created == now
      ensures expiration > now && RoomExists(roomId) ==>
                authorizations[|old(authorizations)|] in ValidAuthorizationsForRoom(roomId, now)
    {
      var a := new Authorization(MaxId(authorizations, AuthorizationIdOf()) + 1, personId, roomId, now, expiration, originId);
      forall i | 0 <= i < |authorizations| ensures authorizations[i].id < a.id {
        assert AuthorizationIdOf()(authorizations[i]) <= MaxId(authorizations, AuthorizationIdOf());
      }
      authorizations := authorizations + [a];
    }

    /** `invalidate_authorization`: the authorization with the given id
        expires at `now`, so no valid-authorization list at `now` holds it. */
    method InvalidateAuthorization(authorizationId: nat, now: int) returns (outcome: Outcome<Error>)
      requires Valid()
      modifies authorizations
      ensures Valid()
      ensures old(AuthorizationById(authorizationId)).None? <==> outcome == Fail(NotFound)
      ensures old(AuthorizationById(authorizationId)).Some? ==> outcome == Pass
      ensures outcome.Pass? ==> old(AuthorizationById(authorizationId)).value.expiration == now
      ensures forall a :: a in authorizations && (a.id != authorizationId || outcome.Fail?) ==> a.expiration == old(a.expiration)
      ensures forall roomId: nat, a :: a in ValidAuthorizationsForRoom(roomId, now) ==> a.id != authorizationId
    {
      var found := AuthorizationById(authorizationId);
      if found.None? {
        return Fail(NotFound);
      }
      found.value.Invalidate(now);
      forall a | a in authorizations && a.id == authorizationId ensures a == found.value {
        var i :| 0 <= i < |authorizations| && authorizations[i] == a;
        var j :| 0 <= j < |authorizations| && authorizations[j] == found.value;
        assert i == j;
      }
      return Pass;
    }

    /** `add_person`: a new person, who a search for their full name finds. */
    method AddPerson(firstname: string, surname: string, workplaceId: Option<nat>, now: int)
      requires Valid()
      modifies this
      ensures Valid()
      ensures rooms == old(rooms) && keys == old(keys) && authorizations == old(authorizations)
      ensures borrowings == old(borrowings) && users == old(users)
      ensures persons == old(persons) + [Person(MaxId(old(persons), PersonIdOf()) + 1, firstname, surname, workplaceId, now)]
      ensures ' ' !in firstname && ' ' !in surname ==>
                persons[|persons| - 1] in SearchAuthorizedPersons(firstname + " " + surname)
    {
      var p := Person(MaxId(persons, PersonIdOf()) + 1, firstname, surname, workplaceId, now);
      forall i | 0 <= i < |persons| ensures persons[i].id < p.id {
        assert PersonIdOf()(persons[i]) <= MaxId(persons, PersonIdOf());
      }
      persons := persons + [p];
      if ' ' !in firstname && ' ' !in surname {
        FullNameFindsPerson(p);
      }
    }

    /** `update_person`: the given columns of the person with the given id
        change; the other columns and the other people stay as they were, and
        an id no person has changes nothing. */
    method UpdatePerson(personId: nat, firstname: Option<string>, surname: Option<string>, workplaceId: Option<Option<nat>>)
      requires Valid()
      modifies this
      ensures Valid()
      ensures rooms == old(rooms) && keys == old(keys) && authorizations == old(authorizations)
      ensures borrowings == old(borrowings) && users == old(users)
      ensures |persons| == |old(persons)|
      ensures forall i :: 0 <= i < |persons| && old(persons[i]).id != personId ==> persons[i] == old(persons[i])
      ensures forall i :: 0 <= i < |persons| && old(persons[i]).id == personId ==>
                && persons[i].id == personId
                && persons[i].created == old(persons[i]).created
                && persons[i].firstname == (if firstname.Some? then firstname.value else old(persons[i]).firstname)
                && persons[i].surname == (if surname.Some? then surname.value else old(persons[i]).surname)
                && persons[i].workplaceId == (if workplaceId.Some? then workplaceId.value else old(persons[i]).workplaceId)
    {
      var ps := persons;
      persons := seq(|ps|, i requires 0 <= i < |ps| =>
        if ps[i].id != personId then ps[i]
        else ps[i].(firstname := if firstname.Some? then firstname.value else ps[i].firstname,
                    surname := if surname.Some? then surname.value else ps[i].surname,
                    workplaceId := if workplaceId.Some? then workplaceId.value else ps[i].workplaceId));
    }

    // ---- Users ----

    /** `add_user`: a new user holding the digest of the password; a taken
        username is refused. */
    method AddUser(username: string, password: string, isSuperuser: bool) returns (outcome: Outcome<Error>)
      requires Valid()
      modifies this
      ensures Valid()
      ensures rooms == old(rooms) && keys == old(keys) && authorizations == old(authorizations)
      ensures borrowings == old(borrowings) && persons == old(persons)
      ensures old(UserByUsername(username)).Some? ==> outcome == Fail(DuplicateUsername) && users == old(users)
      ensures old(UserByUsername(username)).None? ==>
                outcome == Pass && users == old(users) + [User(MaxId(old(users), UserIdOf()) + 1, username, hash(password), isSuperuser)]
      ensures outcome.Pass? ==> UserByUsername(username) == Some(users[|users| - 1])
      ensures outcome.Pass? ==> users[|users| - 1].CheckPassword(hash, password)
    {
      if UserByUsername(username).Some? {
        return Fail(DuplicateUsername);
      }
      var u := User(MaxId(users, UserIdOf()) + 1, username, hash(password), isSuperuser);
      forall i | 0 <= i < |users| ensures users[i].id < u.id && users[i].username != username {
        assert UserIdOf()(users[i]) <= MaxId(users, UserIdOf());
        assert users[i] in users;
      }
      users := users + [u];
      assert FindFirst(users, UserNamed(username)) == Some(u) by {
        FindFirstUnique(users, UserNamed(username), u);
      }
      return Pass;
    }

    // ---- Export ----

    /** The export row of a borrowing, or `None` where one of `borrowing.key`,
        `borrowing.authorization` or `authorization.person` is missing. */
    function RowOf(b: Borrowing, formatDate: int -> string, formatTime: int -> string): (r: Option<seq<string>>)
      reads this, b
      ensures r.Some? ==> |r.value| == 6
    {
      match (KeyById(b.keyId), AuthorizationById(b.authorizationId))
      case (Some(k), Some(a)) =>
        (match PersonById(a.personId)
         case Some(p) => Some(ExportRow(formatDate, formatTime, b.borrowed, b.returned, k, p))
         case None => None)
      case _ => None
    }

    /** `excel_dump`: one row per borrowing, in table order. */
    method ExcelDump(formatDate: int -> string, formatTime: int -> string) returns (result: Result<seq<seq<string>>, Error>)
      requires NeverEmpty(formatDate) && NeverEmpty(formatTime)
      ensures result.Success? <==> forall b :: b in borrowings ==> RowOf(b, formatDate, formatTime).Some?
      ensures result.Failure? ==> result.error == MissingReference
      ensures result.Success? ==> |result.value| == |borrowings|
      ensures result.Success? ==> forall i :: 0 <= i < |borrowings| ==> RowOf(borrowings[i], formatDate, formatTime) == Some(result.value[i])
      ensures result.Success? ==> forall i :: 0 <= i < |borrowings| ==>
                |result.value[i]| == 6 &&
                (result.value[i][4] == "" <==> borrowings[i].returned == None) &&
                (result.value[i][5] == "" <==> borrowings[i].returned == None)
    {
      var data: seq<seq<string>> := [];
      var i := 0;
      while i < |borrowings|
        invariant 0 <= i <= |borrowings|
        invariant |data| == i
        invariant forall j :: 0 <= j < i ==> RowOf(borrowings[j], formatDate, formatTime) == Some(data[j])
      {
        var row := RowOf(borrowings[i], formatDate, formatTime);
        if row.None? {
          return Failure(MissingReference);
        }
        data := data + [row.value];
        i := i + 1;
      }
      forall j | 0 <= j < |borrowings|
        ensures (data[j][4] == "" <==> borrowings[j].returned == None) && (data[j][5] == "" <==> borrowings[j].returned == None)
      {
        var b := borrowings[j];
        var k := KeyById(b.keyId).value;
        var a := AuthorizationById(b.authorizationId).value;
        var p := PersonById(a.personId).value;
        ReturnFieldsEmptyIffOpen(formatDate, formatTime, b.borrowed, b.returned, k, p);
      }
      return Success(data);
    }
  }
}
