# Key-loan ledger, modelled in Dafny

The system is a porter's-desk application for lending the keys of a
university building. People are authorized to borrow the keys of rooms. A
loan (a *borrowing*) stays open until the key comes back. Each room counts
how often its keys have been lent, and that count puts the most-used rooms
first. The store behind it is the class `Db` in `db_interface.py`, over the
SQLAlchemy entities of `unused_models.py`. This project models that store
and the small validator `is_integer` from `utils/utils.py`.

The model is organised as follows:

- `wrappers.dfy`: `Option`, `Outcome` and `Result`.
- `utils.dfy` (module `Utils`): Python's base-10 `int()` grammar, `str()` of
  an integer, and `is_integer`. This includes `is_integer("-0")`, which holds.
- `text.dfy` (module `Text`):
  - `str.split(" ")` and `" ".join`;
  - the SQL `LIKE` prefix and substring tests, taken literally;
  - the one- or two-word name match of the searches.
- `sorting.dfy` (module `Sorting`):
  - a filter;
  - a stable sort keyed by integer sequences compared lexicographically,
    which stands for both `ORDER BY` and Python's `sorted`;
  - "first row of each group", which stands for `GROUP BY`.
- `models.dfy` (module `Models`): the entities.
  - A column that an entity's own method changes is a `var` of a class:
    `Borrowing.returned`, `Room.borrowingsCount` and
    `Authorization.expiration`.
  - Every other column is a `const`.
  - Keys, people and users are values.
- `ledger.dfy` (module `Ledger`): class `Db`, with one `seq` field per table
  and the uniqueness of ids, room names and usernames as its invariant
  `Valid()`.
  - Every query is a function of the tables.
  - Every write is a method that states its complete new state.
  - The current time is an integer parameter `now`.
  - The password digest `hash_func` is an uninterpreted function given to
    the constructor.
  - Date and time rendering are function parameters of `ExcelDump`.
- `scenario.dfy` (module `Scenario`): one key lent, returned, and returned
  again.

Orders that SQL leaves open (ties under `ORDER BY`) are fixed to table order.
The sort is stable, so every contract holds for the rows in whatever order
ties come, with one exception. The clause of `Ledger.Db.ValidAuthorizationsForRoom`
that keeps tied authorizations in table order holds only because the model
fixes that order.

Where the documented design and the code differ, the model follows the code:

- `add_borrowing` does not refuse a key that is already out. See Findings.
- A name search with more than two words returns an empty list rather than
  raising.
- The expression is cut at single spaces, not at any whitespace.
- `get_available_rooms_by_floor` treats a room as taken when a key of any
  class is out. Its `only_ordinary` flag only decides which kind of key the
  room must have.

## Model

| member | source | states |
|---|---|---|
| Utils.IsInteger | utils/utils.py:13-20 | `is_integer(s)`: `int(s)` accepts `s` and the value is not negative. `Utils.IsIntegerOfIntToString` and `Utils.IsIntegerShape` state what that means |
| Utils.IsIntegerOfIntToString | utils/utils.py:13-20 | `is_integer(str(n))` holds exactly when `n >= 0` |
| Utils.ParseIntToString | utils/utils.py:15 | `int(str(n)) == n` for every integer `n` |
| Utils.IsIntegerShape | utils/utils.py:13-20 | an accepted string holds a digit, and a minus sign in it means the value is 0 |
| Utils.AcceptsPositive | testing/unit_testing.py:8-9 | `is_integer("123")` is true |
| Utils.RejectsNegative | testing/unit_testing.py:11-12 | `is_integer("-123")` is false |
| Utils.RejectsLetters | testing/unit_testing.py:14-15 | `is_integer("abc")` is false |
| Utils.AcceptsZero | utils/utils.py:13-20 | `is_integer("0")` is true |
| Utils.AcceptsMinusZero | utils/utils.py:13-20 | `is_integer("-0")` is true: it parses, and its value is not negative |
| Text.Split | db_interface.py:205 | `expression.split(" ")`: at least one word, and no word holds a space. `Text.JoinSplit` and `Text.SplitJoin` tie it to joining with single spaces |
| Text.JoinSplit | db_interface.py:323 | joining the words of `split(" ")` with single spaces gives the expression back |
| Text.SplitJoin | db_interface.py:323 | splitting space-free words joined by single spaces gives the words back |
| Text.FullNameSearchFinds | db_interface.py:330-339 | a search for "first last" or "last first" matches that person |
| Text.ThreeWordsFindNobody | db_interface.py:340-341 | three or more words match nobody in the plain searches and filter nothing in the prioritized one |
| Sorting.SortByPermutes | db_interface.py:175 | sorting yields a permutation of its input |
| Sorting.SortBySorted | db_interface.py:175 | sorting yields rows in non-decreasing key order |
| Sorting.SortByStable | db_interface.py:175 | rows with equal keys keep their relative order (Python's `sorted` is stable) |
| Sorting.FirstOfEachGroupCovers | db_interface.py:183 | `GROUP BY` leaves a row for every group present |
| Sorting.FirstOfEachGroupDistinct | db_interface.py:183 | `GROUP BY` leaves one row per group |
| Models.Borrowing.constructor | unused_models.py:24-33 | a new borrowing is open (`returned` unset) |
| Models.Borrowing.ReturnKey | unused_models.py:35-38 | an open borrowing is closed at `now`; a closed one is refused and left unchanged, so a second return always fails |
| Models.Room.IncrementBorrowingsCount | unused_models.py:94-97 | the count becomes old + 1, so it is at least 1 afterwards |
| Models.Authorization.Invalidate | unused_models.py:174-181 | the expiry becomes `now`, so `is_valid` at `now` is false; the new state ignores the old expiry, so invalidating twice equals invalidating once |
| Models.Authorization.IsValid | unused_models.py:177-181 | valid exactly while the expiry is after `now`. `Models.Authorization.Invalidate` makes it false at `now` |
| Models.Person.FullName | unused_models.py:137-138 | the full name is the first name, one space, and the surname |
| Models.FullNameFindsPerson | unused_models.py:137-138 | a full name splits back into the two names, and searching for it finds the person |
| Models.User.CheckPassword | unused_models.py:206-210 | the candidate is right exactly when its digest equals the stored digest. `Ledger.Db.AddUser` proves it accepts the password the user was added with |
| Ledger.Db.Valid | unused_models.py:72-73 | the ledger's invariant: ids are unique in every table (the primary keys), room names are unique, and usernames are unique (unused_models.py:202). The constructor establishes it, and every write (`AddBorrowing`, `AddBorrowingChecked`, `ReturnKey`, `AddAuthorization`, `InvalidateAuthorization`, `AddPerson`, `UpdatePerson`, `AddUser`) ensures it again |
| Ledger.AnyOpen | unused_models.py:55-59 | true exactly when some borrowing of the key has `returned` unset |
| Ledger.Db.KeyIsBorrowed | unused_models.py:55-59 | `Key.is_borrowed`: true exactly when one of the key's borrowings is open |
| Ledger.Db.OrdinaryKey | unused_models.py:83-86 | the first class-0 key of the room in table order, or None exactly when the room has no class-0 key |
| Ledger.Db.BorrowableKey | unused_models.py:88-92 | the first class-0 key of the room that is not out, or None exactly when every class-0 key of the room is out |
| Ledger.Db.AllFloors | db_interface.py:103-105 | strictly ascending, and it holds a floor exactly when some room is on it |
| Ledger.Db.RoomsByFloor | db_interface.py:110-112 | exactly the rooms on the floor, each once, with the count non-increasing |
| Ledger.Db.BorrowableKeysByFloor | db_interface.py:117-125 | exactly the keys not out whose room is on the floor (class 0 only when asked), each once, with the room's count non-increasing |
| Ledger.Db.KeyCountOrder | db_interface.py:121 | keys sorted by their room's count have the counts of their rooms non-increasing |
| Ledger.Db.AvailableRoomsByFloor | db_interface.py:127-136 | exactly the floor's rooms with no key of any class out and with a key (a class-0 one when asked), each once, most used first |
| Ledger.Db.RoomsAvailabilityByFloor | db_interface.py:139-153 | "unavailable" is exactly the floor's rooms with a key out (class 0 only when asked). "available" is exactly the others that have such a key. The lists are disjoint, each is duplicate-free and each is most used first |
| Ledger.Db.SearchRoomsAvailabilityByFloor | db_interface.py:155-169 | the same partition, restricted to rooms whose name contains the expression |
| Ledger.Db.ValidRows | db_interface.py:172-174 | exactly the authorizations of an existing room with that id whose expiry is after `now` |
| Ledger.Db.ValidAuthorizationsForRoom | db_interface.py:171-175 | exactly the valid authorizations of the room, each once, ordered by number of borrowings ascending; authorizations with equal numbers keep their table order |
| Ledger.Db.Candidates | db_interface.py:180-181 | the valid authorizations of the room that join an existing person |
| Ledger.RankedFacts | db_interface.py:177-194 | the grouped ranking keeps only candidate rows, leaves one row per person and a row for every person, and is sorted by the rank key |
| Ledger.Db.RankOrder | db_interface.py:178-179 | the rank key orders by the person's borrowing count, then `origin_id`, then expiry, all descending |
| Ledger.Db.PrioritizedAuthorizationsForRoom | db_interface.py:177-194 | only valid authorizations of the room joined to a person; every such person is represented, at most once; each row ranks at least as high as every later row |
| Ledger.GroupUsesFilter | db_interface.py:183 | a filter that keeps all of a person's rows leaves that person's group count unchanged |
| Ledger.SearchIsFilter | db_interface.py:196-224 | ranking after a per-person filter equals filtering the ranking |
| Ledger.Db.SearchPrioritizedAuthorizationsForRoom | db_interface.py:196-224 | the prioritized list restricted to the people whose names match; more than two words leave it whole |
| Ledger.Db.ManyWordsKeepAll | db_interface.py:205-221 | with more than two words the name filter keeps every row |
| Ledger.Db.SearchAuthorizations | db_interface.py:322-343 | exactly the authorizations whose person matches the words, each once, ordered by surname; more than two words give [] |
| Ledger.Db.SurnameOrder | db_interface.py:343 | authorizations sorted by their person's surname have those surnames in order |
| Ledger.Db.SearchAuthorizedPersons | db_interface.py:345-366 | exactly the people matching the words, each once, ordered by surname; more than two words give [] |
| Ledger.Db.SearchRooms | db_interface.py:368-372 | as written: the rooms whose name contains the expression, ordered by name, on the given floor unless the floor is missing or 0 |
| Ledger.Db.SearchRoomsGroundFloorIgnored | db_interface.py:370-371 | a matching room on any floor but 0 is returned by a search for floor 0, and the corrected search does not return it |
| Ledger.Db.SearchRoomsOnFloor | db_interface.py:368-372 | corrected: exactly the rooms whose name contains the expression and that are on the given floor (any floor when none is given), each once, ordered by name |
| Ledger.Db.OngoingBorrowings | db_interface.py:241-242 | exactly the open borrowings, each once, oldest first |
| Ledger.Db.UserByUsername | db_interface.py:281-283 | a user with that username, or None exactly when there is none |
| Ledger.Db.AuthorizationById | db_interface.py:232 | `.one()`: the authorization with the id, or None exactly when no authorization has it |
| Ledger.Db.BorrowingById | db_interface.py:237 | `.one()`: the borrowing with the id, or None exactly when no borrowing has it |
| Ledger.Db.RoomOfAuthorization | db_interface.py:233 | `authorization.room`: the room whose id is the authorization's room id. It is None exactly when no authorization has the id or no room has that room id |
| Ledger.Db.AddBorrowing | db_interface.py:229-234 | NotFound for an unknown authorization and MissingReference for a missing room, both leaving everything unchanged. Otherwise it appends one fresh open borrowing and raises the count of that one room by exactly 1. Lending a key that is out leaves two open borrowings of it |
| Ledger.Db.AddBorrowingChecked | db_interface.py:229-234 | corrected: a key that is out is refused with KeyAlreadyBorrowed, so at most one borrowing per key stays open. Otherwise it behaves like `add_borrowing`: NotFound for an unknown authorization, MissingReference for a missing room, and otherwise one fresh open borrowing with the next id |
| Ledger.Db.ReturnKey | db_interface.py:236-239 | NotFound or AlreadyReturned, changing nothing. Otherwise the borrowing is closed at `now` and no other changes. Afterwards the borrowing is not among the ongoing ones, and at most one open borrowing per key is preserved |
| Ledger.Db.AddAuthorization | db_interface.py:286-294 | appends one fresh authorization with the given columns and a new id; if it expires after `now` it is among the room's valid authorizations |
| Ledger.Db.InvalidateAuthorization | db_interface.py:296-299 | NotFound exactly for an unknown id. Otherwise it passes, and that authorization expires at `now` whatever its expiry was, with no other changes. Afterwards no valid-authorization list at `now` holds it |
| Ledger.Db.AddPerson | db_interface.py:305-312 | appends the person with a new id; with space-free names, a search for the full name finds them |
| Ledger.Db.UpdatePerson | db_interface.py:314-320 | only the given columns of the person with that id change; other people are untouched, and an unknown id changes nothing |
| Ledger.Db.AddUser | db_interface.py:272-279 | a taken username gives DuplicateUsername and no change. Otherwise the user is appended with the password's digest; looking up the username finds them and `check_password` accepts the password |
| Ledger.ExportRow | db_interface.py:250-265 | six fields: borrowed date and time, registration number, full name, and return date and time or two empty fields |
| Ledger.RegistrationNumberReadsBack | db_interface.py:253 | the registration-number field reads back with `int()` as the key's number |
| Ledger.ReturnFieldsEmptyIffOpen | db_interface.py:256-265 | the last two fields are empty exactly when the borrowing is open |
| Ledger.Db.ExcelDump | db_interface.py:245-269 | succeeds exactly when every borrowing reaches its key, authorization and person. It gives one six-field row per borrowing in table order, whose last two fields are empty exactly when the borrowing is open |
| Scenario.LoanCycle | db_interface.py:127-136 | lending a room's key takes the room off the available list and puts the loan on the ongoing list. Returning the key reverses both. A second return is refused |

## Left out

- Sessions, the engine and commits (`__init__`, `new_session`, `commit_session`) and `get_db_connection`: the store is in-memory tables, and each method is one atomic step.
- Ledger.Db.AddBorrowing: when the lookup fails, the source has already added the borrowing to the session, and a later commit could write it. The model changes nothing on failure.
- Ledger.Db.UpdatePerson: the source passes any keyword columns to `UPDATE`, including `id` and `created`. The model updates only the first name, surname and workplace. A call with no columns is not modelled.
- Ledger.Db.PrioritizedAuthorizationsForRoom:
  - SQLite picks an unspecified row of each person's group. The model takes the person's first valid authorization in table order.
  - The query has no `ORDER BY`, so the model takes the window's order as the output order.
  - The rank number itself is discarded by the source and not modelled.
- Ledger.Db.ExcelDump: `strftime` is abstract. The formatters are parameters and are required never to yield an empty string.
- SQL `LIKE`: SQLite's ASCII case folding and the `%`/`_` wildcards inside the user's expression are not modelled. Matching is literal and case-sensitive.
- Name length limits (`String(8)`, `String(64)`) are not enforced.
- Foreign keys are not enforced, as in SQLite by default. A NULL `person_id` is modelled as an id that no person has.
- `key_class` is nullable. A NULL class is neither ordinary nor filtered in.
- Utils.IsInteger: only string arguments are modelled. The source also receives JSON values (resources.py:122, 170). For a float, `int()` truncates, so 2020.9 and -0.5 are accepted. For `None`, `int()` raises a TypeError that escapes, because only ValueError is caught.
- Utils.IsInteger: only all-ASCII strings are modelled. For a string with a non-ASCII character, CPython first maps Unicode digits to ASCII digits and Unicode whitespace, including the separators 28..31, to spaces. The limit on digit count in `int()` is not modelled either.
- `get_all_rooms`, `get_all_keys` and `get_all_authorized_persons` are plain reads of one table and are not modelled.
- `get_all_authorizations` reads the authorizations with `origin_id` 1. It is not modelled.
- `get_all_authorizations_screen` is a display projection and is not modelled.
- `invalidate_authorization_obj` is `Models.Authorization.Invalidate` on an object the caller already holds.
- Users are not looked up and checked by one operation. `get_user_by_username` and `User.check_password` are separate, and so are `Ledger.Db.UserByUsername` and `Models.User.CheckPassword`.

## Findings

| source | as written | input that shows it | evidently intended | confidence | as-written member | corrected member |
|---|---|---|---|---|---|---|
| db_interface.py:370-371 | `if floor:` drops the floor filter when the floor is 0 | `search_rooms(e, floor=0)` with a room on floor 2 whose name contains `e`: the room is returned | filter by floor whenever a floor is given, including the ground floor 0 that `get_all_floors` can list | not executed; medium | Ledger.Db.SearchRooms, Ledger.Db.SearchRoomsGroundFloorIgnored | Ledger.Db.SearchRoomsOnFloor |
| db_interface.py:229-234 | `add_borrowing` opens a loan without looking for an open loan of the same key | key K with an open borrowing; `add_borrowing(K, A)` succeeds, and K has two open borrowings | refuse a key that is out, so a key has at most one open borrowing | not executed; medium | Ledger.Db.AddBorrowing | Ledger.Db.AddBorrowingChecked |
