# Fitness studio booking store — a Dafny model

This project models the booking core of a small fitness-studio web service.
Clients list the classes that still have free places. They book a place in
a class and list what they have booked. The service keeps two SQLite
tables, `classes` and `bookings`, behind one shared connection.

What is modelled:

- **The tables** (`db.dfy`, module `Db`). Both tables are sequences of rows
  in row-id order. The AUTOINCREMENT counters are `lastClassId` and
  `lastBookingId`. `Invariant` collects the integrity rules the schema
  declares and the code keeps:
  - unique, increasing ids, never above their counter;
  - `available_slots >= 0`;
  - every booking refers to a stored class, under a lower-case e-mail;
  - `UNIQUE(class_id, client_email)`.

  Each SQL write is a pure function on a `Tables` snapshot (`AddClass`,
  `TakeSlot`, `AddBooking`, `InsertClasses`, `Seed`). The shared connection
  is the class `Store`. Its methods update its fields in place and are
  proved against those functions, keeping `Valid()`. Start-up is the
  constructor (an empty database file) followed by `SeedIfEmpty`.
- **Creating a booking** (`bookings.dfy`, module `Bookings`). `Create` is
  one create request as one atomic step, with the source's order of checks:
  unknown class (404), then no free place (400), then an existing booking
  under the lower-cased e-mail (409). Then it takes one place and inserts
  the booking. `Post` runs the same steps imperatively against a `Store`
  and is proved equal to `Create`.
- **Listing a client's bookings** (`ListBookings`, `JoinByEmail`). The
  handler rejects a missing e-mail, then lowers the e-mail. It then checks
  the zone and runs the e-mail validator on the lowered e-mail. Last, it
  runs an inner join filtered on that e-mail and answers 404 when the join
  is empty.
- **Listing classes** (`classes.dfy`, module `Classes`). The handler keeps
  the classes with `available_slots > 0` and copies every field except the
  start time, which is rendered in the requested zone. An unknown zone is
  an error instead of a list (its status code is discussed under `Status`
  in "Left out"). An empty list is a success.
- **Several requests** (`laws.dfy`, module `BookingLaws`). These lemmas
  cover a sequence of creates run one after another:
  - free places plus bookings is conserved for every class;
  - the invariant holds throughout;
  - K free places and N different new clients give exactly min(N, K)
    successes;
  - re-booking fails;
  - creating and then listing shows the new booking.

Parameters instead of foreign code:

- `validate_timezone` and `convert_timezone` are the two functions of a
  `Zones` value (`utils.dfy`).
- `validate_email` is an `emailValid: string -> bool` parameter.
- The clock value `booked_at` is a parameter of `Create` and `Post`.
- The seeding time ("now + 10 days") is a parameter of `Seed`.

Facts about the code that the model keeps:

- Re-booking a class that has since filled answers NoSlots, not
  AlreadyBooked. The capacity check
  (fitness_studio/resources/bookings.py:123-127) comes before the
  duplicate check (fitness_studio/resources/bookings.py:130-137); see
  `BookingLaws.RebookingFails`.
- The create reply (fitness_studio/resources/bookings.py:163-168) has no
  `booked_at` field (`BookingReply`).
- Listing bookings checks the zone
  (fitness_studio/resources/bookings.py:44) before the e-mail validator
  (fitness_studio/resources/bookings.py:45-48); see
  `Bookings.ListBookings`.
- Run one after another, a create reaches the INSERT
  (fitness_studio/resources/bookings.py:148-159) only after the pre-check
  (fitness_studio/resources/bookings.py:130-137) found no row for the
  (class, e-mail) pair, so the INSERT never meets the UNIQUE constraint.
  The model makes the constraint a precondition of `Store.InsertBooking`,
  discharged by that pre-check. Creates that interleave on the shared
  connection are another matter; see "Concurrency" under "Left out".

`client_email TEXT NOT NULL` holds by typing: a Dafny `string` cannot be
null. The foreign key on `class_id` is kept by `Invariant`. SQLite does not
enforce it unless asked, but the existence check on the create path is
what keeps it true.

## Model

| member | source | states |
|---|---|---|
| `Text.ToLower` | fitness_studio/resources/bookings.py:128 | lower-casing keeps the length and leaves no upper-case letter |
| `Text.ToLowerIdempotent` | fitness_studio/resources/bookings.py:42 | an e-mail stored lower-cased is found again by lower-casing the query |
| `Text.SameLowerIffCaseVariants` | fitness_studio/resources/bookings.py:128-137 | two e-mails collide exactly when they agree letter by letter up to case |
| `Db.FindClass` | fitness_studio/resources/bookings.py:109-115 | the lookup by id returns a row carrying that id, or none exactly when no row has it |
| `Db.FindClassExact` | db.py:16 | with primary-key ids, the lookup finds the one row with the id |
| `Db.InsertClasses` | db.py:66-73 | the bulk insert keeps the existing rows, appends one row per sample in order with ids counting up from the class counter and the sample's fields, advances the counter by that many and leaves bookings alone |
| `Db.TakeSlotEffect` | fitness_studio/resources/bookings.py:139-145 | the slot UPDATE lowers the booked class's free places by one and changes no other class or booking |
| `Db.AddClassKeepsInvariant` | db.py:15-21 | inserting a class with a non-negative capacity keeps every integrity rule |
| `Db.InsertClassesKeepsInvariant` | db.py:64-73 | the sample inserts keep every integrity rule |
| `Db.TakeSlotKeepsInvariant` | fitness_studio/resources/bookings.py:123-145 | taking a place from a class that has one keeps the free places non-negative and every other rule |
| `Db.AddBookingKeepsInvariant` | db.py:23-31 | a booking for a stored class, with a lower-case e-mail and a fresh (class, e-mail) pair, keeps unique ids, the foreign key and UNIQUE(class_id, client_email) |
| `Db.SeedIdempotent` | db.py:63-73 | seeding a second time, at any later time, changes nothing |
| `Db.SeedFromEmpty` | db.py:42-73 | seeding an empty table stores Yoga/Rahul, Zumba/Nidhi and HIIT/Mohit with consecutive new ids and 10 free places each |
| `Db.SeedKeepsInvariant` | db.py:63-73 | seeding keeps every integrity rule |
| `Db.Store.constructor` | db.py:9-33 | a new database has two empty tables and satisfies the rules |
| `Db.Store.InsertClass` | db.py:66-73 | the class INSERT appends one row with the next id and returns that id |
| `Db.Store.SeedIfEmpty` | db.py:63-73 | counts the classes and, only when there are none, inserts the three samples one by one |
| `Db.Store.ReserveSlot` | fitness_studio/resources/bookings.py:139-145 | the UPDATE statement in place, keeping the rules |
| `Db.Store.InsertBooking` | fitness_studio/resources/bookings.py:148-160 | the booking INSERT appends one row with the next id and returns it as `lastrowid` |
| `Classes.Available` | resources/classes.py:35-51 | every class with a free place and nothing else, each copied field for field with only its start time converted |
| `Classes.ListClasses` | resources/classes.py:32-53 | an unknown zone gives an error instead of a list; otherwise the result holds every class with a free place and no other, and may be empty |
| `Classes.AvailableCount` | resources/classes.py:35-51 | the list has one entry per stored class with a free place |
| `Classes.ListClassesCount` | resources/classes.py:39-51 | with a known zone the listing succeeds and its length is the number of classes with a free place |
| `Bookings.Create` | fitness_studio/resources/bookings.py:104-168 | 404 exactly for an unknown class, 400 exactly for a full class (checked before duplicates), 409 exactly for an existing lower-cased (class, e-mail) booking; every failure leaves the tables unchanged |
| `Bookings.CreateSuccess` | fitness_studio/resources/bookings.py:139-168 | on success the class loses one place, other classes are unchanged, one booking row is appended with the lower-cased e-mail and the given time, and the reply echoes the request as sent with the new fresh id, name and instructor |
| `Api.Status` | fitness_studio/utils/utils.py:16-19 | every error is answered with 400, 404, 409 or 500, and 500 exactly for an unknown zone |
| `Bookings.CreateErrorStatus` | fitness_studio/resources/bookings.py:109-137 | a failed create is answered 404 for an unknown class, else 400 for a full class, else 409 |
| `Bookings.ListBookingsErrorStatus` | fitness_studio/resources/bookings.py:40-66 | a failed listing is answered 400 for a missing e-mail, 500 for an unknown zone, 400 for a rejected e-mail and 404 for an empty join |
| `Bookings.CreateKeepsInvariant` | fitness_studio/resources/bookings.py:106-159 | a create keeps every integrity rule, so slots never go negative and (class, e-mail) pairs stay unique |
| `Bookings.Post` | fitness_studio/resources/bookings.py:104-168 | the imperative handler on the shared connection has exactly the effect and reply of `Create` |
| `Bookings.JoinByEmail` | fitness_studio/resources/bookings.py:52-80 | one entry for each booking under the e-mail whose class is stored, nothing else, ids increasing |
| `Bookings.ListBookings` | fitness_studio/resources/bookings.py:37-82 | an error for a missing e-mail, then (after lower-casing) an unknown zone, then a rejected e-mail; 404 exactly when no booking matches; success exactly when all checks pass and some booking matches, and then exactly the client's bookings joined with their classes |
| `BookingLaws.CreateConservesCapacity` | fitness_studio/resources/bookings.py:139-159 | one create keeps free places plus bookings constant for every class |
| `BookingLaws.CapacityConserved` | fitness_studio/resources/bookings.py:139-159 | over any sequence of creates, each class's free places plus its bookings stays equal to its starting capacity |
| `BookingLaws.ApplyKeepsInvariant` | fitness_studio/resources/bookings.py:123-159 | any sequence of creates keeps the rules; no class ever has negative free places |
| `BookingLaws.ExactlyKSucceed` | fitness_studio/resources/bookings.py:123-145 | N different new clients against K free places: exactly min(N, K) succeed, the rest are told NoSlots |
| `BookingLaws.RebookingFails` | fitness_studio/resources/bookings.py:123-137 | after a successful booking, the same class and e-mail in any case fails without change: AlreadyBooked while places remain, NoSlots once full |
| `BookingLaws.JoinedAfterCreate` | fitness_studio/resources/bookings.py:52-61 | after a create the e-mail join keeps the earlier rows plus the new booking |
| `BookingLaws.CreateThenList` | fitness_studio/resources/bookings.py:49-80 | after a successful create, listing that e-mail succeeds and shows the new booking |
| `BookingLaws.FirstBookingListsOnce` | fitness_studio/resources/bookings.py:62-80 | a client with no bookings who books once then lists exactly one entry |

## Left out

- Concurrency: the connection (db.py:9) is shared across threads, and
  creates handled at the same time can interleave. `with connection:`
  (fitness_studio/resources/bookings.py:106) only commits or rolls back at
  the end. Python's sqlite3 opens a transaction implicitly before the
  first INSERT, UPDATE, DELETE or REPLACE, so the class lookup (109-114)
  and the duplicate pre-check (130-135) run before it. Two interleaved
  creates can therefore both pass the duplicate check, and the second
  INSERT then fails on the UNIQUE constraint with an integrity error. Two
  interleaved creates for a class's last place can also both read one
  free place and pass the check at 123. The UPDATE (139-145) has no
  `available_slots > 0` guard, so both run and leave the class at -1.
  The model runs each create as one atomic step. So
  `Bookings.CreateKeepsInvariant`, `BookingLaws.ApplyKeepsInvariant` and
  the other `BookingLaws` lemmas hold only for creates run one after
  another.
- SQLite I/O itself is not modelled: commit, cursor handling, and the
  files that persist across restarts. A restart is modelled as
  `SeedIfEmpty` on whatever tables exist.
- HTTP plumbing is not modelled: routing, schema (de)serialisation and the
  `abort` messages. Errors are `Api.ApiError` values, and `Api.Status`
  gives their status codes.
- Api.Status: an unknown zone is given 500, not the 400 the
  `validate_timezone` docstring promises. The function
  (fitness_studio/utils/utils.py:16-19) calls Flask's own `abort` with a
  `message=` keyword, which the Bad Request exception does not accept, so
  the request ends in an internal error. This follows from the code of
  Flask's `abort` and of werkzeug's `HTTPException.__init__`, which takes
  only `description` and `response`. The error paths of `Classes.ListClasses` and
  `Bookings.ListBookings` state only that an error replaces the list.
- The marshmallow schemas are not modelled. That includes the
  `fields.Email` check on the create body, so `Create` takes the request
  as already validated. It also includes the listing query's schema
  (fitness_studio/schemas/schemas.py:61-63), which requires `email` and
  checks it as an e-mail before the handler runs. So the 400 answers
  stated for `Bookings.ListBookings` and `Bookings.ListBookingsErrorStatus`
  are the handler's own answers; such a request is normally rejected
  earlier, by the schema layer.
- Bookings.Create: class ids are unbounded integers. SQLite's INTEGER is
  64 bits wide, so binding a `class_id` outside that range in the SELECT
  (fitness_studio/resources/bookings.py:109-113) makes the driver raise
  and the request end in an internal error. For such an id the model
  answers `ClassNotFound` instead.
- Timezone validation and conversion (pytz, ISO parsing, DST) are
  abstract functions of a `Zones` value. E-mail validation is an abstract
  predicate.
- The wall clock is not modelled: `booked_at` and the seeding time are
  parameters.
- Text.ToLower: lowers only the ASCII letters A–Z, not the full Unicode
  case mapping of `str.lower()`.
- The SQL result order of the unordered SELECTs is not modelled. The model
  returns rows in table (row-id) order.
