/**
 * The two tables of the studio database and their integrity rules.
 *
 * `classes(id, name, datetime, instructor, available_slots)` and
 * `bookings(id, class_id, client_name, client_email, booked_at)` are kept
 * as sequences of rows in row-id order. Both ids are AUTOINCREMENT keys:
 * `lastClassId` and `lastBookingId` are the largest ids ever handed out,
 * and the next row gets that number plus one.
 */
module Db {
  import opened Wrappers
  import opened Text

  datatype ClassRow = ClassRow(id: int, name: string, datetime: string, instructor: string, availableSlots: int)

  datatype BookingRow = BookingRow(id: int, classId: int, clientName: string, clientEmail: string, bookedAt: string)

  /** A class row before the database has given it an id. */
  datatype NewClass = NewClass(name: string, datetime: string, instructor: string, availableSlots: int)

  datatype Tables = Tables(classes: seq<ClassRow>, bookings: seq<BookingRow>, lastClassId: nat, lastBookingId: nat)

  /** A freshly created database file: both tables exist and are empty. */
  const EmptyTables: Tables := Tables([], [], 0, 0)

  // ---------------------------------------------------------------------------
  // Queries

  /** `SELECT ... FROM classes WHERE id = ?`: the position of the first row with that id. */
  function FindClass(classes: seq<ClassRow>, id: int): (r: Option<nat>)
    ensures r.Some? ==> r.value < |classes| && classes[r.value].id == id
    ensures r.None? <==> forall k :: 0 <= k < |classes| ==> classes[k].id != id
  {
    if |classes| == 0 then None
    else if classes[0].id == id then Some(0)
    else
      match FindClass(classes[1..], id)
      case None => None
      case Some(k) => Some(k + 1)
  }

  function ClassOf(t: Tables, id: int): Option<ClassRow> {
    match FindClass(t.classes, id)
    case None => None
    case Some(k) => Some(t.classes[k])
  }

  /** `SELECT 1 FROM bookings WHERE class_id = ? AND client_email = ?` finds a row. */
  predicate Booked(bookings: seq<BookingRow>, classId: int, email: string) {
    exists i :: 0 <= i < |bookings| && bookings[i].classId == classId && bookings[i].clientEmail == email
  }

  /** The number of bookings held for a class. */
  function BookingsFor(bookings: seq<BookingRow>, classId: int): nat {
    if |bookings| == 0 then 0
    else BookingsFor(bookings[..|bookings| - 1], classId) + (if bookings[|bookings| - 1].classId == classId then 1 else 0)
  }

  /** The free places of a class; 0 for an id with no class. */
  function SlotsOf(t: Tables, id: int): int {
    match ClassOf(t, id)
    case None => 0
    case Some(c) => c.availableSlots
  }

  // ---------------------------------------------------------------------------
  // Integrity rules

  /** Class ids are primary keys handed out in increasing order. */
  predicate ClassIdsIncreasing(classes: seq<ClassRow>) {
    forall i, j :: 0 <= i < j < |classes| ==> classes[i].id < classes[j].id
  }

  /** Booking ids are primary keys handed out in increasing order. */
  predicate BookingIdsIncreasing(bookings: seq<BookingRow>) {
    forall i, j :: 0 <= i < j < |bookings| ==> bookings[i].id < bookings[j].id
  }

  /** `UNIQUE(class_id, client_email)`. */
  predicate UniquePairs(bookings: seq<BookingRow>) {
    forall i, j :: 0 <= i < j < |bookings| ==>
      bookings[i].classId != bookings[j].classId || bookings[i].clientEmail != bookings[j].clientEmail
  }

  /**
   * What the table layout and the code that writes to it keep true: ids
   * are unique and never above the AUTOINCREMENT counter, no class has a
   * negative number of free places, each booking refers to a stored class
   * under a lower-case e-mail, and no (class, e-mail) pair is booked twice.
   */
  predicate Invariant(t: Tables) {
    && ClassIdsIncreasing(t.classes)
    && (forall i :: 0 <= i < |t.classes| ==> 1 <= t.classes[i].id <= t.lastClassId)
    && (forall i :: 0 <= i < |t.classes| ==> t.classes[i].availableSlots >= 0)
    && BookingIdsIncreasing(t.bookings)
    && (forall i :: 0 <= i < |t.bookings| ==> 1 <= t.bookings[i].id <= t.lastBookingId)
    && (forall i :: 0 <= i < |t.bookings| ==> IsLowerCase(t.bookings[i].clientEmail))
    && (forall i :: 0 <= i < |t.bookings| ==> FindClass(t.classes, t.bookings[i].classId).Some?)
    && UniquePairs(t.bookings)
  }

  // ---------------------------------------------------------------------------
  // Writes, one statement each

  /** `INSERT INTO classes (name, datetime, instructor, available_slots) VALUES (...)`. */
  function AddClass(t: Tables, c: NewClass): Tables {
    t.(classes := t.classes + [ClassRow(t.lastClassId + 1, c.name, c.datetime, c.instructor, c.availableSlots)],
       lastClassId := t.lastClassId + 1)
  }

  /** `executemany` of the class INSERT, row after row. */
  function InsertClasses(t: Tables, rows: seq<NewClass>): (r: Tables)
    ensures |r.classes| == |t.classes| + |rows|
    ensures r.bookings == t.bookings && r.lastBookingId == t.lastBookingId
    ensures r.lastClassId == t.lastClassId + |rows|
    ensures r.classes[..|t.classes|] == t.classes
    ensures forall k :: 0 <= k < |rows| ==>
      r.classes[|t.classes| + k] ==
        ClassRow(t.lastClassId + k + 1, rows[k].name, rows[k].datetime, rows[k].instructor, rows[k].availableSlots)
  {
    if |rows| == 0 then t
    else AddClass(InsertClasses(t, rows[..|rows| - 1]), rows[|rows| - 1])
  }

  /** `UPDATE classes SET available_slots = available_slots - 1 WHERE id = ?`. */
  function TakeSlot(t: Tables, id: int): Tables {
    t.(classes := seq(|t.classes|, i requires 0 <= i < |t.classes| =>
         if t.classes[i].id == id then t.classes[i].(availableSlots := t.classes[i].availableSlots - 1)
         else t.classes[i]))
  }

  /** `INSERT INTO bookings (class_id, client_name, client_email, booked_at) VALUES (...)`. */
  function AddBooking(t: Tables, classId: int, clientName: string, clientEmail: string, bookedAt: string): Tables {
    t.(bookings := t.bookings + [BookingRow(t.lastBookingId + 1, classId, clientName, clientEmail, bookedAt)],
       lastBookingId := t.lastBookingId + 1)
  }

  /** The three sample classes, all starting at `when` (ten days after start-up). */
  function SampleClasses(when: string): seq<NewClass> {
    [ NewClass("Yoga", when, "Rahul", 10),
      NewClass("Zumba", when, "Nidhi", 10),
      NewClass("HIIT", when, "Mohit", 10) ]
  }

  /** Start-up seeding: the sample classes go in only when the classes table is empty. */
  function Seed(t: Tables, when: string): Tables {
    if |t.classes| == 0 then InsertClasses(t, SampleClasses(when)) else t
  }

  // ---------------------------------------------------------------------------
  // Lemmas

  /** The lookup depends only on the ids of the rows. */
  lemma {:induction false} FindClassSameIds(a: seq<ClassRow>, b: seq<ClassRow>, id: int)
    requires |a| == |b|
    requires forall i :: 0 <= i < |a| ==> a[i].id == b[i].id
    ensures FindClass(a, id) == FindClass(b, id)
  {
    if |a| > 0 && a[0].id != id {
      FindClassSameIds(a[1..], b[1..], id);
    }
  }

  /** With unique ids, the lookup finds the one row that carries the id. */
  lemma FindClassExact(classes: seq<ClassRow>, k: nat)
    requires ClassIdsIncreasing(classes)
    requires k < |classes|
    ensures FindClass(classes, classes[k].id) == Some(k)
  {
  }

  /** Appending a class row does not hide the rows already there. */
  lemma FindClassAfterAppend(classes: seq<ClassRow>, row: ClassRow, id: int)
    requires FindClass(classes, id).Some?
    ensures FindClass(classes + [row], id) == FindClass(classes, id)
  {
    var k := FindClass(classes, id).value;
    assert (classes + [row])[k].id == id;
    if FindClass(classes + [row], id).value != k {
      FindClassFirst(classes, id);
      FindClassFirst(classes + [row], id);
    }
  }

  /** The lookup returns the first row with the id. */
  lemma {:induction false} FindClassFirst(classes: seq<ClassRow>, id: int)
    requires FindClass(classes, id).Some?
    ensures forall k :: 0 <= k < FindClass(classes, id).value ==> classes[k].id != id
  {
    if classes[0].id != id {
      FindClassFirst(classes[1..], id);
    }
  }

  /** Taking a place changes no id, so every lookup still lands on the same row. */
  lemma TakeSlotKeepsIndex(t: Tables, id: int)
    ensures forall x :: FindClass(TakeSlot(t, id).classes, x) == FindClass(t.classes, x)
  {
    forall x {
      FindClassSameIds(TakeSlot(t, id).classes, t.classes, x);
    }
  }

  /** Taking a place in class `id` lowers its free places by one and leaves every other class as it was. */
  lemma TakeSlotEffect(t: Tables, id: int, other: int)
    ensures ClassOf(TakeSlot(t, id), other) ==
            match ClassOf(t, other)
            case None => None
            case Some(c) => Some(if other == id then c.(availableSlots := c.availableSlots - 1) else c)
    ensures TakeSlot(t, id).bookings == t.bookings
  {
    TakeSlotKeepsIndex(t, id);
  }

  lemma AddClassKeepsInvariant(t: Tables, c: NewClass)
    requires Invariant(t)
    requires c.availableSlots >= 0
    ensures Invariant(AddClass(t, c))
  {
    var t' := AddClass(t, c);
    var row := t'.classes[|t.classes|];
    forall i | 0 <= i < |t'.bookings|
      ensures FindClass(t'.classes, t'.bookings[i].classId).Some?
    {
      FindClassAfterAppend(t.classes, row, t.bookings[i].classId);
    }
  }

  lemma {:induction false} InsertClassesKeepsInvariant(t: Tables, rows: seq<NewClass>)
    requires Invariant(t)
    requires forall k :: 0 <= k < |rows| ==> rows[k].availableSlots >= 0
    ensures Invariant(InsertClasses(t, rows))
  {
    if |rows| > 0 {
      InsertClassesKeepsInvariant(t, rows[..|rows| - 1]);
      AddClassKeepsInvariant(InsertClasses(t, rows[..|rows| - 1]), rows[|rows| - 1]);
    }
  }

  lemma TakeSlotKeepsInvariant(t: Tables, id: int)
    requires Invariant(t)
    requires SlotsOf(t, id) > 0
    ensures Invariant(TakeSlot(t, id))
  {
    TakeSlotKeepsIndex(t, id);
    var t' := TakeSlot(t, id);
    forall i | 0 <= i < |t'.classes|
      ensures t'.classes[i].availableSlots >= 0
    {
      if t.classes[i].id == id {
        FindClassExact(t.classes, i);
      }
    }
  }

  lemma AddBookingKeepsInvariant(t: Tables, classId: int, clientName: string, clientEmail: string, bookedAt: string)
    requires Invariant(t)
    requires FindClass(t.classes, classId).Some?
    requires IsLowerCase(clientEmail)
    requires !Booked(t.bookings, classId, clientEmail)
    ensures Invariant(AddBooking(t, classId, clientName, clientEmail, bookedAt))
  {
  }

  /** Seeding only ever fills an empty table, so a second start-up adds nothing. */
  lemma SeedIdempotent(t: Tables, first: string, second: string)
    ensures Seed(Seed(t, first), second) == Seed(t, first)
  {
  }

  /** Seeding an empty table stores exactly the three samples, each with ten free places. */
  lemma SeedFromEmpty(t: Tables, when: string)
    requires |t.classes| == 0
    ensures Seed(t, when).classes ==
      [ ClassRow(t.lastClassId + 1, "Yoga", when, "Rahul", 10),
        ClassRow(t.lastClassId + 2, "Zumba", when, "Nidhi", 10),
        ClassRow(t.lastClassId + 3, "HIIT", when, "Mohit", 10) ]
    ensures Seed(t, when).bookings == t.bookings
  {
    var s := SampleClasses(when);
    assert s[..3] == s;
    assert s[..3][..2] == s[..2];
    assert s[..2][..1] == s[..1];
    assert s[..1][..0] == s[..0];
    var t1 := InsertClasses(t, s[..1]);
    assert t1 == AddClass(t, s[0]);
    var t2 := InsertClasses(t, s[..2]);
    assert t2 == AddClass(t1, s[1]);
    assert InsertClasses(t, s) == AddClass(t2, s[2]);
  }

  lemma SeedKeepsInvariant(t: Tables, when: string)
    requires Invariant(t)
    ensures Invariant(Seed(t, when))
  {
    if |t.classes| == 0 {
      InsertClassesKeepsInvariant(t, SampleClasses(when));
    }
  }

  // ---------------------------------------------------------------------------
  // The shared connection

  /**
   * The process-wide database connection. Each method is one SQL statement
   * or one script of them, and keeps the integrity rules.
   */
  class Store {
    var classes: seq<ClassRow>
    var bookings: seq<BookingRow>
    var lastClassId: nat
    var lastBookingId: nat

    function Snapshot(): Tables
      reads this
    {
      Tables(classes, bookings, lastClassId, lastBookingId)
    }

    predicate Valid()
      reads this
    {
      Invariant(Snapshot())
    }

    /** Connecting to a new database file and running the CREATE TABLE script. */
    constructor ()
      ensures Valid()
      ensures Snapshot() == EmptyTables
    {
      classes := [];
      bookings := [];
      lastClassId := 0;
      lastBookingId := 0;
    }

    /** One class INSERT; `id` is the new row's id (`lastrowid`). */
    method InsertClass(c: NewClass) returns (id: int)
      requires Valid()
      requires c.availableSlots >= 0
      modifies this
      ensures Valid()
      ensures Snapshot() == AddClass(old(Snapshot()), c)
      ensures id == lastClassId && id > old(lastClassId)
    {
      AddClassKeepsInvariant(Snapshot(), c);
      lastClassId := lastClassId + 1;
      classes := classes + [ClassRow(lastClassId, c.name, c.datetime, c.instructor, c.availableSlots)];
      id := lastClassId;
    }

    /** Count the classes; when there are none, insert the sample classes one by one. */
    method SeedIfEmpty(when: string)
      requires Valid()
      modifies this
      ensures Valid()
      ensures Snapshot() == Seed(old(Snapshot()), when)
    {
      var count := |classes|;
      if count == 0 {
        var samples := SampleClasses(when);
        for k := 0 to |samples|
          invariant Valid()
          invariant Snapshot() == InsertClasses(old(Snapshot()), samples[..k])
        {
          assert samples[..k + 1][..k] == samples[..k];
          var _ := InsertClass(samples[k]);
        }
        assert samples[..|samples|] == samples;
      }
    }

    /** The slot UPDATE. The caller has seen a free place in that class. */
    method ReserveSlot(id: int)
      requires Valid()
      requires SlotsOf(Snapshot(), id) > 0
      modifies this
      ensures Valid()
      ensures Snapshot() == TakeSlot(old(Snapshot()), id)
    {
      TakeSlotKeepsInvariant(Snapshot(), id);
      classes := TakeSlot(Snapshot(), id).classes;
    }

    /**
     * The booking INSERT; `id` is the new row's id. The foreign key and
     * the UNIQUE(class_id, client_email) constraint are the caller's to meet.
     */
    method InsertBooking(classId: int, clientName: string, clientEmail: string, bookedAt: string) returns (id: int)
      requires Valid()
      requires FindClass(classes, classId).Some?
      requires IsLowerCase(clientEmail)
      requires !Booked(bookings, classId, clientEmail)
      modifies this
      ensures Valid()
      ensures Snapshot() == AddBooking(old(Snapshot()), classId, clientName, clientEmail, bookedAt)
      ensures id == lastBookingId && id > old(lastBookingId)
    {
      AddBookingKeepsInvariant(Snapshot(), classId, clientName, clientEmail, bookedAt);
      lastBookingId := lastBookingId + 1;
      bookings := bookings + [BookingRow(lastBookingId, classId, clientName, clientEmail, bookedAt)];
      id := lastBookingId;
    }
  }
}
