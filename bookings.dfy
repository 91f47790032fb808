/**
 * `POST /book` and `GET /bookings`: reserving a place in a class, and
 * listing what one client has booked.
 */
module Bookings {
  import opened Wrappers
  import opened Text
  import opened Utils
  import opened Api
  import opened Db

  /** The request body, after schema validation. */
  datatype CreateRequest = CreateRequest(classId: int, clientName: string, clientEmail: string)

  /** The 201 response: the request echoed as sent, the new id, and the class's name and instructor. */
  datatype BookingReply = BookingReply(id: int, classId: int, clientName: string, clientEmail: string, name: string, instructor: string)

  /** The state after a create request and what it answered. */
  datatype Outcome = Outcome(after: Tables, reply: Result<BookingReply>)

  // ---------------------------------------------------------------------------
  // Creating a booking

  /**
   * One create request as one atomic step. The checks run in the
   * order of the source: unknown class, then no free place, then an
   * existing booking under the lower-cased e-mail; any of them leaves the
   * tables untouched.
   */
  function Create(t: Tables, req: CreateRequest, bookedAt: string): (o: Outcome)
    ensures o.reply.Err? ==> o.after == t
    ensures o.reply == Err(ClassNotFound(req.classId)) <==> ClassOf(t, req.classId).None?
    ensures o.reply == Err(NoSlots(req.classId)) <==>
              ClassOf(t, req.classId).Some? && ClassOf(t, req.classId).value.availableSlots <= 0
    ensures o.reply == Err(AlreadyBooked) <==>
              && ClassOf(t, req.classId).Some?
              && ClassOf(t, req.classId).value.availableSlots > 0
              && Booked(t.bookings, req.classId, ToLower(req.clientEmail))
    ensures o.reply.Ok? || o.reply.error in {ClassNotFound(req.classId), NoSlots(req.classId), AlreadyBooked}
  {
    match FindClass(t.classes, req.classId)
    case None => Outcome(t, Err(ClassNotFound(req.classId)))
    case Some(k) =>
      var row := t.classes[k];
      if row.availableSlots <= 0 then Outcome(t, Err(NoSlots(row.id)))
      else
        var email := ToLower(req.clientEmail);
        if Booked(t.bookings, row.id, email) then Outcome(t, Err(AlreadyBooked))
        else
          var reserved := TakeSlot(t, row.id);
          var after := AddBooking(reserved, req.classId, req.clientName, email, bookedAt);
          Outcome(after, Ok(BookingReply(after.lastBookingId, req.classId, req.clientName, req.clientEmail, row.name, row.instructor)))
  }

  /** The status codes of the create endpoint's failures, in the order the handler checks them. */
  lemma CreateErrorStatus(t: Tables, req: CreateRequest, bookedAt: string)
    ensures var o := Create(t, req, bookedAt);
      o.reply.Err? ==>
        Status(o.reply.error) ==
          (if ClassOf(t, req.classId).None? then 404
           else if ClassOf(t, req.classId).value.availableSlots <= 0 then 400
           else 409)
  {
  }

  /**
   * What a successful create did: the booked class lost exactly one free
   * place, every other class is as it was, exactly one booking row was
   * appended under the lower-cased e-mail and the given time, and the
   * reply echoes the request as sent (e-mail not lower-cased) with the
   * new, fresh id and the class's name and instructor.
   */
  lemma CreateSuccess(t: Tables, req: CreateRequest, bookedAt: string)
    requires Create(t, req, bookedAt).reply.Ok?
    ensures var o := Create(t, req, bookedAt);
      && ClassOf(t, req.classId).Some?
      && var c := ClassOf(t, req.classId).value;
      && ClassOf(o.after, req.classId) == Some(c.(availableSlots := c.availableSlots - 1))
      && (forall id :: id != req.classId ==> ClassOf(o.after, id) == ClassOf(t, id))
      && |o.after.classes| == |t.classes|
      && o.after.bookings == t.bookings + [BookingRow(t.lastBookingId + 1, req.classId, req.clientName, ToLower(req.clientEmail), bookedAt)]
      && o.reply.value == BookingReply(t.lastBookingId + 1, req.classId, req.clientName, req.clientEmail, c.name, c.instructor)
      && o.after.lastClassId == t.lastClassId
      && (Invariant(t) ==> forall b :: b in t.bookings ==> b.id < o.reply.value.id)
  {
    var k := FindClass(t.classes, req.classId).value;
    TakeSlotKeepsIndex(t, req.classId);
    forall id ensures ClassOf(Create(t, req, bookedAt).after, id) ==
                      match ClassOf(t, id)
                      case None => None
                      case Some(c) => Some(if id == req.classId then c.(availableSlots := c.availableSlots - 1) else c)
    {
      TakeSlotEffect(t, req.classId, id);
    }
    if Invariant(t) {
      forall b | b in t.bookings ensures b.id <= t.lastBookingId {
        var i :| 0 <= i < |t.bookings| && t.bookings[i] == b;
      }
    }
  }

  /** A create keeps every integrity rule of the tables. */
  lemma CreateKeepsInvariant(t: Tables, req: CreateRequest, bookedAt: string)
    requires Invariant(t)
    ensures Invariant(Create(t, req, bookedAt).after)
  {
    if Create(t, req, bookedAt).reply.Ok? {
      var email := ToLower(req.clientEmail);
      TakeSlotKeepsInvariant(t, req.classId);
      var reserved := TakeSlot(t, req.classId);
      TakeSlotKeepsIndex(t, req.classId);
      AddBookingKeepsInvariant(reserved, req.classId, req.clientName, email, bookedAt);
    }
  }

  /**
   * The handler, step by step against the shared connection: look the
   * class up, check its free places, check for an existing booking,
   * reserve the place, insert the booking.
   */
  method Post(store: Store, req: CreateRequest, bookedAt: string) returns (reply: Result<BookingReply>)
    requires store.Valid()
    modifies store
    ensures store.Valid()
    ensures Outcome(store.Snapshot(), reply) == Create(old(store.Snapshot()), req, bookedAt)
  {
    var found := FindClass(store.classes, req.classId);
    if found.None? {
      return Err(ClassNotFound(req.classId));
    }
    var row := store.classes[found.value];
    if row.availableSlots <= 0 {
      return Err(NoSlots(row.id));
    }
    var email := ToLower(req.clientEmail);
    if Booked(store.bookings, row.id, email) {
      return Err(AlreadyBooked);
    }
    TakeSlotKeepsIndex(store.Snapshot(), row.id);
    store.ReserveSlot(row.id);
    var id := store.InsertBooking(req.classId, req.clientName, email, bookedAt);
    reply := Ok(BookingReply(id, req.classId, req.clientName, req.clientEmail, row.name, row.instructor));
  }

  // ---------------------------------------------------------------------------
  // Listing a client's bookings

  /** One row of the response: the booking joined with its class, both times rendered in `zone`. */
  datatype BookingView = BookingView(
    id: int, clientName: string, clientEmail: string, bookedAt: string,
    classId: int, name: string, datetime: string, instructor: string)

  /** The booking has the e-mail and its class is stored, so the inner join keeps it. */
  predicate Joined(b: BookingRow, classes: seq<ClassRow>, email: string) {
    b.clientEmail == email && FindClass(classes, b.classId).Some?
  }

  function View(b: BookingRow, classes: seq<ClassRow>, zone: string, zones: Zones): BookingView
    requires FindClass(classes, b.classId).Some?
  {
    var c := classes[FindClass(classes, b.classId).value];
    BookingView(b.id, b.clientName, b.clientEmail, zones.convert(b.bookedAt, zone),
                c.id, c.name, zones.convert(c.datetime, zone), c.instructor)
  }

  /**
   * `SELECT ... FROM bookings JOIN classes ON bookings.class_id = classes.id
   * WHERE client_email = ?`, each row rendered: one entry for each booking
   * under that e-mail, in table order, and nothing else.
   */
  function JoinByEmail(bookings: seq<BookingRow>, classes: seq<ClassRow>, email: string, zone: string, zones: Zones): (r: seq<BookingView>)
    ensures |r| <= |bookings|
    ensures forall v :: v in r ==> v.clientEmail == email
    ensures forall v :: v in r ==>
              exists b :: b in bookings && Joined(b, classes, email) && v == View(b, classes, zone, zones)
    ensures forall b :: b in bookings && Joined(b, classes, email) ==> View(b, classes, zone, zones) in r
    ensures BookingIdsIncreasing(bookings) ==> forall i, j :: 0 <= i < j < |r| ==> r[i].id < r[j].id
  {
    if |bookings| == 0 then []
    else
      var rest := JoinByEmail(bookings[1..], classes, email, zone, zones);
      TailIdsAbove(bookings, rest);
      assert forall b :: b in bookings[1..] ==> b in bookings;
      if Joined(bookings[0], classes, email) then [View(bookings[0], classes, zone, zones)] + rest else rest
  }

  /** Entries drawn from the later rows of an id-ordered table have ids above the first row's. */
  lemma TailIdsAbove(bookings: seq<BookingRow>, rest: seq<BookingView>)
    requires |bookings| > 0
    requires forall v :: v in rest ==> exists b :: b in bookings[1..] && v.id == b.id
    ensures BookingIdsIncreasing(bookings) ==> forall v :: v in rest ==> bookings[0].id < v.id
  {
    if BookingIdsIncreasing(bookings) {
      forall v | v in rest ensures bookings[0].id < v.id {
        var b :| b in bookings[1..] && v.id == b.id;
        var j :| 0 <= j < |bookings| - 1 && bookings[1..][j] == b;
        assert bookings[j + 1] == b;
      }
    }
  }

  /**
   * The handler. A missing or empty `email` is a 400, then an unknown
   * zone, then an e-mail the validator rejects; the e-mail is lower-cased
   * before both the validator and the query. An empty join is a 404;
   * otherwise the answer is exactly the client's bookings.
   */
  function ListBookings(t: Tables, email: Option<string>, tz: Option<string>, zones: Zones, emailValid: string -> bool)
    : (r: Result<seq<BookingView>>)
    ensures r == Err(MissingEmail) <==> email.None? || email.value == ""
    ensures r == Err(InvalidTimezone(ZoneOrDefault(tz))) <==>
              email.Some? && email.value != "" && !zones.known(ZoneOrDefault(tz))
    ensures email.Some? ==>
              (r == Err(InvalidEmail(ToLower(email.value))) <==>
               email.value != "" && zones.known(ZoneOrDefault(tz)) && !emailValid(ToLower(email.value)))
    ensures email.Some? ==>
              (r == Err(NoBookings(ToLower(email.value))) <==>
               && email.value != "" && zones.known(ZoneOrDefault(tz)) && emailValid(ToLower(email.value))
               && forall b :: b in t.bookings ==> !Joined(b, t.classes, ToLower(email.value)))
    ensures r.Ok? <==>
              && email.Some? && email.value != "" && zones.known(ZoneOrDefault(tz))
              && emailValid(ToLower(email.value))
              && exists b :: b in t.bookings && Joined(b, t.classes, ToLower(email.value))
    ensures r.Ok? ==> email.Some? && |r.value| > 0
    ensures r.Ok? ==> forall v :: v in r.value ==>
              exists b :: b in t.bookings && Joined(b, t.classes, ToLower(email.value)) && v == View(b, t.classes, ZoneOrDefault(tz), zones)
    ensures r.Ok? ==> forall b :: b in t.bookings && Joined(b, t.classes, ToLower(email.value)) ==>
              View(b, t.classes, ZoneOrDefault(tz), zones) in r.value
    ensures r.Ok? && BookingIdsIncreasing(t.bookings) ==> forall i, j :: 0 <= i < j < |r.value| ==> r.value[i].id < r.value[j].id
  {
    if email.None? || email.value == "" then Err(MissingEmail)
    else
      var e := ToLower(email.value);
      var zone := ZoneOrDefault(tz);
      if !zones.known(zone) then Err(InvalidTimezone(zone))
      else if !emailValid(e) then Err(InvalidEmail(e))
      else
        var rows := JoinByEmail(t.bookings, t.classes, e, zone, zones);
        if |rows| == 0 then Err(NoBookings(e))
        else
          assert rows[0] in rows;
          Ok(rows)
  }

  /**
   * The status codes of the listing endpoint's failures: a missing e-mail
   * and a rejected e-mail are 400, an empty join is 404, and an unknown zone
   * is the internal error described at `Status`.
   */
  lemma ListBookingsErrorStatus(t: Tables, email: Option<string>, tz: Option<string>, zones: Zones, emailValid: string -> bool)
    ensures var r := ListBookings(t, email, tz, zones, emailValid);
      r.Err? ==>
        Status(r.error) ==
          (if email.None? || email.value == "" then 400
           else if !zones.known(ZoneOrDefault(tz)) then 500
           else if !emailValid(ToLower(email.value)) then 400
           else 404)
  {
  }
}
