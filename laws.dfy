/**
 * Properties of the booking endpoints over several requests: what a
 * sequence of creates does to capacity, how concurrent-looking demand for
 * a class is settled once the creates are serialised, and how creating
 * and listing relate.
 */
module BookingLaws {
  import opened Wrappers
  import opened Text
  import opened Utils
  import opened Api
  import opened Db
  import opened Bookings

  /** One create request and the server time at which it ran. */
  datatype Attempt = Attempt(request: CreateRequest, bookedAt: string)

  /** Create requests run one after another; the final tables and every reply. */
  function Apply(t: Tables, attempts: seq<Attempt>): (r: (Tables, seq<Result<BookingReply>>))
    ensures |r.1| == |attempts|
    decreases |attempts|
  {
    if |attempts| == 0 then (t, [])
    else
      var o := Create(t, attempts[0].request, attempts[0].bookedAt);
      var rest := Apply(o.after, attempts[1..]);
      (rest.0, [o.reply] + rest.1)
  }

  function Successes(replies: seq<Result<BookingReply>>): nat {
    if |replies| == 0 then 0 else (if replies[0].Ok? then 1 else 0) + Successes(replies[1..])
  }

  function Min(a: int, b: int): int {
    if a <= b then a else b
  }

  // ---------------------------------------------------------------------------
  // Helpers about the tables

  lemma {:induction false} BookingsForAppend(bookings: seq<BookingRow>, b: BookingRow, id: int)
    ensures BookingsFor(bookings + [b], id) == BookingsFor(bookings, id) + (if b.classId == id then 1 else 0)
  {
    assert (bookings + [b])[..|bookings|] == bookings;
  }

  lemma BookedAppend(bookings: seq<BookingRow>, b: BookingRow, id: int, email: string)
    ensures Booked(bookings + [b], id, email) <==>
            Booked(bookings, id, email) || (b.classId == id && b.clientEmail == email)
  {
    var all := bookings + [b];
    if Booked(bookings, id, email) {
      var i :| 0 <= i < |bookings| && bookings[i].classId == id && bookings[i].clientEmail == email;
      assert all[i] == bookings[i];
    }
    if b.classId == id && b.clientEmail == email {
      assert all[|bookings|] == b;
    }
    if Booked(all, id, email) {
      var i :| 0 <= i < |all| && all[i].classId == id && all[i].clientEmail == email;
      if i < |bookings| {
        assert bookings[i] == all[i];
      }
    }
  }

  // ---------------------------------------------------------------------------
  // Capacity

  /** Each create moves at most one place of a class from "free" to "booked". */
  lemma CreateConservesCapacity(t: Tables, req: CreateRequest, bookedAt: string, id: int)
    ensures var after := Create(t, req, bookedAt).after;
            SlotsOf(after, id) + BookingsFor(after.bookings, id) == SlotsOf(t, id) + BookingsFor(t.bookings, id)
  {
    var o := Create(t, req, bookedAt);
    if o.reply.Ok? {
      CreateSuccess(t, req, bookedAt);
      BookingsForAppend(t.bookings, o.after.bookings[|t.bookings|], id);
      assert o.after.bookings[|t.bookings|].classId == req.classId;
    }
  }

  /**
   * Over any sequence of creates, free places plus bookings held stays the
   * same for every class: each booking consumed exactly one place.
   */
  lemma {:induction false} CapacityConserved(t: Tables, attempts: seq<Attempt>, id: int)
    ensures var after := Apply(t, attempts).0;
            SlotsOf(after, id) + BookingsFor(after.bookings, id) == SlotsOf(t, id) + BookingsFor(t.bookings, id)
    decreases |attempts|
  {
    if |attempts| > 0 {
      var o := Create(t, attempts[0].request, attempts[0].bookedAt);
      CreateConservesCapacity(t, attempts[0].request, attempts[0].bookedAt, id);
      CapacityConserved(o.after, attempts[1..], id);
    }
  }

  /** Any sequence of creates keeps the integrity rules; in particular no class ever has fewer than zero free places. */
  lemma {:induction false} ApplyKeepsInvariant(t: Tables, attempts: seq<Attempt>)
    requires Invariant(t)
    ensures Invariant(Apply(t, attempts).0)
    ensures forall c :: c in Apply(t, attempts).0.classes ==> c.availableSlots >= 0
    decreases |attempts|
  {
    if |attempts| > 0 {
      var o := Create(t, attempts[0].request, attempts[0].bookedAt);
      CreateKeepsInvariant(t, attempts[0].request, attempts[0].bookedAt);
      ApplyKeepsInvariant(o.after, attempts[1..]);
    }
  }

  /** The e-mails, once lower-cased, are pairwise different. */
  predicate DistinctEmails(attempts: seq<Attempt>) {
    forall i, j :: 0 <= i < j < |attempts| ==>
      ToLower(attempts[i].request.clientEmail) != ToLower(attempts[j].request.clientEmail)
  }

  /**
   * N creates for one class with K free places, from N different clients
   * none of whom holds a place yet: exactly min(N, K) succeed, every other
   * one is told the class is full, and the class ends with K - min(N, K)
   * free places.
   */
  lemma {:induction false} ExactlyKSucceed(t: Tables, id: int, attempts: seq<Attempt>)
    requires Invariant(t)
    requires ClassOf(t, id).Some?
    requires forall i :: 0 <= i < |attempts| ==> attempts[i].request.classId == id
    requires DistinctEmails(attempts)
    requires forall i :: 0 <= i < |attempts| ==> !Booked(t.bookings, id, ToLower(attempts[i].request.clientEmail))
    ensures Successes(Apply(t, attempts).1) == Min(|attempts|, SlotsOf(t, id))
    ensures forall r :: r in Apply(t, attempts).1 ==> r.Ok? || r == Err(NoSlots(id))
    ensures SlotsOf(Apply(t, attempts).0, id) == SlotsOf(t, id) - Min(|attempts|, SlotsOf(t, id))
    decreases |attempts|
  {
    if |attempts| > 0 {
      var a := attempts[0];
      var o := Create(t, a.request, a.bookedAt);
      var rest := attempts[1..];
      assert DistinctEmails(rest);
      CreateKeepsInvariant(t, a.request, a.bookedAt);
      if SlotsOf(t, id) > 0 {
        assert o.reply.Ok?;
        CreateSuccess(t, a.request, a.bookedAt);
        var added := o.after.bookings[|t.bookings|];
        assert o.after.bookings == t.bookings + [added];
        forall i | 0 <= i < |rest|
          ensures !Booked(o.after.bookings, id, ToLower(rest[i].request.clientEmail))
        {
          assert rest[i] == attempts[i + 1];
          BookedAppend(t.bookings, added, id, ToLower(rest[i].request.clientEmail));
        }
        ExactlyKSucceed(o.after, id, rest);
      } else {
        ExactlyKSucceed(o.after, id, rest);
      }
      var replies := Apply(t, attempts).1;
      assert replies == [o.reply] + Apply(o.after, rest).1;
      assert replies[1..] == Apply(o.after, rest).1;
    }
  }

  // ---------------------------------------------------------------------------
  // Booking the same class twice

  /**
   * Once a client holds a place, a second create for the same class under
   * the same e-mail, in any letter case, fails and changes nothing. The
   * capacity check comes first: while the class still has a free place the
   * answer is AlreadyBooked, once it is full the answer is NoSlots.
   */
  lemma RebookingFails(t: Tables, req: CreateRequest, bookedAt: string, again: CreateRequest, laterAt: string)
    requires Create(t, req, bookedAt).reply.Ok?
    requires again.classId == req.classId
    requires ToLower(again.clientEmail) == ToLower(req.clientEmail)
    ensures var o := Create(t, req, bookedAt);
            var o2 := Create(o.after, again, laterAt);
            && o2.reply.Err?
            && o2.after == o.after
            && (o2.reply == Err(AlreadyBooked) <==> SlotsOf(o.after, req.classId) > 0)
            && (o2.reply == Err(NoSlots(req.classId)) <==> SlotsOf(o.after, req.classId) <= 0)
  {
    var o := Create(t, req, bookedAt);
    CreateSuccess(t, req, bookedAt);
    var last := |t.bookings|;
    assert o.after.bookings[last].classId == again.classId;
    assert o.after.bookings[last].clientEmail == ToLower(again.clientEmail);
    assert Booked(o.after.bookings, again.classId, ToLower(again.clientEmail));
  }

  // ---------------------------------------------------------------------------
  // Creating, then listing

  /**
   * The rows the e-mail join keeps after a successful create: the rows it
   * kept before, plus the new booking.
   */
  lemma JoinedAfterCreate(t: Tables, req: CreateRequest, bookedAt: string, b: BookingRow, e: string)
    requires Create(t, req, bookedAt).reply.Ok?
    requires b in Create(t, req, bookedAt).after.bookings
    ensures var o := Create(t, req, bookedAt);
            Joined(b, o.after.classes, e) <==>
              (b in t.bookings && Joined(b, t.classes, e)) || (b == o.after.bookings[|t.bookings|] && e == ToLower(req.clientEmail))
  {
    var o := Create(t, req, bookedAt);
    CreateSuccess(t, req, bookedAt);
    TakeSlotKeepsIndex(t, req.classId);
    assert FindClass(o.after.classes, b.classId) == FindClass(t.classes, b.classId);
  }

  /**
   * After a successful create, listing the bookings of the same e-mail
   * (with a known zone and an e-mail the validator accepts) succeeds and
   * shows the new booking.
   */
  lemma CreateThenList(t: Tables, req: CreateRequest, bookedAt: string, tz: Option<string>, zones: Zones, emailValid: string -> bool)
    requires Create(t, req, bookedAt).reply.Ok?
    requires req.clientEmail != ""
    requires zones.known(ZoneOrDefault(tz))
    requires emailValid(ToLower(req.clientEmail))
    ensures var o := Create(t, req, bookedAt);
            var r := ListBookings(o.after, Some(req.clientEmail), tz, zones, emailValid);
            r.Ok? && exists v :: v in r.value && v.id == o.reply.value.id && v.classId == req.classId
  {
    var o := Create(t, req, bookedAt);
    var e := ToLower(req.clientEmail);
    CreateSuccess(t, req, bookedAt);
    var added := o.after.bookings[|t.bookings|];
    assert added in o.after.bookings;
    JoinedAfterCreate(t, req, bookedAt, added, e);
    var r := ListBookings(o.after, Some(req.clientEmail), tz, zones, emailValid);
    assert r != Err(NoBookings(e));
    var v := View(added, o.after.classes, ZoneOrDefault(tz), zones);
    assert v in r.value;
  }

  /** A list whose ids increase strictly has no more entries than there are ids to draw from. */
  lemma {:induction false} IdsBound(r: seq<BookingView>, ids: set<int>)
    requires forall k :: 0 <= k < |r| ==> r[k].id in ids
    requires forall i, j :: 0 <= i < j < |r| ==> r[i].id < r[j].id
    ensures |r| <= |ids|
  {
    if |r| > 0 {
      var rest := ids - {r[0].id};
      forall k | 0 <= k < |r| - 1
        ensures r[1..][k].id in rest
      {
        assert r[0].id < r[k + 1].id;
      }
      IdsBound(r[1..], rest);
    }
  }

  /** If no earlier booking matched the e-mail, the new booking is the only one that does. */
  lemma OnlyNewBookingMatches(t: Tables, req: CreateRequest, bookedAt: string, e: string)
    requires Create(t, req, bookedAt).reply.Ok?
    requires forall b :: b in t.bookings ==> !Joined(b, t.classes, e)
    ensures var after := Create(t, req, bookedAt).after;
            forall b :: b in after.bookings && Joined(b, after.classes, e) ==> b == after.bookings[|t.bookings|]
  {
    var after := Create(t, req, bookedAt).after;
    forall b | b in after.bookings && Joined(b, after.classes, e)
      ensures b == after.bookings[|t.bookings|]
    {
      JoinedAfterCreate(t, req, bookedAt, b, e);
    }
  }

  /** A client with no bookings who then books once sees exactly one entry. */
  lemma FirstBookingListsOnce(t: Tables, req: CreateRequest, bookedAt: string, tz: Option<string>, zones: Zones, emailValid: string -> bool)
    requires Invariant(t)
    requires Create(t, req, bookedAt).reply.Ok?
    requires ListBookings(t, Some(req.clientEmail), tz, zones, emailValid) == Err(NoBookings(ToLower(req.clientEmail)))
    ensures var r := ListBookings(Create(t, req, bookedAt).after, Some(req.clientEmail), tz, zones, emailValid);
            r.Ok? && |r.value| == 1
  {
    var o := Create(t, req, bookedAt);
    var e := ToLower(req.clientEmail);
    var zone := ZoneOrDefault(tz);
    assert req.clientEmail != "" && zones.known(zone) && emailValid(e);
    assert forall b :: b in t.bookings ==> !Joined(b, t.classes, e);
    CreateThenList(t, req, bookedAt, tz, zones, emailValid);
    CreateKeepsInvariant(t, req, bookedAt);
    OnlyNewBookingMatches(t, req, bookedAt, e);
    var added := o.after.bookings[|t.bookings|];
    var r := ListBookings(o.after, Some(req.clientEmail), tz, zones, emailValid);
    assert r.Ok?;
    var entries := r.value;
    forall k | 0 <= k < |entries| ensures entries[k].id == added.id {
      assert entries[k] in entries;
    }
    IdsBound(entries, {added.id});
  }
}
