/** Booking creation behind `POST /bookings` (index.js:112-151): at most one
    booking per patient, treatment and day. The bookings collection is a
    sequence in insertion order; the store's generated identifier of a new
    booking is modelled as its position in that sequence. */
module BookingStore {
  import opened Records
  import Availability

  /** Two bookings collide when they agree on date, patient email and
      treatment (the query of index.js:121-125). */
  predicate SameKey(a: Booking, b: Booking) {
    a.appointmentDate == b.appointmentDate && a.email == b.email && a.treatmentName == b.treatmentName
  }

  /** The store already holds a booking colliding with `booking`. */
  predicate HasBooking(store: seq<Booking>, booking: Booking) {
    exists i :: 0 <= i < |store| && SameKey(store[i], booking)
  }

  /** The invariant the handler is meant to keep: no two stored bookings
      collide. */
  predicate OnePerUserTreatmentDay(store: seq<Booking>) {
    forall i, j :: 0 <= i < j < |store| ==> !SameKey(store[i], store[j])
  }

  /** The bookings returned by the duplicate query (index.js:128), in store
      order. */
  function MatchingBookings(store: seq<Booking>, booking: Booking): (r: seq<Booking>)
    ensures forall b :: b in r <==> b in store && SameKey(b, booking)
    ensures |r| > 0 <==> HasBooking(store, booking)
  {
    if |store| == 0 then []
    else
      var rest := MatchingBookings(store[1..], booking);
      assert HasBooking(store, booking) <==> SameKey(store[0], booking) || HasBooking(store[1..], booking) by {
        if HasBooking(store[1..], booking) {
          var k :| 0 <= k < |store[1..]| && SameKey(store[1..][k], booking);
          assert SameKey(store[k + 1], booking);
        }
        if HasBooking(store, booking) && !SameKey(store[0], booking) {
          var k :| 0 <= k < |store| && SameKey(store[k], booking);
          assert SameKey(store[1..][k - 1], booking);
        }
      }
      if SameKey(store[0], booking) then [store[0]] + rest else rest
  }

  const AlreadyBookedPrefix: string := "You already have a booking on "

  /** The message sent back instead of inserting (index.js:131). */
  function AlreadyBookedMessage(date: Date): string {
    AlreadyBookedPrefix + date
  }

  /** What the handler sends in `bookings`: the refusal message, or the
      identity of the inserted record. */
  datatype Reply = AlreadyBooked(message: string) | Inserted(insertedId: nat)

  /** The response body `{ success, bookings }`. */
  datatype Response = Response(success: bool, bookings: Reply)

  /** The store after a request together with the response sent for it. */
  datatype Outcome = Outcome(store: seq<Booking>, response: Response)

  /** One `POST /bookings` request handled against `store`
      (index.js:119-142). */
  function Book(store: seq<Booking>, booking: Booking): (r: Outcome)
    ensures r.response.success
    ensures store <= r.store
    ensures HasBooking(r.store, booking)
    ensures r.response.bookings.AlreadyBooked? <==> HasBooking(store, booking)
    ensures r.response.bookings.AlreadyBooked? ==>
      r.store == store && r.response.bookings.message == AlreadyBookedMessage(booking.appointmentDate)
    ensures r.response.bookings.Inserted? ==>
      r.store == store + [booking] && r.response.bookings.insertedId == |store|
  {
    var alreadyBooked := MatchingBookings(store, booking);
    if |alreadyBooked| > 0 then
      Outcome(store, Response(true, AlreadyBooked(AlreadyBookedMessage(booking.appointmentDate))))
    else
      assert SameKey((store + [booking])[|store|], booking);
      Outcome(store + [booking], Response(true, Inserted(|store|)))
  }

  /** Requests handled one after another, each against the store the
      previous one left. */
  function BookAll(store: seq<Booking>, requests: seq<Booking>): (r: seq<Booking>)
    ensures store <= r
    ensures forall b :: b in r ==> b in store || b in requests
    decreases |requests|
  {
    if |requests| == 0 then store
    else BookAll(Book(store, requests[0]).store, requests[1..])
  }

  /** After a run, every request's key has a booking in the store. */
  lemma {:induction false} BookAllServesEveryRequest(store: seq<Booking>, requests: seq<Booking>)
    ensures forall k :: 0 <= k < |requests| ==> HasBooking(BookAll(store, requests), requests[k])
    decreases |requests|
  {
    if |requests| > 0 {
      var next := Book(store, requests[0]).store;
      var r := BookAll(next, requests[1..]);
      BookAllServesEveryRequest(next, requests[1..]);
      assert HasBooking(r, requests[0]) by {
        var i :| 0 <= i < |next| && SameKey(next[i], requests[0]);
        assert r[i] == next[i];
      }
      forall k | 1 <= k < |requests| ensures HasBooking(r, requests[k]) {
        assert requests[k] == requests[1..][k - 1];
      }
    }
  }

  /** A single request keeps the one-per-user-treatment-day invariant. */
  lemma BookKeepsInvariant(store: seq<Booking>, booking: Booking)
    requires OnePerUserTreatmentDay(store)
    ensures OnePerUserTreatmentDay(Book(store, booking).store)
  {
  }

  /** Any run of requests keeps the invariant. */
  lemma {:induction false} BookAllKeepsInvariant(store: seq<Booking>, requests: seq<Booking>)
    requires OnePerUserTreatmentDay(store)
    ensures OnePerUserTreatmentDay(BookAll(store, requests))
    decreases |requests|
  {
    if |requests| > 0 {
      BookKeepsInvariant(store, requests[0]);
      BookAllKeepsInvariant(Book(store, requests[0]).store, requests[1..]);
    }
  }

  /** Under the invariant, the duplicate query finds at most one booking. */
  lemma {:induction false} AtMostOneMatch(store: seq<Booking>, booking: Booking)
    requires OnePerUserTreatmentDay(store)
    ensures |MatchingBookings(store, booking)| <= 1
    decreases |store|
  {
    if |store| > 0 {
      if !SameKey(store[0], booking) {
        AtMostOneMatch(store[1..], booking);
      }
    }
  }

  /** Sending the same booking twice refuses the second request with the
      message naming its date, and the duplicate query then finds exactly
      one stored booking. */
  lemma RepeatedRequestStoresOnce(store: seq<Booking>, booking: Booking)
    requires OnePerUserTreatmentDay(store)
    ensures var first := Book(store, booking);
            var second := Book(first.store, booking);
            && second.store == first.store
            && second.response == Response(true, AlreadyBooked(AlreadyBookedMessage(booking.appointmentDate)))
            && |MatchingBookings(second.store, booking)| == 1
  {
    var first := Book(store, booking);
    BookKeepsInvariant(store, booking);
    AtMostOneMatch(first.store, booking);
  }

  /** The refusal message names the requested date, so different dates give
      different messages. */
  lemma MessageNamesDate(d1: Date, d2: Date)
    ensures AlreadyBookedMessage(d1)[|AlreadyBookedPrefix|..] == d1
    ensures AlreadyBookedMessage(d1) == AlreadyBookedMessage(d2) ==> d1 == d2
  {
  }

  /** The duplicate check ignores the slot: a second patient's request for
      a slot another patient already holds is inserted. */
  lemma SameSlotBookedByTwoPatients()
    ensures var store := [Booking("2024-01-05", "Cleaning", "a@example.com", "9:00", 100)];
            var r := Book(store, Booking("2024-01-05", "Cleaning", "b@example.com", "9:00", 100));
            && r.response.bookings.Inserted?
            && |r.store| == 2
            && r.store[0].slot == r.store[1].slot
  {
    var store := [Booking("2024-01-05", "Cleaning", "a@example.com", "9:00", 100)];
    var request := Booking("2024-01-05", "Cleaning", "b@example.com", "9:00", 100);
    assert !SameKey(store[0], request);
    assert !HasBooking(store, request);
  }

  /** Once a booking is inserted, its slot is no longer offered for its
      treatment on its date. */
  lemma InsertedSlotNoLongerOffered(options: seq<AppOption>, store: seq<Booking>, booking: Booking)
    requires Book(store, booking).response.bookings.Inserted?
    ensures var offered := Availability.Available(options, Book(store, booking).store, booking.appointmentDate);
            forall i :: 0 <= i < |options| && options[i].name == booking.treatmentName ==>
              booking.slot !in offered[i].slots
  {
  }
}
