# Doctor-portal booking service: slot availability and booking creation

This project models, in Dafny, the two request handlers of the doctor-portal
booking server that hold logic of their own, with the document store replaced
by in-memory sequences of records:

- **Slot availability** (`GET /appOptions?date=`). For a date, every entry of
  the appointment-option catalog is returned with its `slots` list reduced to
  the slots not yet booked for that treatment on that date. Matching is string
  equality. The order of the catalog and of each slot list is kept.
- **Booking creation** (`POST /bookings`). A booking is inserted unless the
  store already holds one with the same appointment date, patient email and
  treatment name. In that case the store is left alone and the reply carries
  the message `You already have a booking on <date>`. Both replies have
  `success: true`.

Modules:

- `Records` (`records.dfy`): the `AppOption` and `Booking` datatypes.
- `Subsequences` (`subsequences.dfy`): order-preserving subsequences and two
  facts about them.
- `Availability` (`availability.dfy`): the `/appOptions` computation and its
  properties.
- `BookingStore` (`booking_store.dfy`): the `/bookings` transition
  `(store, booking) -> (store', response)`, runs of such requests, and the
  one-booking-per-patient-treatment-day invariant.

The booking handler never checks whether the requested slot is still free.
Two patients can therefore book the same slot of the same treatment on the
same day. The model keeps this behaviour: `Book` consults only the
date/email/treatment key, and `SameSlotBookedByTwoPatients` exhibits a
second patient's request for an already-booked slot being inserted. Once a booking is inserted, its slot disappears
from what `Available` offers for that treatment and date
(`InsertedSlotNoLongerOffered`).

The store's generated identifier of an inserted booking is modelled as the
booking's position in the store sequence.

## Model

| member | source | states |
|---|---|---|
| Availability.OnDate | index.js:81-82 | The date query returns exactly the stored bookings whose `appointmentDate` is the requested date. |
| Availability.BookedSlots | index.js:86-87 | A slot value is in an option's booked list exactly when some booking of that date for the option's treatment name holds it. |
| Availability.Remaining | index.js:91 | No remaining slot is a booked value, and every unbooked slot value is kept as many times as the catalog lists it. |
| Availability.Available | index.js:77-99 | Built from the per-option helper `WithRemaining` (index.js:86-93). The catalog keeps its length, order, names and prices; each option's slots lose every slot taken on that date for its treatment and keep every other slot with its multiplicity. |
| Availability.RemainingIsSubsequence | index.js:91 | The remaining slots are an order-preserving subsequence of the catalog slots. |
| Availability.RemainingIsMaximal | index.js:91 | Every subsequence of the catalog slots that avoids the booked values is a subsequence of the remaining slots, so no free slot is dropped. |
| Availability.RemainingIsUnique | index.js:91 | The remaining slots are the only subsequence that drops all booked values and keeps all other values with their multiplicity. |
| Availability.RemainingCongruence | index.js:86-91 | The filter sees the booked values only through which catalog slots they hit; their order, repetition and values absent from the catalog do not matter. |
| Availability.AvailableIsSubsequence | index.js:85-93 | Each returned option's slots are a subsequence of that option's catalog slots. |
| Availability.AvailableIsUnique | index.js:85-93 | Each returned option's slots are the unique subsequence of its catalog slots that removes the slots taken for it on that date and keeps the rest. |
| Availability.AvailableDependsOnlyOnTaken | index.js:81-91 | Two booking stores that take the same catalog slots on that date for the same treatments give the same answer. |
| Availability.IrrelevantBookingIgnored | index.js:81-91 | Adding a booking for another date, for a treatment absent from the catalog, or for a slot its option does not list leaves the answer unchanged. |
| Availability.OtherTreatmentIgnored | index.js:86-91 | A booking for another treatment name leaves an option's slots unchanged, even when it hits a slot listed under its own treatment. |
| Availability.CleaningExample | index.js:77-99 | With "Cleaning" offering 9:00 and 10:00 and 9:00 booked on 2024-01-05, only 10:00 is offered that day. |
| BookingStore.MatchingBookings | index.js:121-128 | The duplicate query returns exactly the stored bookings with the same date, email and treatment, and is non-empty exactly when such a booking exists. |
| BookingStore.Book | index.js:119-142 | The refusal text comes from the helper `AlreadyBookedMessage` (index.js:131). The reply is a success. The old store is a prefix of the new one, and the new store holds a booking with the request's key. The request is refused with the date message, leaving the store alone, exactly when a colliding booking exists. Otherwise the store gains exactly the submitted booking, at the returned position. |
| BookingStore.BookAll | index.js:119-142 | Handling requests in sequence only appends to the store and only appends submitted bookings. |
| BookingStore.BookAllServesEveryRequest | index.js:119-142 | After a run of requests, the store holds a booking with every request's date, email and treatment, whether that request was inserted or refused. |
| BookingStore.BookKeepsInvariant | index.js:119-138 | One request keeps "no two stored bookings share date, email and treatment". |
| BookingStore.BookAllKeepsInvariant | index.js:119-138 | Any run of requests keeps that invariant; since every prefix of a run is itself a run, it holds after every step. |
| BookingStore.AtMostOneMatch | index.js:121-130 | Under the invariant the duplicate query finds at most one booking. |
| BookingStore.RepeatedRequestStoresOnce | index.js:121-138 | Sending the same booking twice leaves the store as the first request left it, the second request is refused with the message naming its date, and the duplicate query then finds exactly one booking. |
| BookingStore.MessageNamesDate | index.js:131 | The refusal message ends with the requested date, so different dates give different messages. |
| BookingStore.SameSlotBookedByTwoPatients | index.js:121-138 | With one patient's booking for 9:00 stored, another patient's request for the same treatment, date and slot is inserted: only date, email and treatment are compared. |
| BookingStore.InsertedSlotNoLongerOffered | index.js:86-93 | After a booking is inserted, its slot is no longer offered for its treatment on its date. |

## Left out

- Document-store access (connecting, `find`, `insertOne`, `findOne`) is replaced by sequences of records. Queries are modelled as exact string equality. The store's matching of a query value against array-valued fields, and against missing fields when the query value is undefined, is not modelled.
- Store failures and the `catch` branches of both handlers are not modelled. The `/bookings` catch branch also refers to an undefined variable. What keeps them out of the model is the record types: every catalog entry has a `slots` sequence and every field is a string or an integer, so nothing can make the filter at index.js:91 throw. In the server, a catalog document without a `slots` array makes that filter throw, and the handler replies `success: false` with the error message.
- The model assumes the request's date and body fields and every stored field are plain strings, and that every catalog entry has a `slots` array. The server passes the query parameter and the body fields into the store queries unchecked. Query-operator objects (for example `date[$ne]=...` or an `email` of `{"$ne": ""}`), arrays from repeated parameters and numbers are not modelled. Such inputs can make the date query return bookings of other dates, or make the duplicate query match another patient's booking.
- Catalog fields other than name, price and slots, such as the document identifier, pass through the server unchanged and are not modelled. `price` is an `int` here, though the server stores whatever JSON number it receives.
- The read-then-insert race in `POST /bookings` comes from concurrent requests. Only sequential handling is modelled.
- The store's generated document identifier is opaque. It is modelled as the position of the new booking.
- Token issuing and verification (`/jwt` and the `verifyJWT` middleware) are left out. The cryptography lives in an external library.
- `GET /bookings`, `POST /users` and `GET /users` are left out. They are plain reads and inserts with no logic of their own. The missing `return` after the 403 reply in `GET /bookings` belongs to that handler.
- HTTP routing, CORS, configuration loading, logging and the `listen` call are left out.
- Payment intents, payment recording and the doctor and admin endpoints are not part of this model. They are not in the modelled server file.
- Booking fields other than date, treatment, email, slot and price are not modelled. They play no part in the duplicate check. The server inserts the whole request body, and the store adds a generated `_id` when the body has none. A client-supplied `_id` that is already stored makes the insert fail with a duplicate-key error. That store failure is not modelled.
