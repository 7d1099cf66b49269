/** The slot-availability computation behind `GET /appOptions?date=`
    (index.js:70-109): each catalog option's slot list, minus the slots
    already booked for that treatment on the requested date. */
module Availability {
  import opened Records
  import opened Subsequences

  /** True when some booking on `date` for treatment `name` holds `slot`. */
  predicate Taken(bookings: seq<Booking>, date: Date, name: string, slot: Slot) {
    exists b :: b in bookings && b.appointmentDate == date && b.treatmentName == name && b.slot == slot
  }

  /** The bookings returned by the `{ appointmentDate: date }` query
      (index.js:81-82), in store order. */
  function OnDate(bookings: seq<Booking>, date: Date): (r: seq<Booking>)
    ensures forall b :: b in r <==> b in bookings && b.appointmentDate == date
  {
    if |bookings| == 0 then []
    else if bookings[0].appointmentDate == date then [bookings[0]] + OnDate(bookings[1..], date)
    else OnDate(bookings[1..], date)
  }

  /** The slot values of those bookings whose treatment is `name`
      (index.js:86-87). */
  function BookedSlots(prevBooked: seq<Booking>, name: string): (r: seq<Slot>)
    ensures forall s :: s in r <==> exists b :: b in prevBooked && b.treatmentName == name && b.slot == s
  {
    if |prevBooked| == 0 then []
    else if prevBooked[0].treatmentName == name then [prevBooked[0].slot] + BookedSlots(prevBooked[1..], name)
    else BookedSlots(prevBooked[1..], name)
  }

  /** The slots of `slots` that do not occur in `booked`, in their original
      order (index.js:91). Repeated entries of a free slot are all kept.
      The first postcondition follows from the second; it is stated for
      callers that only need membership. */
  function Remaining(slots: seq<Slot>, booked: seq<Slot>): (r: seq<Slot>)
    ensures forall x :: x in r ==> x !in booked
    ensures forall x :: multiset(r)[x] == if x in booked then 0 else multiset(slots)[x]
  {
    if |slots| == 0 then []
    else
      assert slots == [slots[0]] + slots[1..];
      if slots[0] in booked then Remaining(slots[1..], booked)
      else [slots[0]] + Remaining(slots[1..], booked)
  }

  /** One option with its `slots` replaced by the remaining ones
      (index.js:86-93). */
  function WithRemaining(option: AppOption, prevBooked: seq<Booking>): AppOption {
    option.(slots := Remaining(option.slots, BookedSlots(prevBooked, option.name)))
  }

  /** The whole catalog as the handler returns it for `date`
      (index.js:77-99). */
  function Available(options: seq<AppOption>, bookings: seq<Booking>, date: Date): (r: seq<AppOption>)
    ensures |r| == |options|
    ensures forall i :: 0 <= i < |r| ==> r[i].name == options[i].name && r[i].price == options[i].price
    ensures forall i, x :: 0 <= i < |r| && x in r[i].slots ==> !Taken(bookings, date, options[i].name, x)
    ensures forall i, x :: 0 <= i < |r| ==>
      multiset(r[i].slots)[x] == if Taken(bookings, date, options[i].name, x) then 0 else multiset(options[i].slots)[x]
  {
    var prevBooked := OnDate(bookings, date);
    seq(|options|, i requires 0 <= i < |options| => WithRemaining(options[i], prevBooked))
  }

  /** The remaining slots are an order-preserving subsequence of the
      original ones. */
  lemma {:induction false} RemainingIsSubsequence(slots: seq<Slot>, booked: seq<Slot>)
    ensures Subseq(Remaining(slots, booked), slots)
    decreases |slots|
  {
    if |slots| > 0 {
      RemainingIsSubsequence(slots[1..], booked);
    }
  }

  /** Every subsequence of `slots` that avoids the booked values is a
      subsequence of the remaining slots: nothing free is dropped. */
  lemma {:induction false} RemainingIsMaximal(t: seq<Slot>, slots: seq<Slot>, booked: seq<Slot>)
    requires Subseq(t, slots)
    requires forall x :: x in t ==> x !in booked
    ensures Subseq(t, Remaining(slots, booked))
    decreases |slots|
  {
    if |t| > 0 {
      var rest := Remaining(slots[1..], booked);
      if t[0] == slots[0] && Subseq(t[1..], slots[1..]) {
        assert t[0] in t;
        RemainingIsMaximal(t[1..], slots[1..], booked);
        assert Remaining(slots, booked) == [slots[0]] + rest;
      } else {
        RemainingIsMaximal(t, slots[1..], booked);
        if slots[0] !in booked {
          assert Remaining(slots, booked)[1..] == rest;
        }
      }
    }
  }

  /** The remaining slots are the only subsequence of `slots` that drops
      every booked value and keeps every other value as often as it occurs. */
  lemma RemainingIsUnique(t: seq<Slot>, slots: seq<Slot>, booked: seq<Slot>)
    requires Subseq(t, slots)
    requires forall x :: x in t ==> x !in booked
    requires forall x :: x !in booked ==> multiset(t)[x] == multiset(slots)[x]
    ensures t == Remaining(slots, booked)
  {
    var r := Remaining(slots, booked);
    RemainingIsMaximal(t, slots, booked);
    assert multiset(t) == multiset(r) by {
      forall x ensures multiset(t)[x] == multiset(r)[x] {
        if x in booked {
          assert x !in t;
        }
      }
    }
    assert |t| == |r| by {
      assert |multiset(t)| == |t|;
      assert |multiset(r)| == |r|;
    }
    SubseqOfSameLength(t, r);
  }

  /** `Remaining` looks at the booked values only through which catalog
      slots they hit: order, repetition and values absent from `slots` do
      not matter. */
  lemma {:induction false} RemainingCongruence(slots: seq<Slot>, b1: seq<Slot>, b2: seq<Slot>)
    requires forall x :: x in slots ==> (x in b1 <==> x in b2)
    ensures Remaining(slots, b1) == Remaining(slots, b2)
    decreases |slots|
  {
    if |slots| > 0 {
      assert slots[0] in slots;
      RemainingCongruence(slots[1..], b1, b2);
    }
  }

  /** Each option's returned slots are a subsequence of its catalog slots. */
  lemma AvailableIsSubsequence(options: seq<AppOption>, bookings: seq<Booking>, date: Date)
    ensures forall i :: 0 <= i < |options| ==>
      Subseq(Available(options, bookings, date)[i].slots, options[i].slots)
  {
    forall i | 0 <= i < |options|
      ensures Subseq(Available(options, bookings, date)[i].slots, options[i].slots)
    {
      var prevBooked := OnDate(bookings, date);
      RemainingIsSubsequence(options[i].slots, BookedSlots(prevBooked, options[i].name));
    }
  }

  /** An option's returned slots are exactly the subsequence of its catalog
      slots that drops every slot taken on `date` for its treatment and
      keeps each other slot as many times as the catalog lists it. */
  lemma AvailableIsUnique(options: seq<AppOption>, bookings: seq<Booking>, date: Date, i: nat, t: seq<Slot>)
    requires i < |options|
    requires Subseq(t, options[i].slots)
    requires forall x :: x in t ==> !Taken(bookings, date, options[i].name, x)
    requires forall x :: !Taken(bookings, date, options[i].name, x) ==> multiset(t)[x] == multiset(options[i].slots)[x]
    ensures t == Available(options, bookings, date)[i].slots
  {
    var booked := BookedSlots(OnDate(bookings, date), options[i].name);
    assert forall x :: x in booked <==> Taken(bookings, date, options[i].name, x);
    RemainingIsUnique(t, options[i].slots, booked);
  }

  /** The result depends on the bookings only through which catalog slots
      are taken on `date` for each option's treatment. */
  lemma AvailableDependsOnlyOnTaken(options: seq<AppOption>, bk1: seq<Booking>, bk2: seq<Booking>, date: Date)
    requires forall i, x :: 0 <= i < |options| && x in options[i].slots ==>
      (Taken(bk1, date, options[i].name, x) <==> Taken(bk2, date, options[i].name, x))
    ensures Available(options, bk1, date) == Available(options, bk2, date)
  {
    var r1 := Available(options, bk1, date);
    var r2 := Available(options, bk2, date);
    forall i | 0 <= i < |options| ensures r1[i] == r2[i] {
      var s1 := BookedSlots(OnDate(bk1, date), options[i].name);
      var s2 := BookedSlots(OnDate(bk2, date), options[i].name);
      forall x | x in options[i].slots ensures x in s1 <==> x in s2 {
        assert x in s1 <==> Taken(bk1, date, options[i].name, x);
        assert x in s2 <==> Taken(bk2, date, options[i].name, x);
      }
      RemainingCongruence(options[i].slots, s1, s2);
    }
  }

  /** A booking on another date, for a treatment no option carries, or for
      a slot its option does not list, leaves the answer unchanged. */
  lemma IrrelevantBookingIgnored(options: seq<AppOption>, bookings: seq<Booking>, date: Date, b: Booking)
    requires b.appointmentDate != date
      || forall i :: 0 <= i < |options| && options[i].name == b.treatmentName ==> b.slot !in options[i].slots
    ensures Available(options, bookings + [b], date) == Available(options, bookings, date)
  {
    forall i, x | 0 <= i < |options| && x in options[i].slots
      ensures Taken(bookings + [b], date, options[i].name, x) <==> Taken(bookings, date, options[i].name, x)
    {
      if Taken(bookings + [b], date, options[i].name, x) {
        var c :| c in bookings + [b] && c.appointmentDate == date && c.treatmentName == options[i].name && c.slot == x;
        if c != b {
          assert c in bookings;
        }
      }
    }
    AvailableDependsOnlyOnTaken(options, bookings + [b], bookings, date);
  }

  /** A booking for another treatment leaves an option's slots unchanged,
      even when that booking hits a slot the other treatment lists. */
  lemma OtherTreatmentIgnored(options: seq<AppOption>, bookings: seq<Booking>, date: Date, b: Booking, i: nat)
    requires i < |options|
    requires b.treatmentName != options[i].name
    ensures Available(options, bookings + [b], date)[i].slots == Available(options, bookings, date)[i].slots
  {
    var t := Available(options, bookings, date)[i].slots;
    forall x ensures Taken(bookings + [b], date, options[i].name, x) <==> Taken(bookings, date, options[i].name, x) {
      if Taken(bookings + [b], date, options[i].name, x) {
        var c :| c in bookings + [b] && c.appointmentDate == date && c.treatmentName == options[i].name && c.slot == x;
        assert c != b;
        assert c in bookings;
      }
    }
    AvailableIsSubsequence(options, bookings, date);
    AvailableIsUnique(options, bookings + [b], date, i, t);
  }

  /** The worked example: "Cleaning" offers 9:00 and 10:00, and 9:00 is
      booked on 2024-01-05, so only 10:00 is offered that day. */
  lemma CleaningExample()
    ensures Available([AppOption("Cleaning", 100, ["9:00", "10:00"])],
                      [Booking("2024-01-05", "Cleaning", "pat@example.com", "9:00", 100)],
                      "2024-01-05")
            == [AppOption("Cleaning", 100, ["10:00"])]
  {
    var options := [AppOption("Cleaning", 100, ["9:00", "10:00"])];
    var bookings := [Booking("2024-01-05", "Cleaning", "pat@example.com", "9:00", 100)];
    assert OnDate(bookings, "2024-01-05") == bookings;
    var booked := BookedSlots(bookings, "Cleaning");
    assert booked == ["9:00"];
    assert "10:00" !in booked;
    assert Remaining(["9:00", "10:00"], booked) == ["10:00"];
  }
}
