/** The two record kinds the booking service reads and writes: entries of
    the appointment-option catalog and the bookings patients submit. The
    document store is replaced by plain sequences of these records. */
module Records {

  /** Appointment dates and time slots are the strings the client sends;
      they are only ever compared for equality. */
  type Date = string
  type Slot = string

  /** A catalog entry: a treatment name, its price, and the ordered list of
      time slots offered for it on any day. */
  datatype AppOption = AppOption(name: string, price: int, slots: seq<Slot>)

  /** A submitted booking: one slot of one treatment on one date, for the
      patient identified by `email`. */
  datatype Booking = Booking(
    appointmentDate: Date,
    treatmentName: string,
    email: string,
    slot: Slot,
    price: int
  )
}
