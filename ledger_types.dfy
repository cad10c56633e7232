/** The reservation ledger's tables and the occupancy relation derived from them.

    The database holds theaters, showtimes, seats, reservations and
    reservation_seats. Identifiers are abstract natural numbers (the database
    uses UUIDs), prices are integer cents, and a show's date and time are one
    abstract instant `start`. */
module LedgerTypes {

  type UserId = nat
  type TheaterId = nat
  type ShowtimeId = nat
  type SeatId = nat
  type ReservationId = nat

  datatype Result<+T, +E> = Success(value: T) | Failure(error: E)

  datatype Outcome<+E> = Pass | Fail(error: E)

  datatype Option<+T> = None | Some(value: T)

  datatype SeatKind = Standard | Premium | Vip

  /** `totalSeats` is the theater's own column, not a count of its seat rows. */
  datatype Theater = Theater(totalSeats: int)

  /** `priceCents` may be negative: nothing in the source rejects a negative price. */
  datatype Showtime = Showtime(theater: TheaterId, start: int, priceCents: int, active: bool)

  datatype Seat = Seat(id: SeatId, theater: TheaterId, row: string, number: int, kind: SeatKind)

  datatype Status = Confirmed | Cancelled

  datatype Reservation = Reservation(
    user: UserId,
    showtime: ShowtimeId,
    totalCents: int,
    reference: string,
    status: Status)

  /** One reservation_seats row: `reservation` claims `seat` for `showtime`. */
  datatype ReservationSeat = ReservationSeat(reservation: ReservationId, showtime: ShowtimeId, seat: SeatId)

  /** A snapshot of the tables. The seats and reservation_seats tables are
      sequences of rows; showtimes, theaters and reservations are keyed by id. */
  datatype Tables = Tables(
    theaters: map<TheaterId, Theater>,
    showtimes: map<ShowtimeId, Showtime>,
    seats: seq<Seat>,
    reservations: map<ReservationId, Reservation>,
    claims: seq<ReservationSeat>)

  /** What the seat listing returns for one seat (SeatResponse). */
  datatype SeatView = SeatView(id: SeatId, row: string, number: int, kind: SeatKind, available: bool)

  /** A reservation_seats row counts only while its reservation is confirmed. */
  predicate Active(t: Tables, c: ReservationSeat)
  {
    c.reservation in t.reservations && t.reservations[c.reservation].status == Confirmed
  }

  /** Some confirmed reservation holds `seat` for `st`. */
  predicate Claimed(t: Tables, st: ShowtimeId, seat: SeatId)
  {
    exists k :: 0 <= k < |t.claims| && t.claims[k].showtime == st && t.claims[k].seat == seat && Active(t, t.claims[k])
  }

  /** No two rows of `cs` hold the same seat for the same showtime under
      confirmed reservations. */
  predicate NoDoubleBookingIn(t: Tables, cs: seq<ReservationSeat>)
  {
    forall i, j ::
      0 <= i < j < |cs| && cs[i].showtime == cs[j].showtime && cs[i].seat == cs[j].seat
      ==> !(Active(t, cs[i]) && Active(t, cs[j]))
  }

  /** The core invariant: for each (showtime, seat) at most one
      reservation_seats row belongs to a confirmed reservation. */
  predicate NoDoubleBooking(t: Tables)
  {
    NoDoubleBookingIn(t, t.claims)
  }

  /** Every reservation_seats row points at a stored reservation for the same showtime. */
  predicate ClaimsReferToReservations(t: Tables)
  {
    forall k :: 0 <= k < |t.claims| ==>
      t.claims[k].reservation in t.reservations && t.reservations[t.claims[k].reservation].showtime == t.claims[k].showtime
  }

  /** The seats table's primary key. */
  predicate SeatIdsUnique(seats: seq<Seat>)
  {
    forall i, j :: 0 <= i < j < |seats| ==> seats[i].id != seats[j].id
  }

  predicate Consistent(t: Tables)
  {
    NoDoubleBooking(t) && ClaimsReferToReservations(t) && SeatIdsUnique(t.seats)
  }

  /** What create_reservation charges for `seatIds` at showtime `st`: the
      showtime's price once per id sent. */
  function Charge(t: Tables, st: ShowtimeId, seatIds: seq<SeatId>): int
    requires st in t.showtimes
  {
    t.showtimes[st].priceCents * |seatIds|
  }

  predicate IsSeat(t: Tables, id: SeatId)
  {
    exists i :: 0 <= i < |t.seats| && t.seats[i].id == id
  }

}
