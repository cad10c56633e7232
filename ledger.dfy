/** The write side of the ledger: create_reservation and cancel_reservation
    (backend/main.py). Each runs as one sequential, atomic step; the row
    locks and the constraint-violation path of the database are not part of
    this model.

    The pure transitions Commit and CancelUpdate say what a successful call
    does to the tables; the lemmas about them carry the properties; the class
    Ledger holds the four tables as fields and its methods are proved to
    perform exactly those transitions. */
module Ledger {
  import opened LedgerTypes
  import opened SeqFacts
  import opened Availability
  import BookingReference

  /** Why create_reservation fails. The handler's catch-all re-wraps both, so
      only the kind is modelled, not the HTTP status. */
  datatype BookError = ShowtimeNotFound | SeatsUnavailable

  /** Why cancel_reservation fails. */
  datatype CancelError = ReservationNotFound | ShowtimePassed

  /** What a successful create_reservation returns: the seats are the rows
      of the seat check, not the ids as sent. */
  datatype Booking = Booking(
    id: ReservationId,
    reference: string,
    showtime: ShowtimeId,
    seats: seq<Seat>,
    totalCents: int,
    status: Status)

  /** The reservation_seats rows written for a booking, one per id sent, in order. */
  function ClaimRows(rid: ReservationId, st: ShowtimeId, seatIds: seq<SeatId>): (rows: seq<ReservationSeat>)
    ensures |rows| == |seatIds|
    ensures forall i :: 0 <= i < |rows| ==> rows[i] == ReservationSeat(rid, st, seatIds[i])
  {
    seq(|seatIds|, i requires 0 <= i < |seatIds| => ReservationSeat(rid, st, seatIds[i]))
  }

  /** The showtime lookup of create_reservation: it must exist, be active,
      and its theater row must exist (the query joins it). */
  predicate Bookable(t: Tables, st: ShowtimeId)
  {
    st in t.showtimes && t.showtimes[st].active && t.showtimes[st].theater in t.theaters
  }

  /** Storing reservation `res` under `rid` together with one row per seat id. */
  function Commit(t: Tables, rid: ReservationId, res: Reservation, seatIds: seq<SeatId>): Tables
  {
    t.(reservations := t.reservations[rid := res],
       claims := t.claims + ClaimRows(rid, res.showtime, seatIds))
  }

  /** The cancel lookup: the reservation exists, belongs to `user`, is
      confirmed, and its showtime row exists (the query joins it). */
  predicate Cancellable(t: Tables, rid: ReservationId, user: UserId)
  {
    && rid in t.reservations
    && t.reservations[rid].user == user
    && t.reservations[rid].status == Confirmed
    && t.reservations[rid].showtime in t.showtimes
  }

  /** A successful cancel flips the status; no reservation_seats row is touched. */
  function CancelUpdate(t: Tables, rid: ReservationId): Tables
    requires rid in t.reservations
  {
    t.(reservations := t.reservations[rid := t.reservations[rid].(status := Cancelled)])
  }

  // ---------------------------------------------------------------------------
  // Booking
  // ---------------------------------------------------------------------------

  /** Old rows keep their status under Commit: `rid` is fresh and every old
      row points at an existing reservation. */
  lemma CommitKeepsOldRowsActive(t: Tables, rid: ReservationId, res: Reservation, seatIds: seq<SeatId>, k: nat)
    requires ClaimsReferToReservations(t) && rid !in t.reservations
    requires k < |t.claims|
    ensures Commit(t, rid, res, seatIds).claims[k] == t.claims[k]
    ensures Active(Commit(t, rid, res, seatIds), t.claims[k]) == Active(t, t.claims[k])
  {
  }

  /** Booking preserves the ledger's invariants, in particular that no
      (showtime, seat) is held by two confirmed reservations, provided the
      ids sent are distinct and none is held for the showtime: exactly what
      a passing seat check guarantees. */
  lemma CommitKeepsConsistent(t: Tables, rid: ReservationId, res: Reservation, seatIds: seq<SeatId>)
    requires Consistent(t) && rid !in t.reservations
    requires Distinct(seatIds)
    requires forall i :: 0 <= i < |seatIds| ==> !Claimed(t, res.showtime, seatIds[i])
    ensures Consistent(Commit(t, rid, res, seatIds))
  {
    var u := Commit(t, rid, res, seatIds);
    var n := |t.claims|;
    forall k | 0 <= k < n ensures u.claims[k] == t.claims[k] && Active(u, u.claims[k]) == Active(t, t.claims[k]) {
      CommitKeepsOldRowsActive(t, rid, res, seatIds, k);
    }
    forall i, j | 0 <= i < j < |u.claims|
      ensures u.claims[i].showtime == u.claims[j].showtime && u.claims[i].seat == u.claims[j].seat
              ==> !(Active(u, u.claims[i]) && Active(u, u.claims[j]))
    {
      if j >= n && i >= n {
        assert u.claims[i].seat == seatIds[i - n] && u.claims[j].seat == seatIds[j - n];
      } else if j >= n {
        var seat := seatIds[j - n];
        assert u.claims[j] == ReservationSeat(rid, res.showtime, seat);
        assert t.claims[i].showtime == res.showtime && t.claims[i].seat == seat && Active(t, t.claims[i])
               ==> Claimed(t, res.showtime, seat);
      }
    }
    assert NoDoubleBookingIn(u, u.claims);
  }

  /** After a booking under a confirmed reservation every seat sent is held
      for the showtime. */
  lemma CommitClaimsSeats(t: Tables, rid: ReservationId, res: Reservation, seatIds: seq<SeatId>, i: nat)
    requires res.status == Confirmed && i < |seatIds|
    ensures Claimed(Commit(t, rid, res, seatIds), res.showtime, seatIds[i])
  {
    var u := Commit(t, rid, res, seatIds);
    assert u.claims[|t.claims| + i] == ReservationSeat(rid, res.showtime, seatIds[i]);
  }

  /** Booking changes the occupancy of no other (showtime, seat). */
  lemma CommitKeepsOtherClaims(t: Tables, rid: ReservationId, res: Reservation, seatIds: seq<SeatId>, st: ShowtimeId, seat: SeatId)
    requires ClaimsReferToReservations(t) && rid !in t.reservations
    requires st != res.showtime || seat !in seatIds
    ensures Claimed(Commit(t, rid, res, seatIds), st, seat) <==> Claimed(t, st, seat)
  {
    var u := Commit(t, rid, res, seatIds);
    var n := |t.claims|;
    if Claimed(u, st, seat) {
      var k :| 0 <= k < |u.claims| && u.claims[k].showtime == st && u.claims[k].seat == seat && Active(u, u.claims[k]);
      assert k < n;
      CommitKeepsOldRowsActive(t, rid, res, seatIds, k);
    }
    if Claimed(t, st, seat) {
      var k :| 0 <= k < n && t.claims[k].showtime == st && t.claims[k].seat == seat && Active(t, t.claims[k]);
      CommitKeepsOldRowsActive(t, rid, res, seatIds, k);
    }
  }

  lemma {:induction false} CountActiveAppend(t: Tables, st: ShowtimeId, a: seq<ReservationSeat>, b: seq<ReservationSeat>)
    ensures CountActive(t, st, a + b) == CountActive(t, st, a) + CountActive(t, st, b)
  {
    if a == [] {
      assert a + b == b;
    } else {
      assert (a + b)[1..] == a[1..] + b;
      CountActiveAppend(t, st, a[1..], b);
    }
  }

  lemma {:induction false} CountActiveSameStatus(t: Tables, u: Tables, st: ShowtimeId, cs: seq<ReservationSeat>)
    requires forall k :: 0 <= k < |cs| ==> Active(t, cs[k]) == Active(u, cs[k])
    ensures CountActive(t, st, cs) == CountActive(u, st, cs)
  {
    if cs != [] {
      CountActiveSameStatus(t, u, st, cs[1..]);
    }
  }

  lemma {:induction false} CountActiveOfRows(u: Tables, rid: ReservationId, st: ShowtimeId, showtime: ShowtimeId, seatIds: seq<SeatId>)
    ensures CountActive(u, st, ClaimRows(rid, showtime, seatIds)) ==
            if st == showtime && rid in u.reservations && u.reservations[rid].status == Confirmed then |seatIds| else 0
  {
    if seatIds != [] {
      assert ClaimRows(rid, showtime, seatIds)[1..] == ClaimRows(rid, showtime, seatIds[1..]);
      CountActiveOfRows(u, rid, st, showtime, seatIds[1..]);
    }
  }

  /** A confirmed booking lowers the showtime's remaining-seat count by the
      number of ids sent and leaves every other showtime's count alone. */
  lemma CommitLowersCount(t: Tables, rid: ReservationId, res: Reservation, seatIds: seq<SeatId>, st: ShowtimeId)
    requires ClaimsReferToReservations(t) && rid !in t.reservations
    requires res.status == Confirmed
    ensures var u := Commit(t, rid, res, seatIds);
            CountActive(u, st, u.claims) == CountActive(t, st, t.claims) + (if st == res.showtime then |seatIds| else 0)
  {
    var u := Commit(t, rid, res, seatIds);
    CountActiveAppend(u, st, t.claims, ClaimRows(rid, res.showtime, seatIds));
    forall k | 0 <= k < |t.claims| ensures Active(t, t.claims[k]) == Active(u, t.claims[k]) {
      CommitKeepsOldRowsActive(t, rid, res, seatIds, k);
    }
    CountActiveSameStatus(t, u, st, t.claims);
    CountActiveOfRows(u, rid, st, res.showtime, seatIds);
  }

  /** Sending the same non-empty seat list again after a successful booking
      fails the seat check: the seats are now held. */
  lemma RebookSameSeatsFails(t: Tables, rid: ReservationId, res: Reservation, seatIds: seq<SeatId>)
    requires SeatIdsUnique(t.seats) && res.status == Confirmed && seatIds != []
    ensures !SeatCheckPasses(Commit(t, rid, res, seatIds), res.showtime, seatIds)
  {
    var u := Commit(t, rid, res, seatIds);
    CommitClaimsSeats(t, rid, res, seatIds, 0);
    SeatCheckPassesIff(u, res.showtime, seatIds);
  }

  // ---------------------------------------------------------------------------
  // Cancelling
  // ---------------------------------------------------------------------------

  lemma CancelKeepsConsistent(t: Tables, rid: ReservationId)
    requires Consistent(t) && rid in t.reservations
    ensures Consistent(CancelUpdate(t, rid))
  {
    var u := CancelUpdate(t, rid);
    assert forall k :: 0 <= k < |t.claims| ==> (Active(u, t.claims[k]) ==> Active(t, t.claims[k]));
  }

  /** After a confirmed reservation is cancelled, every seat it held is free
      again for its showtime (no other confirmed reservation can hold it). */
  lemma CancelFreesSeats(t: Tables, rid: ReservationId, k: nat)
    requires NoDoubleBooking(t) && rid in t.reservations && t.reservations[rid].status == Confirmed
    requires k < |t.claims| && t.claims[k].reservation == rid
    ensures !Claimed(CancelUpdate(t, rid), t.claims[k].showtime, t.claims[k].seat)
  {
    var u := CancelUpdate(t, rid);
    var c := t.claims[k];
    forall m | 0 <= m < |u.claims| && u.claims[m].showtime == c.showtime && u.claims[m].seat == c.seat
      ensures !Active(u, u.claims[m])
    {
      if m < k {
        assert !(Active(t, t.claims[m]) && Active(t, t.claims[k]));
      } else if m > k {
        assert !(Active(t, t.claims[k]) && Active(t, t.claims[m]));
      }
    }
  }

  /** Cancelling changes no (showtime, seat) that the reservation does not hold. */
  lemma CancelKeepsOtherClaims(t: Tables, rid: ReservationId, st: ShowtimeId, seat: SeatId)
    requires rid in t.reservations
    requires forall k :: 0 <= k < |t.claims| && t.claims[k].reservation == rid ==> t.claims[k].showtime != st || t.claims[k].seat != seat
    ensures Claimed(CancelUpdate(t, rid), st, seat) <==> Claimed(t, st, seat)
  {
    var u := CancelUpdate(t, rid);
    if Claimed(t, st, seat) {
      var k :| 0 <= k < |t.claims| && t.claims[k].showtime == st && t.claims[k].seat == seat && Active(t, t.claims[k]);
      assert Active(u, u.claims[k]);
    }
  }

  /** Once the reservation holding a set of seats is cancelled, a new request for the same (distinct, existing) seats of
      the same showtime passes the seat check. */
  lemma CancelThenRebook(t: Tables, rid: ReservationId, seatIds: seq<SeatId>)
    requires Consistent(t) && rid in t.reservations && t.reservations[rid].status == Confirmed
    requires Distinct(seatIds)
    requires forall i :: 0 <= i < |seatIds| ==> IsSeat(t, seatIds[i])
    requires forall i :: 0 <= i < |seatIds| ==>
               exists k :: 0 <= k < |t.claims| && t.claims[k] == ReservationSeat(rid, t.reservations[rid].showtime, seatIds[i])
    ensures SeatCheckPasses(CancelUpdate(t, rid), t.reservations[rid].showtime, seatIds)
  {
    var u := CancelUpdate(t, rid);
    var st := t.reservations[rid].showtime;
    forall i | 0 <= i < |seatIds| ensures IsSeat(u, seatIds[i]) && !Claimed(u, st, seatIds[i]) {
      var k :| 0 <= k < |t.claims| && t.claims[k] == ReservationSeat(rid, st, seatIds[i]);
      CancelFreesSeats(t, rid, k);
    }
    SeatCheckPassesIff(u, st, seatIds);
  }

  /** Number of rows of `cs` that reservation `rid` holds for `st`. */
  function RowsOf(rid: ReservationId, st: ShowtimeId, cs: seq<ReservationSeat>): (n: nat)
    ensures n <= |cs|
  {
    if cs == [] then 0
    else (if cs[0].reservation == rid && cs[0].showtime == st then 1 else 0) + RowsOf(rid, st, cs[1..])
  }

  lemma {:induction false} CancelCountOf(t: Tables, rid: ReservationId, st: ShowtimeId, cs: seq<ReservationSeat>)
    requires rid in t.reservations && t.reservations[rid].status == Confirmed
    ensures CountActive(t, st, cs) == CountActive(CancelUpdate(t, rid), st, cs) + RowsOf(rid, st, cs)
  {
    if cs != [] {
      CancelCountOf(t, rid, st, cs[1..]);
    }
  }

  /** Cancelling a confirmed reservation raises each showtime's
      remaining-seat count by the number of rows the reservation holds for it. */
  lemma CancelRaisesCount(t: Tables, rid: ReservationId, st: ShowtimeId)
    requires rid in t.reservations && t.reservations[rid].status == Confirmed
    ensures var u := CancelUpdate(t, rid);
            CountActive(u, st, u.claims) == CountActive(t, st, t.claims) - RowsOf(rid, st, t.claims)
  {
    CancelCountOf(t, rid, st, t.claims);
  }

  /** Two one-seat theaters, a showtime in the first, and no reservations. */
  function DriftBefore(): Tables
  {
    Tables(map[0 := Theater(1), 1 := Theater(1)],
           map[0 := Showtime(0, 0, 500, true)],
           [Seat(0, 0, "A", 1, Standard), Seat(1, 1, "A", 1, Standard)],
           map[], [])
  }

  /** The tables after booking the second theater's seat for that showtime. */
  function DriftAfter(): Tables
  {
    Commit(DriftBefore(), 0, Reservation(0, 0, 500, "AAAAAAAAAA", Confirmed), [1])
  }

  lemma DriftBookingAccepted()
    ensures Bookable(DriftBefore(), 0) && SeatCheckPasses(DriftBefore(), 0, [1])
  {
    var t := DriftBefore();
    assert IsSeat(t, 1) by { assert t.seats[1].id == 1; }
    SeatCheckPassesIff(t, 0, [1]);
  }

  lemma DriftCounts()
    ensures ListedAvailableSeats(DriftBefore(), 0) == Some(1)
    ensures ListedAvailableSeats(DriftAfter(), 0) == Some(0)
  {
    CommitLowersCount(DriftBefore(), 0, Reservation(0, 0, 500, "AAAAAAAAAA", Confirmed), [1], 0);
  }

  lemma DriftListing()
    ensures SeatListing(DriftAfter(), 0) == [SeatView(0, "A", 1, Standard, true)]
  {
    var u := DriftAfter();
    assert u.claims == [ReservationSeat(0, 0, 1)];
    assert !Claimed(u, 0, 0);
    var v := SeatView(0, "A", 1, Standard, true);
    assert TheaterViews(u, 0, 0, u.seats[1..]) == [];
    assert TheaterViews(u, 0, 0, u.seats) == [v];
    var r := SeatListing(u, 0);
    assert forall w :: w in r <==> w == v;
  }

  /** The seat check does not look at a seat's theater, so a booking may
      claim a seat of another theater. The listing's remaining-seat count
      then drops although every seat the seat listing shows is still
      available: here a one-seat theater is listed with no seat left while
      its only seat is shown as free. */
  lemma ForeignSeatDrift()
    ensures Bookable(DriftBefore(), 0) && SeatCheckPasses(DriftBefore(), 0, [1])
    ensures DriftBefore().seats[1].theater != DriftBefore().showtimes[0].theater
    ensures ListedAvailableSeats(DriftBefore(), 0) == Some(1)
    ensures ListedAvailableSeats(DriftAfter(), 0) == Some(0)
    ensures SeatListing(DriftAfter(), 0) == [SeatView(0, "A", 1, Standard, true)]
  {
    DriftBookingAccepted();
    DriftCounts();
    DriftListing();
  }

  // ---------------------------------------------------------------------------
  // The stateful ledger
  // ---------------------------------------------------------------------------

  class Ledger {
    var theaters: map<TheaterId, Theater>
    var showtimes: map<ShowtimeId, Showtime>
    var seats: seq<Seat>
    var reservations: map<ReservationId, Reservation>
    var claims: seq<ReservationSeat>
    /** The database's id generator for new reservations. */
    var nextReservationId: ReservationId

    function Snapshot(): Tables
      reads this
    {
      Tables(theaters, showtimes, seats, reservations, claims)
    }

    ghost predicate Valid()
      reads this
    {
      && Consistent(Snapshot())
      && forall r :: r in reservations ==> r < nextReservationId
    }

    /** A ledger over a given catalogue, with no reservations yet. */
    constructor (theaters: map<TheaterId, Theater>, showtimes: map<ShowtimeId, Showtime>, seats: seq<Seat>)
      requires SeatIdsUnique(seats)
      ensures Valid()
      ensures Snapshot() == Tables(theaters, showtimes, seats, map[], [])
    {
      this.theaters := theaters;
      this.showtimes := showtimes;
      this.seats := seats;
      this.reservations := map[];
      this.claims := [];
      this.nextReservationId := 0;
    }

    /** create_reservation. `draws` are the random choices of the booking
        reference generator. */
    method Book(user: UserId, st: ShowtimeId, seatIds: seq<SeatId>, draws: seq<BookingReference.Draw>)
      returns (result: Result<Booking, BookError>)
      requires Valid() && |draws| == BookingReference.ReferenceLength
      modifies this
      ensures Valid()
      ensures result == Failure(ShowtimeNotFound) <==> !Bookable(old(Snapshot()), st)
      ensures result == Failure(SeatsUnavailable) <==>
                Bookable(old(Snapshot()), st) && !SeatCheckPasses(old(Snapshot()), st, seatIds)
      ensures result.Failure? ==> unchanged(this)
      ensures result.Success? ==>
                var b := result.value;
                && b.id == old(nextReservationId) && b.id !in old(reservations)
                && b.reference == BookingReference.Generate(draws)
                && b.showtime == st && b.status == Confirmed
                && b.totalCents == Charge(old(Snapshot()), st, seatIds)
                && b.seats == SeatCheck(old(Snapshot()), st, seatIds)
                && Snapshot() == Commit(old(Snapshot()), b.id, Reservation(user, st, b.totalCents, b.reference, Confirmed), seatIds)
                && nextReservationId == old(nextReservationId) + 1
    {
      if !(st in showtimes && showtimes[st].active && showtimes[st].theater in theaters) {
        return Failure(ShowtimeNotFound);
      }
      var found := SeatCheck(Snapshot(), st, seatIds);
      if |found| != |seatIds| {
        return Failure(SeatsUnavailable);
      }
      SeatCheckPassesIff(Snapshot(), st, seatIds);
      var total := showtimes[st].priceCents * |seatIds|;
      var reference := BookingReference.Generate(draws);
      var rid := nextReservationId;
      var res := Reservation(user, st, total, reference, Confirmed);
      ghost var before := Snapshot();
      CommitKeepsConsistent(before, rid, res, seatIds);

      reservations := reservations[rid := res];
      nextReservationId := nextReservationId + 1;
      var i := 0;
      while i < |seatIds|
        invariant 0 <= i <= |seatIds|
        invariant claims == before.claims + ClaimRows(rid, st, seatIds[..i])
        invariant theaters == before.theaters && showtimes == before.showtimes && seats == before.seats
        invariant reservations == before.reservations[rid := res]
        invariant nextReservationId == rid + 1
      {
        assert ClaimRows(rid, st, seatIds[..i + 1]) == ClaimRows(rid, st, seatIds[..i]) + [ReservationSeat(rid, st, seatIds[i])];
        claims := claims + [ReservationSeat(rid, st, seatIds[i])];
        i := i + 1;
      }
      assert seatIds[..i] == seatIds;
      return Success(Booking(rid, reference, st, found, total, Confirmed));
    }

    /** cancel_reservation, at instant `now`. A show that starts exactly now
        can still be cancelled. */
    method Cancel(rid: ReservationId, user: UserId, now: int) returns (result: Outcome<CancelError>)
      requires Valid()
      modifies this
      ensures Valid()
      ensures result == Fail(ReservationNotFound) <==> !Cancellable(old(Snapshot()), rid, user)
      ensures result == Fail(ShowtimePassed) <==>
                Cancellable(old(Snapshot()), rid, user) && old(showtimes[reservations[rid].showtime].start) < now
      ensures result.Fail? ==> unchanged(this)
      ensures result.Pass? ==>
                Snapshot() == CancelUpdate(old(Snapshot()), rid) && nextReservationId == old(nextReservationId)
    {
      if !(rid in reservations && reservations[rid].user == user && reservations[rid].status == Confirmed
           && reservations[rid].showtime in showtimes) {
        return Fail(ReservationNotFound);
      }
      if showtimes[reservations[rid].showtime].start < now {
        return Fail(ShowtimePassed);
      }
      CancelKeepsConsistent(Snapshot(), rid);
      reservations := reservations[rid := reservations[rid].(status := Cancelled)];
      return Pass;
    }
  }
}
