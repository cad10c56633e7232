/** The read side of the ledger: which requested seats are free, the seat
    listing of a showtime, and the remaining-seat count of the showtime
    listing. None of these is stored; each is derived from the tables. */
module Availability {
  import opened LedgerTypes
  import opened SeqFacts
  import Sorting

  // ---------------------------------------------------------------------------
  // The seat check of create_reservation
  // ---------------------------------------------------------------------------

  /** Rows of `rows` whose id was requested and that no confirmed
      reservation holds for `st`, in table order. A requested id that
      appears twice still selects its row once. */
  function FreeRequested(t: Tables, st: ShowtimeId, seatIds: seq<SeatId>, rows: seq<Seat>): (r: seq<Seat>)
    ensures forall s :: s in r <==> s in rows && s.id in seatIds && !Claimed(t, st, s.id)
    ensures |r| <= |rows|
  {
    if rows == [] then []
    else
      assert rows == [rows[0]] + rows[1..];
      (if rows[0].id in seatIds && !Claimed(t, st, rows[0].id) then [rows[0]] else [])
      + FreeRequested(t, st, seatIds, rows[1..])
  }

  /** The rows the seat check returns. */
  function SeatCheck(t: Tables, st: ShowtimeId, seatIds: seq<SeatId>): seq<Seat>
  {
    FreeRequested(t, st, seatIds, t.seats)
  }

  /** Booking goes ahead only when the seat check returns one row per id sent. */
  predicate SeatCheckPasses(t: Tables, st: ShowtimeId, seatIds: seq<SeatId>)
  {
    |SeatCheck(t, st, seatIds)| == |seatIds|
  }

  function IdsOf(rows: seq<Seat>): seq<SeatId>
  {
    seq(|rows|, i requires 0 <= i < |rows| => rows[i].id)
  }

  lemma {:induction false} FreeRequestedUnique(t: Tables, st: ShowtimeId, seatIds: seq<SeatId>, rows: seq<Seat>)
    requires SeatIdsUnique(rows)
    ensures SeatIdsUnique(FreeRequested(t, st, seatIds, rows))
  {
    if rows != [] {
      FreeRequestedUnique(t, st, seatIds, rows[1..]);
      var rest := FreeRequested(t, st, seatIds, rows[1..]);
      forall k | 0 <= k < |rest| ensures rest[k].id != rows[0].id {
        assert rest[k] in rows[1..];
        var m :| 0 <= m < |rows[1..]| && rows[1..][m] == rest[k];
        assert rows[m + 1] == rest[k];
      }
    }
  }

  /** The requested ids that name a seat not held for `st`. */
  ghost function FreeIds(t: Tables, st: ShowtimeId, seatIds: seq<SeatId>): set<SeatId>
  {
    set x | x in seatIds && IsSeat(t, x) && !Claimed(t, st, x)
  }

  /** The seat check returns one row per free requested id. */
  lemma SeatCheckCount(t: Tables, st: ShowtimeId, seatIds: seq<SeatId>)
    requires SeatIdsUnique(t.seats)
    ensures |SeatCheck(t, st, seatIds)| == |FreeIds(t, st, seatIds)|
  {
    var rows := SeatCheck(t, st, seatIds);
    FreeRequestedUnique(t, st, seatIds, t.seats);
    var ids := IdsOf(rows);
    DistinctCard(ids);
    var good := FreeIds(t, st, seatIds);
    forall x | x in good ensures x in ToSet(ids) {
      var i :| 0 <= i < |t.seats| && t.seats[i].id == x;
      assert t.seats[i] in rows;
      var k :| 0 <= k < |rows| && rows[k] == t.seats[i];
      assert ids[k] == x;
    }
    forall x | x in ToSet(ids) ensures x in good {
      var k :| 0 <= k < |ids| && ids[k] == x;
      assert rows[k] in t.seats;
      var i :| 0 <= i < |t.seats| && t.seats[i] == rows[k];
    }
    assert ToSet(ids) == good;
  }

  /** The seat check passes exactly when the ids sent are pairwise
      different, each names a seat, and no confirmed reservation holds any
      of them for the showtime. The seat's theater is not consulted. */
  lemma SeatCheckPassesIff(t: Tables, st: ShowtimeId, seatIds: seq<SeatId>)
    requires SeatIdsUnique(t.seats)
    ensures SeatCheckPasses(t, st, seatIds) <==>
              && Distinct(seatIds)
              && forall i :: 0 <= i < |seatIds| ==> IsSeat(t, seatIds[i]) && !Claimed(t, st, seatIds[i])
  {
    SeatCheckCount(t, st, seatIds);
    DistinctCard(seatIds);
    var good := FreeIds(t, st, seatIds);
    assert good <= ToSet(seatIds);
    SubsetCard(good, ToSet(seatIds));
    if Distinct(seatIds) && forall i :: 0 <= i < |seatIds| ==> IsSeat(t, seatIds[i]) && !Claimed(t, st, seatIds[i]) {
      assert ToSet(seatIds) <= good;
      assert good == ToSet(seatIds);
    }
    if SeatCheckPasses(t, st, seatIds) {
      assert |good| == |ToSet(seatIds)| == |seatIds|;
      assert good == ToSet(seatIds);
      forall i | 0 <= i < |seatIds| ensures IsSeat(t, seatIds[i]) && !Claimed(t, st, seatIds[i]) {
        assert seatIds[i] in ToSet(seatIds);
      }
    }
  }

  // ---------------------------------------------------------------------------
  // get_showtime_seats
  // ---------------------------------------------------------------------------

  function View(t: Tables, st: ShowtimeId, s: Seat): SeatView
  {
    SeatView(s.id, s.row, s.number, s.kind, !Claimed(t, st, s.id))
  }

  /** The seats of `theater` among `rows`, each with its availability for `st`. */
  function TheaterViews(t: Tables, st: ShowtimeId, theater: TheaterId, rows: seq<Seat>): (r: seq<SeatView>)
    ensures forall v :: v in r <==> exists s :: s in rows && s.theater == theater && v == View(t, st, s)
  {
    if rows == [] then []
    else
      assert rows == [rows[0]] + rows[1..];
      (if rows[0].theater == theater then [View(t, st, rows[0])] else [])
      + TheaterViews(t, st, theater, rows[1..])
  }

  /** ORDER BY row_label, seat_number. */
  predicate ListingOrder(a: SeatView, b: SeatView)
  {
    if a.row == b.row then a.number <= b.number else Sorting.StrLe(a.row, b.row)
  }

  lemma ListingOrderIsTotalPreorder()
    ensures Sorting.TotalPreorder(ListingOrder)
  {
    forall a: SeatView, b: SeatView ensures ListingOrder(a, b) || ListingOrder(b, a) {
      Sorting.StrLeTotal(a.row, b.row);
    }
    forall a: SeatView, b: SeatView, c: SeatView | ListingOrder(a, b) && ListingOrder(b, c)
      ensures ListingOrder(a, c)
    {
      if a.row != b.row && b.row != c.row {
        Sorting.StrLeTransitive(a.row, b.row, c.row);
        if a.row == c.row {
          Sorting.StrLeAntisymmetric(a.row, b.row);
        }
      }
    }
  }

  /** The seat listing of a showtime: exactly the seats of its theater,
      sorted by row label then seat number, each available iff no confirmed
      reservation holds it for this showtime. An unknown showtime yields an
      empty listing; whether the showtime is active is not consulted. */
  function SeatListing(t: Tables, st: ShowtimeId): (r: seq<SeatView>)
    ensures st !in t.showtimes ==> r == []
    ensures st in t.showtimes ==>
              forall v :: v in r <==> exists s :: s in t.seats && s.theater == t.showtimes[st].theater && v == View(t, st, s)
    ensures forall i :: 0 <= i < |r| ==> (r[i].available <==> !Claimed(t, st, r[i].id))
    ensures Sorting.SortedBy(r, ListingOrder)
  {
    if st !in t.showtimes then []
    else
      var views := TheaterViews(t, st, t.showtimes[st].theater, t.seats);
      ListingOrderIsTotalPreorder();
      Sorting.InsertionSortSorted(views, ListingOrder);
      var r := Sorting.InsertionSort(views, ListingOrder);
      assert forall v :: v in r <==> v in views by {
        assert forall v :: v in r <==> v in multiset(r);
        assert forall v :: v in views <==> v in multiset(views);
      }
      assert forall i :: 0 <= i < |r| ==> (r[i].available <==> !Claimed(t, st, r[i].id)) by {
        forall i | 0 <= i < |r| ensures r[i].available <==> !Claimed(t, st, r[i].id) {
          assert r[i] in views;
          var s :| s in t.seats && s.theater == t.showtimes[st].theater && r[i] == View(t, st, s);
        }
      }
      r
  }

  /** Views of seats with pairwise different ids have pairwise different ids. */
  lemma {:induction false} TheaterViewsUnique(t: Tables, st: ShowtimeId, theater: TheaterId, rows: seq<Seat>)
    requires SeatIdsUnique(rows)
    ensures forall i, j :: 0 <= i < j < |TheaterViews(t, st, theater, rows)| ==>
              TheaterViews(t, st, theater, rows)[i].id != TheaterViews(t, st, theater, rows)[j].id
  {
    if rows != [] {
      var tail := rows[1..];
      assert SeatIdsUnique(tail) by {
        forall i, j | 0 <= i < j < |tail| ensures tail[i].id != tail[j].id {
          assert tail[i] == rows[i + 1] && tail[j] == rows[j + 1];
        }
      }
      TheaterViewsUnique(t, st, theater, tail);
      var rest := TheaterViews(t, st, theater, tail);
      forall k | 0 <= k < |rest| ensures rest[k].id != rows[0].id {
        assert rest[k] in rest;
        var s :| s in tail && s.theater == theater && rest[k] == View(t, st, s);
        var m :| 0 <= m < |tail| && tail[m] == s;
        assert rows[m + 1] == s;
      }
      var head: seq<SeatView> := if rows[0].theater == theater then [View(t, st, rows[0])] else [];
      var r := head + rest;
      assert r == TheaterViews(t, st, theater, rows);
      forall i, j | 0 <= i < j < |r| ensures r[i].id != r[j].id {
        if i < |head| {
          assert r[i] == View(t, st, rows[0]) && r[j] == rest[j - |head|];
        } else {
          assert r[i] == rest[i - |head|] && r[j] == rest[j - |head|];
        }
      }
    }
  }

  /** A rearrangement of views with pairwise different ids again has
      pairwise different ids. */
  lemma PermutedIdsUnique(a: seq<SeatView>, b: seq<SeatView>)
    requires multiset(a) == multiset(b)
    requires forall i, j :: 0 <= i < j < |a| ==> a[i].id != a[j].id
    ensures forall i, j :: 0 <= i < j < |b| ==> b[i].id != b[j].id
  {
    assert Distinct(a);
    PermutationFacts(a, b);
    forall i, j | 0 <= i < j < |b| ensures b[i].id != b[j].id {
      assert b[i] in a && b[j] in a;
      var p :| 0 <= p < |a| && a[p] == b[i];
      var q :| 0 <= q < |a| && a[q] == b[j];
      assert b[i] != b[j];
    }
  }

  /** With the seats table's primary key, the listing shows each seat of the
      theater exactly once: together with SeatListing's membership this
      makes the listing a permutation of the theater's seat views. */
  lemma SeatListingListsEachSeatOnce(t: Tables, st: ShowtimeId)
    requires SeatIdsUnique(t.seats)
    ensures forall i, j :: 0 <= i < j < |SeatListing(t, st)| ==> SeatListing(t, st)[i].id != SeatListing(t, st)[j].id
    ensures st in t.showtimes ==>
              multiset(SeatListing(t, st)) == multiset(TheaterViews(t, st, t.showtimes[st].theater, t.seats))
  {
    if st in t.showtimes {
      var views := TheaterViews(t, st, t.showtimes[st].theater, t.seats);
      TheaterViewsUnique(t, st, t.showtimes[st].theater, t.seats);
      PermutedIdsUnique(views, SeatListing(t, st));
    }
  }

  // ---------------------------------------------------------------------------
  // available_seats in get_showtimes
  // ---------------------------------------------------------------------------

  /** Number of rows of `cs` that hold a seat for `st` under a confirmed reservation. */
  function CountActive(t: Tables, st: ShowtimeId, cs: seq<ReservationSeat>): (n: nat)
    ensures n <= |cs|
  {
    if cs == [] then 0
    else (if cs[0].showtime == st && Active(t, cs[0]) then 1 else 0) + CountActive(t, st, cs[1..])
  }

  /** The listed showtime's remaining-seat count: the theater's total_seats
      minus the confirmed rows for the showtime. Only an active showtime
      whose theater exists is listed. */
  function ListedAvailableSeats(t: Tables, st: ShowtimeId): (r: Option<int>)
    ensures r.Some? <==> st in t.showtimes && t.showtimes[st].active && t.showtimes[st].theater in t.theaters
  {
    if st in t.showtimes && t.showtimes[st].active && t.showtimes[st].theater in t.theaters
    then Some(t.theaters[t.showtimes[st].theater].totalSeats - CountActive(t, st, t.claims))
    else None
  }

  /** The seats of `cs` that confirmed reservations hold for `st`. */
  function SeatsHeld(t: Tables, st: ShowtimeId, cs: seq<ReservationSeat>): (held: set<SeatId>)
    ensures forall x :: x in held <==>
              exists j :: 0 <= j < |cs| && cs[j].showtime == st && cs[j].seat == x && Active(t, cs[j])
  {
    if cs == [] then {}
    else
      assert forall j :: 0 < j < |cs| ==> cs[j] == cs[1..][j - 1];
      (if cs[0].showtime == st && Active(t, cs[0]) then {cs[0].seat} else {}) + SeatsHeld(t, st, cs[1..])
  }

  lemma {:induction false} CountActiveOfSuffix(t: Tables, st: ShowtimeId, cs: seq<ReservationSeat>)
    requires NoDoubleBookingIn(t, cs)
    ensures CountActive(t, st, cs) == |SeatsHeld(t, st, cs)|
  {
    if cs != [] {
      var rest := cs[1..];
      assert NoDoubleBookingIn(t, rest) by {
        forall i, j | 0 <= i < j < |rest| ensures rest[i] == cs[i + 1] && rest[j] == cs[j + 1] { }
      }
      CountActiveOfSuffix(t, st, rest);
      var here: set<SeatId> := if cs[0].showtime == st && Active(t, cs[0]) then {cs[0].seat} else {};
      assert SeatsHeld(t, st, cs) == here + SeatsHeld(t, st, rest);
      if cs[0].showtime == st && Active(t, cs[0]) {
        assert cs[0].seat !in SeatsHeld(t, st, rest) by {
          forall j | 0 <= j < |rest| && rest[j].showtime == st && rest[j].seat == cs[0].seat
            ensures !Active(t, rest[j])
          {
            assert cs[j + 1] == rest[j];
            assert cs[0].showtime == cs[j + 1].showtime && cs[0].seat == cs[j + 1].seat;
          }
        }
        assert |SeatsHeld(t, st, cs)| == 1 + |SeatsHeld(t, st, rest)|;
      }
    }
  }

  /** Under the no-double-booking invariant the subtracted row count is the
      number of distinct seats held for the showtime. */
  lemma CountActiveIsSeatsHeld(t: Tables, st: ShowtimeId)
    requires NoDoubleBooking(t)
    ensures CountActive(t, st, t.claims) == |SeatsHeld(t, st, t.claims)|
  {
    CountActiveOfSuffix(t, st, t.claims);
  }
}
