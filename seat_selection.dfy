/** The seat-selection page (frontend/src/pages/SeatSelection.jsx): the list
    of selected seats toggled by clicks, the booking request it submits, the
    displayed total, the colour of each seat, and the seat map grouped by
    row. Network calls, alerts and navigation are not modelled; a fetch's
    result is handed to `Load`. */
module SeatSelection {
  import opened LedgerTypes
  import opened SeqFacts
  import Sorting

  // ---------------------------------------------------------------------------
  // The selection
  // ---------------------------------------------------------------------------

  /** `selectedSeats.find(s => s.id === id)` finds something. */
  predicate IsSelected(selected: seq<SeatView>, id: SeatId)
  {
    exists i :: 0 <= i < |selected| && selected[i].id == id
  }

  /** No seat id is selected twice. */
  predicate UniqueIds(selected: seq<SeatView>)
  {
    forall i, j :: 0 <= i < j < |selected| ==> selected[i].id != selected[j].id
  }

  /** `selectedSeats.filter(s => s.id !== id)`. */
  function RemoveId(selected: seq<SeatView>, id: SeatId): seq<SeatView>
  {
    if selected == [] then []
    else (if selected[0].id != id then [selected[0]] else []) + RemoveId(selected[1..], id)
  }

  /** The filter keeps exactly the entries with another id. */
  lemma {:induction false} RemoveIdMembers(selected: seq<SeatView>, id: SeatId)
    ensures forall v :: v in RemoveId(selected, id) <==> v in selected && v.id != id
    ensures |RemoveId(selected, id)| <= |selected|
  {
    if selected != [] {
      RemoveIdMembers(selected[1..], id);
      assert selected == [selected[0]] + selected[1..];
    }
  }

  /** handleSeatClick on `seat`, as a function of the current selection. */
  function Toggle(selected: seq<SeatView>, seat: SeatView): seq<SeatView>
  {
    if !seat.available then selected
    else if IsSelected(selected, seat.id) then RemoveId(selected, seat.id)
    else selected + [seat]
  }

  lemma {:induction false} RemoveIdAbsent(selected: seq<SeatView>, id: SeatId)
    requires !IsSelected(selected, id)
    ensures RemoveId(selected, id) == selected
  {
    if selected != [] {
      assert !IsSelected(selected[1..], id) by {
        forall i | 0 <= i < |selected[1..]| ensures selected[1..][i].id != id {
          assert selected[1..][i] == selected[i + 1];
        }
      }
      RemoveIdAbsent(selected[1..], id);
      assert selected == [selected[0]] + selected[1..];
    }
  }

  lemma RemoveIdCons(selected: seq<SeatView>, id: SeatId)
    requires selected != []
    ensures RemoveId(selected, id) == (if selected[0].id != id then [selected[0]] else []) + RemoveId(selected[1..], id)
  {
  }

  lemma UniqueIdsTail(selected: seq<SeatView>)
    requires UniqueIds(selected) && selected != []
    ensures UniqueIds(selected[1..])
    ensures !IsSelected(selected[1..], selected[0].id)
  {
    var rest := selected[1..];
    forall i, j | 0 <= i < j < |rest| ensures rest[i].id != rest[j].id {
      assert rest[i] == selected[i + 1] && rest[j] == selected[j + 1];
    }
    forall i | 0 <= i < |rest| ensures rest[i].id != selected[0].id {
      assert rest[i] == selected[i + 1];
    }
  }

  lemma SpliceCons<T>(s: seq<T>, k: nat)
    requires 0 < k < |s|
    ensures s[..k] + s[k + 1..] == [s[0]] + (s[1..][..k - 1] + s[1..][k..])
  {
    assert s[..k] == [s[0]] + s[1..][..k - 1];
    assert s[k + 1..] == s[1..][k..];
  }

  lemma {:induction false} RemoveIdAt(selected: seq<SeatView>, id: SeatId, k: nat)
    requires UniqueIds(selected) && k < |selected| && selected[k].id == id
    ensures RemoveId(selected, id) == selected[..k] + selected[k + 1..]
  {
    var rest := selected[1..];
    RemoveIdCons(selected, id);
    UniqueIdsTail(selected);
    if k == 0 {
      RemoveIdAbsent(rest, id);
    } else {
      assert rest[k - 1] == selected[k];
      RemoveIdAt(rest, id, k - 1);
      assert selected[0].id != selected[k].id;
      SpliceCons(selected, k);
    }
  }

  lemma {:induction false} RemoveIdKeepsUnique(selected: seq<SeatView>, id: SeatId)
    requires UniqueIds(selected)
    ensures UniqueIds(RemoveId(selected, id))
  {
    if selected != [] {
      var rest := selected[1..];
      assert UniqueIds(rest) by {
        forall i, j | 0 <= i < j < |rest| ensures rest[i].id != rest[j].id {
          assert rest[i] == selected[i + 1] && rest[j] == selected[j + 1];
        }
      }
      RemoveIdKeepsUnique(rest, id);
      RemoveIdMembers(rest, id);
      var r := RemoveId(rest, id);
      forall v | v in r ensures v.id != selected[0].id {
        var m :| 0 <= m < |rest| && rest[m] == v;
        assert selected[m + 1] == v;
      }
    }
  }

  /** Clicking a seat that is not available changes nothing. */
  lemma ClickUnavailable(selected: seq<SeatView>, seat: SeatView)
    requires !seat.available
    ensures Toggle(selected, seat) == selected
  {
  }

  /** Clicking an available, unselected seat appends it at the end. */
  lemma ClickAppends(selected: seq<SeatView>, seat: SeatView)
    requires seat.available && !IsSelected(selected, seat.id)
    ensures Toggle(selected, seat) == selected + [seat]
    ensures IsSelected(Toggle(selected, seat), seat.id)
  {
    assert Toggle(selected, seat)[|selected|] == seat;
  }

  /** Clicking a selected seat removes exactly that entry; the others keep
      their order. */
  lemma ClickRemoves(selected: seq<SeatView>, seat: SeatView, k: nat)
    requires UniqueIds(selected) && seat.available
    requires k < |selected| && selected[k].id == seat.id
    ensures Toggle(selected, seat) == selected[..k] + selected[k + 1..]
    ensures !IsSelected(Toggle(selected, seat), seat.id)
  {
    RemoveIdAt(selected, seat.id, k);
  }

  /** Clicking never selects the same seat id twice. */
  lemma ClickKeepsUnique(selected: seq<SeatView>, seat: SeatView)
    requires UniqueIds(selected)
    ensures UniqueIds(Toggle(selected, seat))
  {
    if seat.available {
      if IsSelected(selected, seat.id) {
        RemoveIdKeepsUnique(selected, seat.id);
      } else {
        var r := selected + [seat];
        forall i, j | 0 <= i < j < |r| ensures r[i].id != r[j].id {
          if j == |selected| {
            assert r[i] == selected[i];
          } else {
            assert r[i] == selected[i] && r[j] == selected[j];
          }
        }
      }
    }
  }

  /** Two clicks on an available seat that was not selected give back the
      original selection. */
  lemma ClickTwiceRestores(selected: seq<SeatView>, seat: SeatView)
    requires seat.available && !IsSelected(selected, seat.id)
    ensures Toggle(Toggle(selected, seat), seat) == selected
  {
    ClickAppends(selected, seat);
    RemoveIdAppend(selected, seat, seat.id);
    RemoveIdAbsent(selected, seat.id);
  }

  lemma {:induction false} RemoveIdAppend(selected: seq<SeatView>, x: SeatView, id: SeatId)
    ensures RemoveId(selected + [x], id) == RemoveId(selected, id) + (if x.id != id then [x] else [])
  {
    var last: seq<SeatView> := if x.id != id then [x] else [];
    if selected == [] {
      assert selected + [x] == [x];
      RemoveIdCons([x], id);
      assert [x][1..] == [];
    } else {
      var longer := selected + [x];
      assert longer[0] == selected[0];
      assert longer[1..] == selected[1..] + [x];
      var head: seq<SeatView> := if selected[0].id != id then [selected[0]] else [];
      RemoveIdCons(longer, id);
      RemoveIdCons(selected, id);
      RemoveIdAppend(selected[1..], x, id);
      assert RemoveId(longer, id) == head + (RemoveId(selected[1..], id) + last);
      assert RemoveId(selected, id) + last == (head + RemoveId(selected[1..], id)) + last;
    }
  }

  // ---------------------------------------------------------------------------
  // Booking request and total
  // ---------------------------------------------------------------------------

  /** The body of the POST to /api/reservations. */
  datatype BookingRequest = BookingRequest(showtime: ShowtimeId, seatIds: seq<SeatId>)

  /** `selectedSeats.map(s => s.id)`. */
  function SelectedIds(selected: seq<SeatView>): (ids: seq<SeatId>)
    ensures |ids| == |selected|
    ensures forall i :: 0 <= i < |ids| ==> ids[i] == selected[i].id
  {
    seq(|selected|, i requires 0 <= i < |selected| => selected[i].id)
  }

  /** The request repeats no id exactly when the selection repeats no seat
      id; the server's seat check demands ids without repeats. */
  lemma RequestIdsDistinct(selected: seq<SeatView>)
    ensures UniqueIds(selected) <==> Distinct(SelectedIds(selected))
  {
    var ids := SelectedIds(selected);
    if Distinct(ids) {
      forall i, j | 0 <= i < j < |selected| ensures selected[i].id != selected[j].id {
        assert ids[i] != ids[j];
      }
    }
  }

  /** The total shown under the seat map, in cents: nothing until the
      showtime is known. */
  function DisplayedTotal(price: Option<int>, selected: seq<SeatView>): int
  {
    match price
    case None => 0
    case Some(p) => p * |selected|
  }

  /** The total shown equals what the server charges for the submitted
      request: the price times the number of ids sent. */
  lemma DisplayedTotalMatchesCharge(t: Tables, st: ShowtimeId, selected: seq<SeatView>)
    requires st in t.showtimes
    ensures DisplayedTotal(Some(t.showtimes[st].priceCents), selected) == Charge(t, st, SelectedIds(selected))
  {
  }

  // ---------------------------------------------------------------------------
  // Seat colour
  // ---------------------------------------------------------------------------

  datatype SeatColor = SelectedColor | OccupiedColor | VipColor | PremiumColor | StandardColor

  /** getSeatColor: the first matching case wins, in the order selected,
      unavailable, vip, premium, standard. */
  function ColorOf(selected: seq<SeatView>, seat: SeatView): (c: SeatColor)
    ensures c == SelectedColor <==> IsSelected(selected, seat.id)
    ensures c == OccupiedColor <==> !IsSelected(selected, seat.id) && !seat.available
    ensures c == VipColor <==> !IsSelected(selected, seat.id) && seat.available && seat.kind == Vip
    ensures c == PremiumColor <==> !IsSelected(selected, seat.id) && seat.available && seat.kind == Premium
    ensures c == StandardColor <==> !IsSelected(selected, seat.id) && seat.available && seat.kind == Standard
  {
    if IsSelected(selected, seat.id) then SelectedColor
    else if !seat.available then OccupiedColor
    else match seat.kind
      case Vip => VipColor
      case Premium => PremiumColor
      case Standard => StandardColor
  }

  /** A click on an available seat flips it between the selected colour and
      its own class colour; a seat shown as occupied does not react. */
  lemma ClickFlipsColor(selected: seq<SeatView>, seat: SeatView)
    requires UniqueIds(selected)
    ensures ColorOf(selected, seat) == OccupiedColor ==> Toggle(selected, seat) == selected
    ensures seat.available ==>
              (ColorOf(Toggle(selected, seat), seat) == SelectedColor <==> ColorOf(selected, seat) != SelectedColor)
  {
    if seat.available {
      if IsSelected(selected, seat.id) {
        var k :| 0 <= k < |selected| && selected[k].id == seat.id;
        ClickRemoves(selected, seat, k);
      } else {
        ClickAppends(selected, seat);
      }
    }
  }

  // ---------------------------------------------------------------------------
  // Seat map
  // ---------------------------------------------------------------------------

  /** The seats of `row` in encounter order. */
  function RowSeats(seats: seq<SeatView>, row: string): seq<SeatView>
  {
    if seats == [] then []
    else
      var last := seats[|seats| - 1];
      RowSeats(seats[..|seats| - 1], row) + (if last.row == row then [last] else [])
  }

  predicate HasRow(seats: seq<SeatView>, row: string)
  {
    exists i :: 0 <= i < |seats| && seats[i].row == row
  }

  lemma HasRowSnoc(seats: seq<SeatView>, x: SeatView)
    ensures forall row :: HasRow(seats + [x], row) <==> HasRow(seats, row) || row == x.row
  {
    var longer := seats + [x];
    forall row ensures HasRow(longer, row) <==> HasRow(seats, row) || row == x.row {
      if HasRow(seats, row) {
        var k :| 0 <= k < |seats| && seats[k].row == row;
        assert longer[k] == seats[k];
      }
      assert longer[|seats|] == x;
    }
  }

  lemma {:induction false} RowSeatsOfAbsentRow(seats: seq<SeatView>, row: string)
    requires !HasRow(seats, row)
    ensures RowSeats(seats, row) == []
  {
    if seats != [] {
      var prefix := seats[..|seats| - 1];
      assert !HasRow(prefix, row) by {
        forall k | 0 <= k < |prefix| ensures prefix[k].row != row {
          assert prefix[k] == seats[k];
        }
      }
      RowSeatsOfAbsentRow(prefix, row);
    }
  }

  /** `groups` and `order` group `seats` by row: exactly the row labels that
      occur are keys, each holding that row's seats in encounter order, and
      `order` lists the keys once each. */
  ghost predicate GroupedBy(groups: map<string, seq<SeatView>>, order: seq<string>, seats: seq<SeatView>)
  {
    && (forall row :: row in groups <==> HasRow(seats, row))
    && (forall row :: row in groups ==> groups[row] == RowSeats(seats, row))
    && Distinct(order)
    && (forall row :: row in order <==> row in groups)
  }

  /** One step of the reduce keeps the grouping exact. */
  lemma GroupStep(groups: map<string, seq<SeatView>>, order: seq<string>, seats: seq<SeatView>, seat: SeatView)
    requires GroupedBy(groups, order, seats)
    ensures var grown := if seat.row in groups then groups[seat.row] + [seat] else [seat];
            GroupedBy(groups[seat.row := grown],
                      if seat.row in groups then order else order + [seat.row],
                      seats + [seat])
  {
    HasRowSnoc(seats, seat);
    if seat.row !in groups {
      RowSeatsOfAbsentRow(seats, seat.row);
      DistinctSnoc(order, seat.row);
    }
    forall row ensures RowSeats(seats + [seat], row) == RowSeats(seats, row) + (if seat.row == row then [seat] else []) {
      RowSeatsSnoc(seats, seat, row);
    }
  }

  /** The `groupedSeats` reduce: one entry per row label that occurs, holding
      that row's seats in encounter order; `order` lists the labels in the
      order the entries were created. */
  method GroupByRow(seats: seq<SeatView>) returns (groups: map<string, seq<SeatView>>, order: seq<string>)
    ensures forall row :: row in groups <==> HasRow(seats, row)
    ensures forall row :: row in groups ==> groups[row] == RowSeats(seats, row)
    ensures Distinct(order)
    ensures forall row :: row in order <==> row in groups
  {
    groups := map[];
    order := [];
    var i := 0;
    while i < |seats|
      invariant 0 <= i <= |seats|
      invariant GroupedBy(groups, order, seats[..i])
    {
      var seat := seats[i];
      assert seats[..i + 1] == seats[..i] + [seat];
      GroupStep(groups, order, seats[..i], seat);
      if seat.row !in groups {
        groups := groups[seat.row := [seat]];
        order := order + [seat.row];
      } else {
        groups := groups[seat.row := groups[seat.row] + [seat]];
      }
      i := i + 1;
    }
    assert seats[..i] == seats;
    assert GroupedBy(groups, order, seats);
  }

  predicate NumberOrder(a: SeatView, b: SeatView)
  {
    a.number <= b.number
  }

  lemma OrdersArePreorders()
    ensures Sorting.TotalPreorder(NumberOrder)
    ensures Sorting.TotalPreorder(Sorting.StrLe)
  {
    forall a: string, b: string ensures Sorting.StrLe(a, b) || Sorting.StrLe(b, a) {
      Sorting.StrLeTotal(a, b);
    }
    forall a: string, b: string, c: string | Sorting.StrLe(a, b) && Sorting.StrLe(b, c) ensures Sorting.StrLe(a, c) {
      Sorting.StrLeTransitive(a, b, c);
    }
  }

  /** The concatenation of the seats shown, row after row. */
  function SeatsShown(lines: seq<(string, seq<SeatView>)>): seq<SeatView>
  {
    if lines == [] then [] else lines[0].1 + SeatsShown(lines[1..])
  }

  /** The rendering of the grouped seats: `Object.keys(groups).sort()`, and
      for each row its group sorted with `(a, b) => a.seat_number - b.seat_number`.
      Only the set of keys matters here: the sort puts them in string order. */
  function Layout(groups: map<string, seq<SeatView>>, order: seq<string>): (lines: seq<(string, seq<SeatView>)>)
    requires forall row :: row in order ==> row in groups
  {
    var rows := Sorting.InsertionSort(order, Sorting.StrLe);
    PermutationFacts(order, rows);
    seq(|rows|, i requires 0 <= i < |rows| => (rows[i], Sorting.InsertionSort(groups[rows[i]], NumberOrder)))
  }

  /** The sorted row labels are the keys, each once, in string order. */
  lemma LayoutRows(groups: map<string, seq<SeatView>>, order: seq<string>)
    requires forall row :: row in order ==> row in groups
    requires Distinct(order)
    ensures RowLabels(Layout(groups, order)) == Sorting.InsertionSort(order, Sorting.StrLe)
    ensures Sorting.SortedBy(RowLabels(Layout(groups, order)), Sorting.StrLe)
    ensures Distinct(RowLabels(Layout(groups, order)))
    ensures forall row :: row in RowLabels(Layout(groups, order)) <==> row in order
  {
    var rows := Sorting.InsertionSort(order, Sorting.StrLe);
    assert RowLabels(Layout(groups, order)) == rows;
    OrdersArePreorders();
    Sorting.InsertionSortSorted(order, Sorting.StrLe);
    PermutationFacts(order, rows);
  }

  /** The seat map as rendered: row labels sorted as strings, each row
      once; within a row the row's seats sorted by seat number; and no seat
      lost or repeated. */
  method RenderSeatMap(seats: seq<SeatView>) returns (lines: seq<(string, seq<SeatView>)>)
    ensures Sorting.SortedBy(RowLabels(lines), Sorting.StrLe)
    ensures Distinct(RowLabels(lines))
    ensures forall row :: row in RowLabels(lines) <==> HasRow(seats, row)
    ensures forall i :: 0 <= i < |lines| ==>
              && multiset(lines[i].1) == multiset(RowSeats(seats, lines[i].0))
              && Sorting.SortedBy(lines[i].1, NumberOrder)
    ensures multiset(SeatsShown(lines)) == multiset(seats)
  {
    var groups, order := GroupByRow(seats);
    lines := Layout(groups, order);
    LayoutRows(groups, order);
    var rows := RowLabels(lines);
    OrdersArePreorders();
    forall k | 0 <= k < |lines|
      ensures multiset(lines[k].1) == multiset(RowSeats(seats, lines[k].0))
      ensures Sorting.SortedBy(lines[k].1, NumberOrder)
    {
      assert rows[k] in order;
      Sorting.InsertionSortSorted(groups[rows[k]], NumberOrder);
    }
    ShownIsRows(lines, rows, seats);
    FlattenRowsIsAll(rows, seats);
  }

  function RowLabels(lines: seq<(string, seq<SeatView>)>): (rows: seq<string>)
    ensures |rows| == |lines|
    ensures forall i :: 0 <= i < |rows| ==> rows[i] == lines[i].0
  {
    seq(|lines|, i requires 0 <= i < |lines| => lines[i].0)
  }

  /** The rows' seats, row after row, before sorting within rows. */
  function FlattenRows(rows: seq<string>, seats: seq<SeatView>): seq<SeatView>
  {
    if rows == [] then [] else RowSeats(seats, rows[0]) + FlattenRows(rows[1..], seats)
  }

  lemma {:induction false} ShownIsRows(lines: seq<(string, seq<SeatView>)>, rows: seq<string>, seats: seq<SeatView>)
    requires |lines| == |rows|
    requires forall k :: 0 <= k < |lines| ==> lines[k].0 == rows[k] && multiset(lines[k].1) == multiset(RowSeats(seats, rows[k]))
    ensures multiset(SeatsShown(lines)) == multiset(FlattenRows(rows, seats))
  {
    if lines != [] {
      ShownIsRows(lines[1..], rows[1..], seats);
    }
  }

  lemma RowSeatsSnoc(seats: seq<SeatView>, x: SeatView, row: string)
    ensures RowSeats(seats + [x], row) == RowSeats(seats, row) + (if x.row == row then [x] else [])
  {
    assert (seats + [x])[..|seats|] == seats;
  }

  lemma MultisetRegroup<T>(a: multiset<T>, b: multiset<T>, c: multiset<T>, d: multiset<T>)
    ensures (a + b) + (c + d) == (a + c) + (b + d)
  {
    forall v ensures ((a + b) + (c + d))[v] == ((a + c) + (b + d))[v] { }
  }

  lemma {:induction false} FlattenRowsSnoc(rows: seq<string>, seats: seq<SeatView>, x: SeatView)
    requires Distinct(rows)
    ensures multiset(FlattenRows(rows, seats + [x])) ==
            multiset(FlattenRows(rows, seats)) + (if x.row in rows then multiset{x} else multiset{})
  {
    if rows != [] {
      var r0, rest := rows[0], rows[1..];
      DistinctCons(rows);
      assert forall row :: row in rows <==> row == r0 || row in rest by {
        assert rows == [r0] + rest;
      }
      FlattenRowsSnoc(rest, seats, x);
      RowSeatsSnoc(seats, x, r0);
      var here: multiset<SeatView> := if x.row == r0 then multiset{x} else multiset{};
      var there: multiset<SeatView> := if x.row in rest then multiset{x} else multiset{};
      assert here + there == (if x.row in rows then multiset{x} else multiset{});
      var a, b := RowSeats(seats, r0), FlattenRows(rest, seats);
      var a', b' := RowSeats(seats + [x], r0), FlattenRows(rest, seats + [x]);
      assert multiset(a') == multiset(a) + here;
      assert multiset(b') == multiset(b) + there;
      calc {
        multiset(FlattenRows(rows, seats + [x]));
        multiset(a' + b');
        multiset(a') + multiset(b');
        (multiset(a) + here) + (multiset(b) + there);
        { MultisetRegroup(multiset(a), here, multiset(b), there); }
        multiset(a) + multiset(b) + (here + there);
        multiset(a + b) + (here + there);
        multiset(FlattenRows(rows, seats)) + (here + there);
      }
    }
  }

  /** Grouping loses and duplicates no seat: the rows' seats together are
      the seats, whenever the rows are distinct and cover every seat's row. */
  lemma {:induction false} FlattenRowsIsAll(rows: seq<string>, seats: seq<SeatView>)
    requires Distinct(rows)
    requires forall row :: HasRow(seats, row) ==> row in rows
    ensures multiset(FlattenRows(rows, seats)) == multiset(seats)
  {
    if seats == [] {
      FlattenRowsOfNone(rows);
    } else {
      var prefix := seats[..|seats| - 1];
      var x := seats[|seats| - 1];
      assert seats == prefix + [x];
      forall row | HasRow(prefix, row) ensures row in rows {
        var k :| 0 <= k < |prefix| && prefix[k].row == row;
        assert seats[k].row == row;
      }
      FlattenRowsIsAll(rows, prefix);
      assert HasRow(seats, x.row) by {
        assert seats[|seats| - 1].row == x.row;
      }
      FlattenRowsSnoc(rows, prefix, x);
    }
  }

  lemma {:induction false} FlattenRowsOfNone(rows: seq<string>)
    ensures FlattenRows(rows, []) == []
  {
    if rows != [] {
      FlattenRowsOfNone(rows[1..]);
    }
  }

  // ---------------------------------------------------------------------------
  // The page's state
  // ---------------------------------------------------------------------------

  class SeatSelectionPage {
    const showtimeId: ShowtimeId
    var seats: seq<SeatView>
    /** The showtime's price in cents, once the showtime list has been fetched and holds it. */
    var showtimePrice: Option<int>
    var selected: seq<SeatView>
    var booking: bool

    ghost predicate Valid()
      reads this
    {
      UniqueIds(selected)
    }

    constructor (showtimeId: ShowtimeId)
      ensures Valid()
      ensures this.showtimeId == showtimeId
      ensures seats == [] && showtimePrice == None && selected == [] && !booking
    {
      this.showtimeId := showtimeId;
      seats := [];
      showtimePrice := None;
      selected := [];
      booking := false;
    }

    /** fetchShowtimeAndSeats: the fetched listing and showtime replace the
        old ones; the selection is kept. */
    method Load(fetched: seq<SeatView>, price: Option<int>)
      requires Valid()
      modifies this
      ensures Valid()
      ensures seats == fetched && showtimePrice == price
      ensures selected == old(selected) && booking == old(booking)
    {
      seats := fetched;
      showtimePrice := price;
    }

    method HandleSeatClick(seat: SeatView)
      requires Valid()
      modifies this
      ensures Valid()
      ensures selected == Toggle(old(selected), seat)
      ensures seats == old(seats) && showtimePrice == old(showtimePrice) && booking == old(booking)
    {
      ClickKeepsUnique(selected, seat);
      if !seat.available {
        return;
      }
      if IsSelected(selected, seat.id) {
        selected := RemoveId(selected, seat.id);
      } else {
        selected := selected + [seat];
      }
    }

    /** handleBooking up to the POST: nothing happens on an empty selection;
        otherwise the page enters the booking state and the request carries
        the selected ids in selection order. */
    method HandleBooking() returns (request: Option<BookingRequest>)
      requires Valid()
      modifies this
      ensures Valid()
      ensures old(selected) == [] ==> request == None && booking == old(booking)
      ensures old(selected) != [] ==> request == Some(BookingRequest(showtimeId, SelectedIds(selected))) && booking
      ensures request.Some? ==> Distinct(request.value.seatIds)
      ensures selected == old(selected) && seats == old(seats) && showtimePrice == old(showtimePrice)
    {
      if |selected| == 0 {
        return None;
      }
      booking := true;
      RequestIdsDistinct(selected);
      return Some(BookingRequest(showtimeId, SelectedIds(selected)));
    }

    /** The `finally` of handleBooking, whatever the server answered. */
    method FinishBooking()
      requires Valid()
      modifies this
      ensures Valid()
      ensures !booking
      ensures selected == old(selected) && seats == old(seats) && showtimePrice == old(showtimePrice)
    {
      booking := false;
    }

    function Total(): int
      reads this
    {
      DisplayedTotal(showtimePrice, selected)
    }

    function Color(seat: SeatView): SeatColor
      reads this
    {
      ColorOf(selected, seat)
    }
  }
}
