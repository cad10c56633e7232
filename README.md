# Cinema reservation ledger — a Dafny model

This project models the booking core of a cinema reservation service:

- **The server's ledger** (`backend/main.py`):
  - `create_reservation`: the showtime lookup, the seat check, the total price, the booking reference, and the inserted reservation and reservation_seats rows;
  - `cancel_reservation`: the owner-only lookup, the "show already started" guard, and the status flip;
  - the per-seat availability listing `get_showtime_seats`;
  - the `available_seats` count of `get_showtimes`.
- **The browser's seat-selection page** (`frontend/src/pages/SeatSelection.jsx`):
  - toggling seats on click;
  - the booking request it sends;
  - the displayed total;
  - each seat's colour;
  - the seat map, grouped by row and sorted.

## Modules

- `LedgerTypes` (ledger_types.dfy):
  - the tables (theaters, showtimes, seats, reservations, reservation_seats) as one `Tables` value;
  - the occupancy relation: a reservation_seats row counts only while its reservation is confirmed;
  - the ledger invariant `Consistent`: no (showtime, seat) is held by two confirmed reservations, every row points at a reservation for the same showtime, and seat ids are unique.
- `Availability` (availability.dfy): the read side of the ledger.
  - `SeatCheck` and its pass condition;
  - `SeatListing`;
  - `ListedAvailableSeats`.
- `Ledger` (ledger.dfy): the write side.
  - The pure transitions `Commit` (a successful booking) and `CancelUpdate` (a successful cancel), with lemmas about them.
  - The class `Ledger`, whose fields are the tables. Its methods `Book` and `Cancel` are proved to perform exactly those transitions, to fail exactly in the source's error cases (changing nothing), and to keep the invariant.
- `BookingReference` (booking_reference.dfy): the format of booking references.
- `SeatSelection` (seat_selection.dfy):
  - the page as the class `SeatSelectionPage`;
  - the pure functions it uses (`Toggle`, `ColorOf`, `DisplayedTotal`, `Layout`);
  - `GroupByRow`, the row-grouping loop.
- `Sorting` and `SeqFacts`: a stable insertion sort parameterised by its order, lexicographic string order, and counting facts about distinct elements.

## Modelling choices

- Identifiers are natural numbers, not UUIDs.
- Prices are integer cents. They may be negative: nothing in the source rejects a negative price.
- A show's date and time are one integer instant.
- "Now" is a parameter of `Cancel`.
- Errors are abstract kinds, not HTTP status codes. In `create_reservation`, `except IntegrityError` answers 400, and the catch-all `except Exception` re-wraps every other error, including the 404 and 400 raised inside the `try`, as a 500. So only the kind of error is meaningful.
- The random booking-reference generator is modelled by its random choices (`draws`, one alphabet index per character). Nothing checks references for collisions, so no uniqueness is claimed.

## Behaviour as written that a reader might not expect

- The seat check does not look at a seat's theater. A request may claim a seat of another theater. `Ledger.ForeignSeatDrift` exhibits the result: the listing's remaining-seat count falls while the showtime's own seat listing still shows every seat as free.
- An empty seat list passes the seat check: zero rows equals zero ids. It creates a confirmed reservation with total 0 and no seats.
- A seat id sent twice selects its seat row only once, so the seat check fails.
- Booking does not check whether the show has already started.
- Only the owner of a reservation can cancel it.
- A show that starts exactly at "now" can still be cancelled.
- The seat listing does not require the showtime to be active. The remaining-seat count is listed only for active showtimes.

## Model

| member | source | states |
|---|---|---|
| BookingReference.Generate | backend/main.py:153-154 | every generated reference is ten characters, each an upper-case ASCII letter or a digit |
| BookingReference.GenerateInjective | backend/main.py:153-154 | different random choices give different references (the character alphabet has no repeats) |
| BookingReference.GenerateOnto | backend/main.py:153-154 | every ten-character upper-case/digit string can be generated |
| Availability.FreeRequested | backend/main.py:573-591 | a seat row is returned iff its id was requested and no confirmed reservation holds it for the showtime; no more rows than the table has |
| Availability.SeatCheckCount | backend/main.py:573-591 | the seat check returns exactly one row per distinct requested id that names a seat not held for the showtime |
| Availability.SeatCheckPassesIff | backend/main.py:573-597 | the row count equals the request length iff the ids are pairwise distinct, each names a seat, and none is held for the showtime; the seat's theater is not consulted |
| Availability.TheaterViews | backend/main.py:520-535 | a view is produced iff it is the view of a seat of the showtime's theater, with availability taken from the confirmed reservation_seats rows of this showtime |
| Availability.ListingOrderIsTotalPreorder | backend/main.py:534 | ordering by row label then seat number is total and transitive |
| Availability.SeatListing | backend/main.py:516-548 | an unknown showtime lists nothing; otherwise exactly the seats of its theater, sorted by row then number, each available iff no confirmed reservation holds it for the showtime |
| Availability.TheaterViewsUnique | backend/main.py:520-535 | when seat ids are unique, no two views of the theater's seats share an id |
| Availability.SeatListingListsEachSeatOnce | backend/main.py:516-548 | when seat ids are unique, the listing is a rearrangement of the theater's seat views and shows no seat twice |
| Availability.ListedAvailableSeats | backend/main.py:429-459 | a count is listed iff the showtime exists, is active and its theater exists; it is total_seats minus the confirmed rows of the showtime |
| Availability.SeatsHeld | backend/main.py:438-442 | a seat is in the set iff a confirmed reservation_seats row holds it for the showtime |
| Availability.CountActiveIsSeatsHeld | backend/main.py:438-442 | under the no-double-booking invariant the subtracted row count is the number of distinct seats held |
| Ledger.CommitKeepsConsistent | backend/main.py:573-634 | a booking whose ids passed the seat check (distinct, none held) keeps every seat held by at most one confirmed reservation, and keeps the other invariants |
| Ledger.CommitClaimsSeats | backend/main.py:620-632 | after a confirmed booking every seat sent is held for the showtime |
| Ledger.CommitKeepsOtherClaims | backend/main.py:620-632 | a booking changes the occupancy of no other (showtime, seat) |
| Ledger.CommitLowersCount | backend/main.py:429-446 | a confirmed booking lowers the showtime's count by the number of ids sent and leaves other showtimes' counts unchanged |
| Ledger.RebookSameSeatsFails | backend/main.py:573-597 | sending the same non-empty seat list again for the showtime fails the seat check |
| Ledger.CancelKeepsConsistent | backend/main.py:761-769 | cancelling keeps the ledger invariant |
| Ledger.CancelFreesSeats | backend/main.py:761-769 | after cancelling, every seat the reservation held is free for its showtime |
| Ledger.CancelKeepsOtherClaims | backend/main.py:761-769 | cancelling changes the occupancy of no seat the reservation does not hold |
| Ledger.CancelThenRebook | backend/main.py:573-597 | once the reservation holding some distinct existing seats is cancelled, a request for those seats passes the seat check |
| Ledger.CancelRaisesCount | backend/main.py:429-446 | cancelling raises each showtime's count by the rows the reservation holds for it |
| Ledger.ForeignSeatDrift | backend/main.py:573-597 | a seat of another theater passes the seat check; booking it lowers the listed count to 0 while the one-seat theater's listing still shows its seat free |
| Ledger.Ledger.Book | backend/main.py:551-668 | fails with ShowtimeNotFound iff the showtime is missing, inactive or has no theater; fails with SeatsUnavailable iff it exists but the seat check fails; changes nothing on failure; on success it stores a confirmed reservation with a fresh id, the total `Charge` (price × number of ids) and a generated reference, appends one row per id, returns the checked seat rows, and keeps the invariant |
| Ledger.Ledger.Cancel | backend/main.py:733-771 | fails with ReservationNotFound iff the reservation is missing, not the caller's, not confirmed or has no showtime; fails with ShowtimePassed iff the show started before now; changes nothing on failure; otherwise only flips the status to cancelled, keeping the invariant |
| Sorting.InsertionSortSorted | frontend/src/pages/SeatSelection.jsx:132-140 | the sort's output is ordered whenever the order is total and transitive |
| SeatSelection.RemoveIdMembers | frontend/src/pages/SeatSelection.jsx:41 | the filter keeps exactly the selected entries with another id |
| SeatSelection.ClickUnavailable | frontend/src/pages/SeatSelection.jsx:38 | a click on an unavailable seat changes nothing |
| SeatSelection.ClickAppends | frontend/src/pages/SeatSelection.jsx:42-43 | a click on an available unselected seat appends it |
| SeatSelection.ClickRemoves | frontend/src/pages/SeatSelection.jsx:40-41 | a click on a selected seat removes that entry only, the rest in order |
| SeatSelection.ClickKeepsUnique | frontend/src/pages/SeatSelection.jsx:37-45 | clicks never select one seat id twice |
| SeatSelection.ClickTwiceRestores | frontend/src/pages/SeatSelection.jsx:37-45 | two clicks on an available unselected seat restore the selection |
| SeatSelection.RequestIdsDistinct | frontend/src/pages/SeatSelection.jsx:52-55 | the request's ids are pairwise distinct exactly when the selection holds no seat id twice; distinct ids are what the server's seat check demands |
| SeatSelection.DisplayedTotalMatchesCharge | frontend/src/pages/SeatSelection.jsx:194-196 | once the showtime is known, the total shown equals `Charge` of the ids the request sends, the same `Charge` that `Ledger.Ledger.Book` stores as the reservation's total |
| SeatSelection.ColorOf | frontend/src/pages/SeatSelection.jsx:68-82 | selected wins, then occupied, then vip, premium, standard, each colour given iff its case applies |
| SeatSelection.ClickFlipsColor | frontend/src/pages/SeatSelection.jsx:68-82 | an occupied-coloured seat ignores clicks; a click on an available seat flips it into or out of the selected colour |
| SeatSelection.RowSeatsOfAbsentRow | frontend/src/pages/SeatSelection.jsx:85-91 | a row label that no seat has gets no group |
| SeatSelection.GroupStep | frontend/src/pages/SeatSelection.jsx:86-89 | adding one seat to its row's group (creating the group if the row is new) keeps the grouping exact |
| SeatSelection.GroupByRow | frontend/src/pages/SeatSelection.jsx:85-91 | exactly the row labels that occur get a group, holding that row's seats in encounter order |
| SeatSelection.LayoutRows | frontend/src/pages/SeatSelection.jsx:132-133 | the rendered row labels are the group keys, each once, in string order |
| SeatSelection.FlattenRowsIsAll | frontend/src/pages/SeatSelection.jsx:85-91 | grouping loses and duplicates no seat |
| SeatSelection.RenderSeatMap | frontend/src/pages/SeatSelection.jsx:132-140 | rows appear once each, in string order, exactly for the labels present; each row shows its seats sorted by number; together the rows show every seat exactly once |
| SeatSelection.SeatSelectionPage.constructor | frontend/src/pages/SeatSelection.jsx:8-12 | the page starts with nothing fetched, nothing selected, not booking |
| SeatSelection.SeatSelectionPage.Load | frontend/src/pages/SeatSelection.jsx:14-31 | the fetched seats and showtime price replace the old ones; the selection is kept |
| SeatSelection.SeatSelectionPage.HandleSeatClick | frontend/src/pages/SeatSelection.jsx:37-45 | the selection becomes the toggled selection, without repeated ids; nothing else changes |
| SeatSelection.SeatSelectionPage.HandleBooking | frontend/src/pages/SeatSelection.jsx:47-55 | an empty selection sends nothing; otherwise the page enters the booking state and sends the showtime and the selected ids in selection order, pairwise distinct |
| SeatSelection.SeatSelectionPage.FinishBooking | frontend/src/pages/SeatSelection.jsx:63-65 | whatever the answer, the booking state ends; nothing else changes |

## Left out

- Database and HTTP plumbing: sessions, `FOR UPDATE` row locks and rollback. Each operation is one atomic step.
- Authentication and JWT handling: the caller's user id is a parameter.
- The movies table. Both showtime queries join it, and a showtime whose movie row is missing would also be "not found" and unlisted. Movie rows are not modelled.
- The `movie_id` and `show_date` filters and the ordering of the showtime list.
- Timestamps `created_at` and `cancelled_at`, and the display fields of a booking response (movie title, show date and time, theater name).
- BookingReference.Generate: randomness is left out. The generator is a function of its random choices, and uniqueness of references is neither enforced by the source nor claimed here.
- Ledger.Ledger.Book: does not model the `IntegrityError` branch. The model assumes that no database constraint rejects a booking that passed the seat check. The constraints are not part of this model, and cancelling never deletes reservation_seats rows. So a plain UNIQUE(showtime_id, seat_id) constraint would reject rebooking a cancelled seat with a 400, and `Ledger.CancelThenRebook` would then describe only the seat check, not the whole request.
- Ledger.Ledger.Book: returns the checked seats in seats-table order. The seat-check query has no ORDER BY, so the source's order is unspecified.
- Availability.SeatListing: assumes at most one confirmed row per (showtime, seat), as the ledger invariant guarantees. If the invariant were broken, the SQL left join would list such a seat once per row.
- Sorting.InsertionSort: sort stability is not proved. Ties in seat number within a row leave their relative order unspecified in the contracts.
- String order: labels are compared by character code. This matches JavaScript's default sort on UTF-16 code units for row labels in the Basic Multilingual Plane. For the database `ORDER BY`, it assumes a byte-wise collation.
- Display totals use integer cents instead of floating point and `toFixed(2)`.
- SeatSelection.GroupByRow: groups every row label the same way. In the source, the accumulator is a plain object `{}`. A label that names an inherited member, such as "constructor" or "toString", finds that member. The `!acc[label]` test is then false and `.push` throws, and the model does not capture that failure.
- The `loading` flag, alerts, navigation, and the refetch after a failed booking. A refetch is a call to `Load`.
