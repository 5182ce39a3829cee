# Seat-state engine of a ticketing back end, in Dafny

This project models the part of a movie-ticketing back end that decides who
holds which seat of a show. A show (a `Movie` document) owns an ordered list
of seats. A seat can be free, held for one user until a deadline, or booked
for good. Four transitions act on that list:

- **reserve** places a hold on every requested seat for the caller, with one
  shared deadline `now + RES_MS`. It checks every seat first and changes none
  of them if any check fails.
- **book** turns the caller's running holds into bookings, all or nothing.
- **cancel** clears the caller's holds on the requested seats. It skips ids it
  cannot use and reports whether anything changed.
- **the expiry sweep** is the body of the timer a reserve arms. It releases
  every lapsed, unbooked hold in the show, whoever holds it.

A read-only query lists, per show, the holds a user still has running.

Each transition is a pure function from the loaded seat list, the caller,
the requested seat ids and the clock reading `now` (an integer in
milliseconds) to a `Result`: a new list on success, an error otherwise.
Loading and saving the show happen outside these functions.

Files:

- `seats.dfy`, module `Seats`: the seat record and its schema defaults. Also
  the well-formedness invariant, and `FindSeat`, which finds a seat by its id
  as `movie.seats.id(sid)` does, comparing ids exactly: it returns the first
  seat carrying that id.
- `engine.dfy`, module `SeatEngine`: the per-seat checks, the validation loop,
  the mutation loops, and the four transitions.
- `properties.dfy`, module `EngineProperties`: the invariant each transition
  keeps, and lemmas that chain operations. Examples: reserve then book,
  reserve then late book, reserve then sweep, a competing reserve by another
  user, and a repeated reserve.
- `pending.dfy`, module `Pending`: the pending-holds filter of the `/pending`
  route.

A request "targets" seat `i` when the seat's id is among the requested ids
and seat `i` is the first seat carrying that id (`SeatEngine.Targeted`).
Under unique ids this is just "the seat was requested"
(`EngineProperties.TargetedIffRequested`). The contracts do not assume
unique ids.

## Model

| member | source | states |
|---|---|---|
| Seats.NewSeat | models/Movie.js:7-10 | a new seat is unbooked, unreserved, with no holder and no deadline, and it satisfies the well-formedness invariant |
| Seats.FindSeat | utils/socketManager.js:60 | the lookup returns the position of the first seat with the requested id; it returns nothing exactly when no seat carries that id |
| Seats.FindSeatUnique | utils/socketManager.js:60 | with unique seat ids, looking up a seat's own id gives back that seat's position |
| SeatEngine.SeatCheck | utils/socketManager.js:60-72 | a seat passes the check exactly when the operation permits it. Errors come in the source's order: a missing id gives "Invalid seat ID", then a booked seat gives "Seat already booked", then the operation's own conflict error |
| SeatEngine.Validate | utils/socketManager.js:59-73 | the validation loop passes exactly when every requested seat is permitted. Otherwise it reports the error of the first refused seat, and every seat before that one passed |
| SeatEngine.ApplyOne | utils/socketManager.js:77-80 | one loop iteration changes only the seat the id resolves to; every other seat and the list length stay the same |
| SeatEngine.ApplyAll | utils/socketManager.js:76-81 | the whole mutation loop applies the step to exactly the targeted seats, each once, even when an id is repeated, and leaves all other seats as they were |
| SeatEngine.Reserve | utils/socketManager.js:53-81 | reserve succeeds exactly when every requested seat exists, is unbooked, and has no running hold by another user. On failure it reports the first refusal. On success every targeted seat is held by the caller with the one deadline `now + holdMs`, which is also returned, and all other seats are unchanged |
| SeatEngine.Book | utils/socketManager.js:118-149 | book succeeds exactly when every requested seat exists, is unbooked, is reserved by the caller, and its deadline has not passed (a missing deadline counts as not passed). On failure it reports the first refusal. On success every targeted seat is booked with its hold cleared, and all other seats are unchanged |
| SeatEngine.Cancel | utils/socketManager.js:154-173 | cancel never fails. It clears the hold of exactly those targeted seats whose holder is the caller; only the holder field is tested. `changed` is true exactly when such a seat exists, and when it is false the list is unchanged |
| SeatEngine.Sweep | utils/socketManager.js:88-105 | the sweep releases exactly the seats that are reserved, unbooked, and whose deadline is at or before `now`, whoever holds them. It touches no other seat, leaves no lapsed hold behind, and reports `changed` exactly when it released something |
| EngineProperties.TargetedIffRequested | utils/socketManager.js:60 | with unique seat ids, a request targets exactly the seats whose ids it names |
| EngineProperties.ReservePreservesWellFormed | utils/socketManager.js:76-81 | a successful reserve keeps the invariant: a booked seat has no hold, and the reserved flag, holder and deadline are set together |
| EngineProperties.BookPreservesWellFormed | utils/socketManager.js:139-145 | a successful book keeps the well-formedness invariant |
| EngineProperties.CancelPreservesWellFormed | utils/socketManager.js:159-167 | cancel keeps the well-formedness invariant |
| EngineProperties.SweepPreservesWellFormed | utils/socketManager.js:91-103 | the expiry sweep keeps the well-formedness invariant |
| EngineProperties.ReserveAgainstOtherHold | utils/socketManager.js:64-72 | another user's hold on an unbooked seat blocks a reserve of that seat alone only while its deadline is strictly after `now`. While it blocks, the error is "reserved by another user". Once the deadline has passed, a reserve of that seat alone succeeds and the caller becomes the holder |
| EngineProperties.ReserveExcludesOthers | utils/socketManager.js:64-81 | after a successful reserve, any reserve by a different user that names one of those seats fails until the hold's deadline |
| EngineProperties.ReserveAgainExtends | utils/socketManager.js:76-81 | the holder can reserve the same seats again; the new reserve succeeds and moves their shared deadline to the new `now + holdMs` |
| EngineProperties.ReserveThenBook | utils/socketManager.js:129-145 | after a successful reserve, the holder's book of the same seats at any time before the deadline succeeds and books exactly those seats |
| EngineProperties.ReserveThenLateBookFails | utils/socketManager.js:129-136 | after a successful reserve of at least one seat, the holder's book at or after the deadline fails with "not reserved by you or expired" |
| EngineProperties.BookAcceptsHoldWithoutDeadline | utils/socketManager.js:133 | a hold by the caller that has no deadline can be booked at any time; such a seat already breaks the well-formedness invariant, so this concerns stored data that violates it |
| EngineProperties.ReserveThenCancel | utils/socketManager.js:159-167 | the holder's cancel right after a reserve releases exactly the reserved seats. It reports a change exactly when the request was non-empty |
| EngineProperties.ReserveThenSweep | utils/socketManager.js:91-103 | a sweep run directly on the list a reserve returns releases each targeted seat, and reports a change, when the sweep runs at or after that reserve's deadline. Before the deadline it leaves the seat as the reserve left it |
| EngineProperties.BookThenSweep | utils/socketManager.js:92-96 | a sweep run directly on the list a book returns, at any `now`, leaves each seat that book targeted booked and untouched |
| EngineProperties.SweepIdempotent | utils/socketManager.js:91-105 | a second sweep at the same `now` changes nothing and reports no change |
| Pending.PendingSeats | routes/reservationRoutes.js:19 | the filter keeps exactly the seats (no more, no fewer) whose holder is the user and whose deadline is after `now` |
| Pending.PendingHolds | routes/reservationRoutes.js:17-22 | every entry comes from an input show, with its id and title, and holds that show's pending seats. No entry has an empty seat list. Every show with at least one pending seat appears |
| Pending.PendingSeatsAppend | routes/reservationRoutes.js:19 | the seat filter keeps list order: filtering a concatenation gives the concatenation of the filtered parts |
| Pending.PendingHoldsAppend | routes/reservationRoutes.js:18-20 | the query keeps the order of shows: querying a concatenation of show lists gives the concatenation of the answers |
| Pending.PendingAreHolds | routes/reservationRoutes.js:19 | on a well-formed show, every reported seat is reserved, unbooked, and its deadline has not passed |
| Pending.SweepKeepsPending | routes/reservationRoutes.js:19 | a sweep at `now` never removes a hold that the query at `now` reports |

## Behaviour of the code worth noting

- A repeated reserve by the same user overwrites the holder and the deadline
  unconditionally. There is no separate "extend" branch (`utils/socketManager.js:76-81`).
- Book treats a hold with no deadline as not lapsed (`utils/socketManager.js:133`).
  It does not demand a deadline strictly in the future.
- Cancel tests only the holder field, not the reserved flag (`utils/socketManager.js:161`).
- An empty list of seat ids is accepted. Reserve and book then succeed and change nothing.
- The sweep releases lapsed holds of every user in the show (`utils/socketManager.js:91-103`).
  No targeted "hold expired" notice and no user/session registry exist in the code.

## Left out

- Loading and saving the show (`Movie.findById`, `save`, `Movie.find`) are the store boundary. The input list is the loaded show and the returned list is what gets saved. For that reason the "Movie not found" error (`utils/socketManager.js:55`, `:120`, `:156`) is not part of the seat-level model.
- The `Movie.find` pre-selection of shows in the pending route is a store query. The model takes the list of shows it returns as input; the filter drops any show without pending seats anyway.
- The `setTimeout` that arms the sweep (delay `RES_MS + 200`) is not modelled, and neither is the debounced `emitMovieUpdate` with its `emitQueue` or the socket.io connection and room handling: these are timer and network plumbing. The sweep body is modelled as a function of `now`.
- Concurrency between overlapping requests on the same show is not modelled. The code has no locking, and each call is treated as atomic on its input.
- SeatEngine.Reserve: the code reads the clock twice, once for validation and once for the deadline, with only synchronous code between the two reads. The model uses a single reading `now` for both.
- SeatEngine.Reserve: `RES_MS` comes from `parseInt` of an environment variable and may be NaN. The model takes it as an integer `holdMs`, so a negative value (a hold that is lapsed from the start) is covered, but NaN and the invalid `Date` it would produce are not modelled.
- JavaScript `Date` range limits and millisecond rounding are not modelled. Times are unbounded integers.
- Seats.FindSeat: `SeatId` stands for the canonical form of a seat's ObjectId. Mongoose casts the requested id to an ObjectId before comparing it, so a different spelling of the same id (upper-case hex, say) finds the seat in the code. The model compares ids exactly and does not model other spellings of an id.
- Malformed requests are not modelled: a `seatIds` that is not an array, or ids that Mongoose cannot cast. Requests are sequences of id strings.
- The HTTP layer maps every error to status 400 with the error's message. The model keeps only the error kinds (`SeatEngine.Error`), with the messages as comments.
- Authentication (password hashing, JWT), bootstrap, the plain movie routes and seeding are not part of this model.
