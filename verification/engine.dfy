/**
 The seat-state engine of one show: reserve, book, cancel and the expiry
 sweep, each a pure transition from the loaded seat list to the list that is
 saved back. `now` is the clock reading of the call and `holdMs` the
 configured hold duration (`RES_MS`), both in milliseconds.

 Reserve and Book validate every requested seat against the loaded list
 before changing any of them; Cancel and the sweep never fail.
 */
module SeatEngine {
  import opened Seats

  /** The error kinds the transitions raise, in the words of their messages. */
  datatype Error =
    | InvalidSeatId              // "Invalid seat ID"
    | SeatAlreadyBooked          // "Seat already booked"
    | ReservedByAnotherUser      // "Seat already reserved by another user"
    | NotReservedByYouOrExpired  // "Seat not reserved by you or expired"

  datatype Result<+T> = Success(value: T) | Failure(error: Error)

  /** The two operations that validate before they mutate. */
  datatype Op = ReserveOp | BookOp

  /** A hold by someone other than `user` that is still running at `now`. */
  predicate LiveHoldOfOther(s: Seat, user: UserId, now: int) {
    && s.isReserved
    && s.reservedBy.Some? && s.reservedBy.value != user
    && s.reservedUntil.Some? && s.reservedUntil.value > now
  }

  /** A deadline that has passed; a seat without a deadline has not lapsed. */
  predicate DeadlinePassed(s: Seat, now: int) {
    s.reservedUntil.Some? && s.reservedUntil.value <= now
  }

  /** A hold by `user` that booking may turn into a booking at `now`. */
  predicate HoldUsableBy(s: Seat, user: UserId, now: int) {
    s.isReserved && s.reservedBy == Some(user) && !DeadlinePassed(s, now)
  }

  /** Whether `op` by `user` at `now` may proceed on the seat named `sid`. */
  predicate Permits(op: Op, seats: seq<Seat>, user: UserId, sid: SeatId, now: int) {
    match FindSeat(seats, sid)
    case None => false
    case Some(i) =>
      && !seats[i].isBooked
      && match op
         case ReserveOp => !LiveHoldOfOther(seats[i], user, now)
         case BookOp => HoldUsableBy(seats[i], user, now)
  }

  /** The refusal an operation raises when the seat is present and unbooked but unusable. */
  function ConflictError(op: Op): Error {
    match op
    case ReserveOp => ReservedByAnotherUser
    case BookOp => NotReservedByYouOrExpired
  }

  /**
   The per-seat check of the validation loop: a missing seat is reported
   first, then a booked one, then the operation's own conflict.
   */
  function SeatCheck(op: Op, seats: seq<Seat>, user: UserId, sid: SeatId, now: int): (r: Option<Error>)
    ensures r.None? <==> Permits(op, seats, user, sid, now)
    ensures r == Some(InvalidSeatId) <==> FindSeat(seats, sid).None?
    ensures r == Some(SeatAlreadyBooked) <==>
              FindSeat(seats, sid).Some? && seats[FindSeat(seats, sid).value].isBooked
    ensures r.Some? ==> r.value in {InvalidSeatId, SeatAlreadyBooked, ConflictError(op)}
  {
    match FindSeat(seats, sid)
    case None => Some(InvalidSeatId)
    case Some(i) =>
      if seats[i].isBooked then Some(SeatAlreadyBooked)
      else match op
        case ReserveOp =>
          if LiveHoldOfOther(seats[i], user, now) then Some(ReservedByAnotherUser) else None
        case BookOp =>
          if HoldUsableBy(seats[i], user, now) then None else Some(NotReservedByYouOrExpired)
  }

  /** `e` is the error of the first requested seat the check refuses. */
  predicate FirstRefusal(op: Op, seats: seq<Seat>, user: UserId, sids: seq<SeatId>, now: int, e: Error) {
    exists k :: 0 <= k < |sids|
      && SeatCheck(op, seats, user, sids[k], now) == Some(e)
      && forall j :: 0 <= j < k ==> Permits(op, seats, user, sids[j], now)
  }

  /** The validation loop over the whole request: it stops at the first refusal. */
  function Validate(op: Op, seats: seq<Seat>, user: UserId, sids: seq<SeatId>, now: int): (r: Option<Error>)
    ensures r.None? <==> forall k :: 0 <= k < |sids| ==> Permits(op, seats, user, sids[k], now)
    ensures r.Some? ==> FirstRefusal(op, seats, user, sids, now, r.value)
    decreases |sids|
  {
    if |sids| == 0 then None
    else match SeatCheck(op, seats, user, sids[0], now)
      case Some(e) =>
        assert SeatCheck(op, seats, user, sids[0], now) == Some(e);
        Some(e)
      case None =>
        var r := Validate(op, seats, user, sids[1..], now);
        ValidateShift(op, seats, user, sids, now, r);
        r
  }

  /** A request whose first seat passes is refused exactly where its tail is refused. */
  lemma ValidateShift(op: Op, seats: seq<Seat>, user: UserId, sids: seq<SeatId>, now: int, r: Option<Error>)
    requires |sids| > 0 && Permits(op, seats, user, sids[0], now)
    requires r.None? <==> forall k :: 0 <= k < |sids| - 1 ==> Permits(op, seats, user, sids[1..][k], now)
    requires r.Some? ==> FirstRefusal(op, seats, user, sids[1..], now, r.value)
    ensures r.None? <==> forall k :: 0 <= k < |sids| ==> Permits(op, seats, user, sids[k], now)
    ensures r.Some? ==> FirstRefusal(op, seats, user, sids, now, r.value)
  {
    assert forall k :: 1 <= k < |sids| ==> sids[k] == sids[1..][k - 1];
    if r.Some? {
      var k :| 0 <= k < |sids[1..]|
        && SeatCheck(op, seats, user, sids[1..][k], now) == Some(r.value)
        && forall j :: 0 <= j < k ==> Permits(op, seats, user, sids[1..][j], now);
      assert SeatCheck(op, seats, user, sids[k + 1], now) == Some(r.value);
      assert forall j :: 0 <= j < k + 1 ==> Permits(op, seats, user, sids[j], now);
    }
  }

  /** The change the mutation loop of each operation makes to one found seat. */
  datatype Step = Hold(user: UserId, until: int) | Commit | CancelBy(user: UserId)

  function StepSeat(st: Step, s: Seat): Seat {
    match st
    case Hold(u, t) => Held(s, u, t)
    case Commit => Committed(s)
    case CancelBy(u) => if s.reservedBy == Some(u) then Released(s) else s
  }

  /** Applying a step to a seat twice is applying it once. */
  lemma StepIdempotent(st: Step, s: Seat)
    ensures StepSeat(st, StepSeat(st, s)) == StepSeat(st, s)
  {
  }

  /**
   Seat `i` is changed by a request for `sids`: some requested id names it,
   that is, it is the first seat carrying its identity.
   */
  predicate Targeted(seats: seq<Seat>, sids: seq<SeatId>, i: nat)
    requires i < |seats|
  {
    seats[i].id in sids && FindSeat(seats, seats[i].id) == Some(i)
  }

  /** One iteration of a mutation loop: the seat named by `sid`, if any, takes the step. */
  function ApplyOne(seats: seq<Seat>, sid: SeatId, st: Step): (r: seq<Seat>)
    ensures |r| == |seats|
    ensures forall i :: 0 <= i < |seats| ==>
              r[i] == if FindSeat(seats, sid) == Some(i) then StepSeat(st, seats[i]) else seats[i]
  {
    match FindSeat(seats, sid)
    case None => seats
    case Some(i) => seats[i := StepSeat(st, seats[i])]
  }

  /** After the first iteration, the rest of the loop targets the same seats as the whole. */
  lemma ApplyOneShift(seats: seq<Seat>, sids: seq<SeatId>, st: Step)
    requires |sids| > 0
    ensures var s1 := ApplyOne(seats, sids[0], st);
      forall i :: 0 <= i < |seats| ==>
        (if Targeted(s1, sids[1..], i) then StepSeat(st, s1[i]) else s1[i])
        == (if Targeted(seats, sids, i) then StepSeat(st, seats[i]) else seats[i])
  {
    var s1 := ApplyOne(seats, sids[0], st);
    assert sids == [sids[0]] + sids[1..];
    forall i | 0 <= i < |seats|
      ensures (if Targeted(s1, sids[1..], i) then StepSeat(st, s1[i]) else s1[i])
              == (if Targeted(seats, sids, i) then StepSeat(st, seats[i]) else seats[i])
    {
      FindSeatSameIds(s1, seats, seats[i].id);
      StepIdempotent(st, seats[i]);
    }
  }

  /** A whole mutation loop: every targeted seat takes the step, all others are kept. */
  function ApplyAll(seats: seq<Seat>, sids: seq<SeatId>, st: Step): (r: seq<Seat>)
    ensures |r| == |seats|
    ensures forall i :: 0 <= i < |seats| ==>
              r[i] == if Targeted(seats, sids, i) then StepSeat(st, seats[i]) else seats[i]
    decreases |sids|
  {
    if |sids| == 0 then seats
    else
      ApplyOneShift(seats, sids, st);
      ApplyAll(ApplyOne(seats, sids[0], st), sids[1..], st)
  }

  /** A successful reservation: the list to save and the shared deadline it returns. */
  datatype Reservation = Reservation(seats: seq<Seat>, reservedUntil: int)

  /**
   Reserve the requested seats for `user`: all of them or none. Every
   reserved seat gets the same deadline `now + holdMs`; a hold the caller
   already has is overwritten, not extended separately.
   */
  function Reserve(seats: seq<Seat>, user: UserId, sids: seq<SeatId>, now: int, holdMs: int): (r: Result<Reservation>)
    ensures r.Success? <==> forall k :: 0 <= k < |sids| ==> Permits(ReserveOp, seats, user, sids[k], now)
    ensures r.Failure? ==> FirstRefusal(ReserveOp, seats, user, sids, now, r.error)
    ensures r.Success? ==> r.value.reservedUntil == now + holdMs
    ensures r.Success? ==> |r.value.seats| == |seats|
    ensures r.Success? ==> forall i :: 0 <= i < |seats| ==>
              r.value.seats[i] == if Targeted(seats, sids, i) then Held(seats[i], user, now + holdMs) else seats[i]
  {
    match Validate(ReserveOp, seats, user, sids, now)
    case Some(e) => Failure(e)
    case None =>
      var until := now + holdMs;
      Success(Reservation(ApplyAll(seats, sids, Hold(user, until)), until))
  }

  /**
   Book the requested seats for `user`: all of them or none. Each must be
   held by the caller under a hold whose deadline has not passed.
   */
  function Book(seats: seq<Seat>, user: UserId, sids: seq<SeatId>, now: int): (r: Result<seq<Seat>>)
    ensures r.Success? <==> forall k :: 0 <= k < |sids| ==> Permits(BookOp, seats, user, sids[k], now)
    ensures r.Failure? ==> FirstRefusal(BookOp, seats, user, sids, now, r.error)
    ensures r.Success? ==> |r.value| == |seats|
    ensures r.Success? ==> forall i :: 0 <= i < |seats| ==>
              r.value[i] == if Targeted(seats, sids, i) then Committed(seats[i]) else seats[i]
  {
    match Validate(BookOp, seats, user, sids, now)
    case Some(e) => Failure(e)
    case None => Success(ApplyAll(seats, sids, Commit))
  }

  /** The outcome of a lenient transition: the new list and whether anything changed. */
  datatype Change = Change(seats: seq<Seat>, changed: bool)

  /** A seat that a cancel by `user` naming it releases: the holder field names the caller. */
  predicate CancelHits(seats: seq<Seat>, sids: seq<SeatId>, user: UserId, i: nat)
    requires i < |seats|
  {
    Targeted(seats, sids, i) && seats[i].reservedBy == Some(user)
  }

  /**
   Cancel the caller's holds on the requested seats. Unknown ids and seats
   held by someone else are skipped; only the holder field is consulted.
   */
  function Cancel(seats: seq<Seat>, user: UserId, sids: seq<SeatId>): (r: Change)
    ensures |r.seats| == |seats|
    ensures forall i :: 0 <= i < |seats| ==>
              r.seats[i] == if CancelHits(seats, sids, user, i) then Released(seats[i]) else seats[i]
    ensures r.changed <==> exists i :: 0 <= i < |seats| && CancelHits(seats, sids, user, i)
    ensures !r.changed ==> r.seats == seats
    decreases |sids|
  {
    if |sids| == 0 then Change(seats, false)
    else
      var hit := match FindSeat(seats, sids[0])
        case None => false
        case Some(i) => seats[i].reservedBy == Some(user);
      var s1 := ApplyOne(seats, sids[0], CancelBy(user));
      var rest := Cancel(s1, user, sids[1..]);
      CancelShift(seats, user, sids);
      Change(rest.seats, hit || rest.changed)
  }

  /** The first iteration of the cancel loop hits a seat, or leaves the rest to hit the same ones. */
  lemma CancelShift(seats: seq<Seat>, user: UserId, sids: seq<SeatId>)
    requires |sids| > 0
    ensures var s1 := ApplyOne(seats, sids[0], CancelBy(user));
      && (forall i :: 0 <= i < |seats| ==>
            (if CancelHits(s1, sids[1..], user, i) then Released(s1[i]) else s1[i])
            == (if CancelHits(seats, sids, user, i) then Released(seats[i]) else seats[i]))
      && ((exists i :: 0 <= i < |seats| && CancelHits(seats, sids, user, i)) <==>
            (|| (FindSeat(seats, sids[0]).Some? && seats[FindSeat(seats, sids[0]).value].reservedBy == Some(user))
             || (exists i :: 0 <= i < |s1| && CancelHits(s1, sids[1..], user, i))))
  {
    var s1 := ApplyOne(seats, sids[0], CancelBy(user));
    assert sids == [sids[0]] + sids[1..];
    forall i | 0 <= i < |seats|
      ensures Targeted(s1, sids[1..], i) <==> seats[i].id in sids[1..] && FindSeat(seats, seats[i].id) == Some(i)
    {
      FindSeatSameIds(s1, seats, seats[i].id);
    }
    ApplyOneShift(seats, sids, CancelBy(user));
    var f := FindSeat(seats, sids[0]);
    if f.Some? && seats[f.value].reservedBy == Some(user) {
      assert CancelHits(seats, sids, user, f.value);
    } else {
      assert s1 == seats;
      forall i | 0 <= i < |seats| && CancelHits(seats, sids, user, i)
        ensures CancelHits(s1, sids[1..], user, i)
      {
        assert seats[i].id != sids[0];
      }
      forall i | 0 <= i < |seats| && CancelHits(s1, sids[1..], user, i)
        ensures CancelHits(seats, sids, user, i)
      {
      }
    }
  }

  /** A hold the sweep releases: reserved, not booked, with a deadline at or before `now`. */
  predicate Lapsed(s: Seat, now: int) {
    s.isReserved && !s.isBooked && DeadlinePassed(s, now)
  }

  /**
   The body of the expiry timer: every lapsed hold in the show is released,
   whoever holds it; nothing else is touched.
   */
  function Sweep(seats: seq<Seat>, now: int): (r: Change)
    ensures |r.seats| == |seats|
    ensures forall i :: 0 <= i < |seats| ==>
              r.seats[i] == if Lapsed(seats[i], now) then Released(seats[i]) else seats[i]
    ensures r.changed <==> exists i :: 0 <= i < |seats| && Lapsed(seats[i], now)
    ensures forall i :: 0 <= i < |seats| ==> !Lapsed(r.seats[i], now)
    decreases |seats|
  {
    if |seats| == 0 then Change([], false)
    else
      var head := if Lapsed(seats[0], now) then Released(seats[0]) else seats[0];
      var rest := Sweep(seats[1..], now);
      assert forall i :: 1 <= i < |seats| ==> seats[i] == seats[1..][i - 1];
      assert rest.changed ==> exists i :: 1 <= i < |seats| && Lapsed(seats[i], now);
      Change([head] + rest.seats, Lapsed(seats[0], now) || rest.changed)
  }
}
