/**
 Properties of the seat-state engine that relate the transitions: the
 well-formedness invariant each of them keeps, and what one operation
 implies for the next one on the same show.
 */
module EngineProperties {
  import opened Seats
  import opened SeatEngine

  /** A seat a successful reserve or book targets was present and unbooked before it. */
  lemma TargetedWasPermitted(op: Op, seats: seq<Seat>, user: UserId, sids: seq<SeatId>, now: int, i: nat)
    requires forall k :: 0 <= k < |sids| ==> Permits(op, seats, user, sids[k], now)
    requires i < |seats| && Targeted(seats, sids, i)
    ensures !seats[i].isBooked
    ensures op == ReserveOp ==> !LiveHoldOfOther(seats[i], user, now)
    ensures op == BookOp ==> HoldUsableBy(seats[i], user, now)
  {
    var k :| 0 <= k < |sids| && sids[k] == seats[i].id;
    assert Permits(op, seats, user, sids[k], now);
  }

  /** With unique seat identities a request targets exactly the seats it names. */
  lemma TargetedIffRequested(seats: seq<Seat>, sids: seq<SeatId>, i: nat)
    requires UniqueIds(seats) && i < |seats|
    ensures Targeted(seats, sids, i) <==> seats[i].id in sids
  {
    FindSeatUnique(seats, i);
  }

  /** Each seat a successful reserve names is found at the same place afterwards, held by the caller. */
  lemma ReservedSeat(seats: seq<Seat>, user: UserId, sids: seq<SeatId>, now: int, holdMs: int, k: nat)
    requires Reserve(seats, user, sids, now, holdMs).Success?
    requires k < |sids|
    ensures var s1 := Reserve(seats, user, sids, now, holdMs).value.seats;
      && FindSeat(seats, sids[k]).Some?
      && FindSeat(s1, sids[k]) == FindSeat(seats, sids[k])
      && var i := FindSeat(seats, sids[k]).value;
         && !seats[i].isBooked
         && s1[i] == Held(seats[i], user, now + holdMs)
  {
    var s1 := Reserve(seats, user, sids, now, holdMs).value.seats;
    assert Permits(ReserveOp, seats, user, sids[k], now);
    FindSeatSameIds(s1, seats, sids[k]);
    assert Targeted(seats, sids, FindSeat(seats, sids[k]).value);
  }

  lemma ReservePreservesWellFormed(seats: seq<Seat>, user: UserId, sids: seq<SeatId>, now: int, holdMs: int)
    requires WellFormed(seats)
    requires Reserve(seats, user, sids, now, holdMs).Success?
    ensures WellFormed(Reserve(seats, user, sids, now, holdMs).value.seats)
  {
    var r := Reserve(seats, user, sids, now, holdMs).value.seats;
    forall i | 0 <= i < |seats| ensures SeatWellFormed(r[i]) {
      if Targeted(seats, sids, i) {
        TargetedWasPermitted(ReserveOp, seats, user, sids, now, i);
      }
    }
  }

  lemma BookPreservesWellFormed(seats: seq<Seat>, user: UserId, sids: seq<SeatId>, now: int)
    requires WellFormed(seats)
    requires Book(seats, user, sids, now).Success?
    ensures WellFormed(Book(seats, user, sids, now).value)
  {
  }

  lemma CancelPreservesWellFormed(seats: seq<Seat>, user: UserId, sids: seq<SeatId>)
    requires WellFormed(seats)
    ensures WellFormed(Cancel(seats, user, sids).seats)
  {
  }

  lemma SweepPreservesWellFormed(seats: seq<Seat>, now: int)
    requires WellFormed(seats)
    ensures WellFormed(Sweep(seats, now).seats)
  {
  }

  /**
   A hold by another user blocks a reserve of that seat alone exactly while
   its deadline lies strictly after `now`; once it has passed, that reserve
   takes the seat.
   */
  lemma ReserveAgainstOtherHold(seats: seq<Seat>, user: UserId, sid: SeatId, now: int, holdMs: int)
    requires FindSeat(seats, sid).Some?
    requires var s := seats[FindSeat(seats, sid).value];
      && !s.isBooked && s.isReserved
      && s.reservedBy.Some? && s.reservedBy.value != user
      && s.reservedUntil.Some?
    ensures var s := seats[FindSeat(seats, sid).value];
      var r := Reserve(seats, user, [sid], now, holdMs);
      && (r.Success? <==> s.reservedUntil.value <= now)
      && (r.Failure? ==> r.error == ReservedByAnotherUser)
      && (r.Success? ==> r.value.seats[FindSeat(seats, sid).value].reservedBy == Some(user))
  {
    var i := FindSeat(seats, sid).value;
    var r := Reserve(seats, user, [sid], now, holdMs);
    assert [sid][0] == sid;
    if r.Success? {
      assert Targeted(seats, [sid], i);
    }
  }

  /** A hold that a reserve has just granted keeps every other user out until its deadline. */
  lemma ReserveExcludesOthers(seats: seq<Seat>, u1: UserId, sids1: seq<SeatId>, t1: int, holdMs: int,
                              u2: UserId, sids2: seq<SeatId>, t2: int, holdMs2: int, sid: SeatId)
    requires Reserve(seats, u1, sids1, t1, holdMs).Success?
    requires u1 != u2 && t2 < t1 + holdMs
    requires sid in sids1 && sid in sids2
    ensures Reserve(Reserve(seats, u1, sids1, t1, holdMs).value.seats, u2, sids2, t2, holdMs2).Failure?
  {
    var s1 := Reserve(seats, u1, sids1, t1, holdMs).value.seats;
    var k :| 0 <= k < |sids1| && sids1[k] == sid;
    assert Permits(ReserveOp, seats, u1, sids1[k], t1);
    var i := FindSeat(seats, sid).value;
    assert Targeted(seats, sids1, i);
    FindSeatSameIds(s1, seats, sid);
    var k2 :| 0 <= k2 < |sids2| && sids2[k2] == sid;
    assert !Permits(ReserveOp, s1, u2, sids2[k2], t2);
  }

  /** Reserving again what one already holds succeeds and moves the deadline to the new one. */
  lemma ReserveAgainExtends(seats: seq<Seat>, user: UserId, sids: seq<SeatId>, t1: int, t2: int, holdMs: int)
    requires Reserve(seats, user, sids, t1, holdMs).Success?
    ensures var s1 := Reserve(seats, user, sids, t1, holdMs).value.seats;
      var r := Reserve(s1, user, sids, t2, holdMs);
      && r.Success?
      && r.value.reservedUntil == t2 + holdMs
      && forall i :: 0 <= i < |seats| ==>
           r.value.seats[i] == if Targeted(seats, sids, i) then Held(seats[i], user, t2 + holdMs) else seats[i]
  {
    var s1 := Reserve(seats, user, sids, t1, holdMs).value.seats;
    forall k | 0 <= k < |sids| ensures Permits(ReserveOp, s1, user, sids[k], t2) {
      ReservedSeat(seats, user, sids, t1, holdMs, k);
    }
    forall i | 0 <= i < |seats| ensures Targeted(s1, sids, i) <==> Targeted(seats, sids, i) {
      FindSeatSameIds(s1, seats, seats[i].id);
    }
  }

  /** The holder can book its seats at any time before the deadline of its reserve. */
  lemma ReserveThenBook(seats: seq<Seat>, user: UserId, sids: seq<SeatId>, t1: int, holdMs: int, t2: int)
    requires Reserve(seats, user, sids, t1, holdMs).Success?
    requires t2 < t1 + holdMs
    ensures var s1 := Reserve(seats, user, sids, t1, holdMs).value.seats;
      var b := Book(s1, user, sids, t2);
      && b.Success?
      && forall i :: 0 <= i < |seats| ==>
           b.value[i] == if Targeted(seats, sids, i) then Committed(seats[i]) else seats[i]
  {
    var s1 := Reserve(seats, user, sids, t1, holdMs).value.seats;
    forall k | 0 <= k < |sids| ensures Permits(BookOp, s1, user, sids[k], t2) {
      ReservedSeat(seats, user, sids, t1, holdMs, k);
    }
    forall i | 0 <= i < |seats| ensures Targeted(s1, sids, i) <==> Targeted(seats, sids, i) {
      FindSeatSameIds(s1, seats, seats[i].id);
    }
  }

  /** Once the deadline of a reserve has passed, booking its seats is refused. */
  lemma ReserveThenLateBookFails(seats: seq<Seat>, user: UserId, sids: seq<SeatId>, t1: int, holdMs: int, t2: int)
    requires Reserve(seats, user, sids, t1, holdMs).Success?
    requires |sids| > 0 && t2 >= t1 + holdMs
    ensures Book(Reserve(seats, user, sids, t1, holdMs).value.seats, user, sids, t2)
            == Failure(NotReservedByYouOrExpired)
  {
    var s1 := Reserve(seats, user, sids, t1, holdMs).value.seats;
    ReservedSeat(seats, user, sids, t1, holdMs, 0);
    assert SeatCheck(BookOp, s1, user, sids[0], t2) == Some(NotReservedByYouOrExpired);
    assert Validate(BookOp, s1, user, sids, t2) == Some(NotReservedByYouOrExpired);
  }

  /**
   Booking does not require a deadline: a hold without one is never treated
   as lapsed. A seat that is reserved but has no deadline breaks
   `WellFormed`, so this only matters for stored data that already violates
   the invariant.
   */
  lemma BookAcceptsHoldWithoutDeadline(seats: seq<Seat>, user: UserId, sid: SeatId, now: int)
    requires FindSeat(seats, sid).Some?
    requires var s := seats[FindSeat(seats, sid).value];
      !s.isBooked && s.isReserved && s.reservedBy == Some(user) && s.reservedUntil.None?
    ensures Book(seats, user, [sid], now).Success?
  {
    assert [sid][0] == sid;
  }

  /** The caller's cancel right after its reserve releases every seat the reserve took. */
  lemma ReserveThenCancel(seats: seq<Seat>, user: UserId, sids: seq<SeatId>, now: int, holdMs: int)
    requires Reserve(seats, user, sids, now, holdMs).Success?
    ensures var s1 := Reserve(seats, user, sids, now, holdMs).value.seats;
      var c := Cancel(s1, user, sids);
      && (c.changed <==> |sids| > 0)
      && forall i :: 0 <= i < |seats| ==>
           c.seats[i] == if Targeted(seats, sids, i) then Released(seats[i]) else seats[i]
  {
    var s1 := Reserve(seats, user, sids, now, holdMs).value.seats;
    var c := Cancel(s1, user, sids);
    forall i | 0 <= i < |seats|
      ensures c.seats[i] == if Targeted(seats, sids, i) then Released(seats[i]) else seats[i]
    {
      CancelHitsAfterReserve(seats, user, sids, now, holdMs, i);
    }
    if |sids| > 0 {
      ReservedSeat(seats, user, sids, now, holdMs, 0);
      var i := FindSeat(seats, sids[0]).value;
      CancelHitsAfterReserve(seats, user, sids, now, holdMs, i);
    }
  }

  /** Right after a reserve, the holder's cancel of the same ids hits exactly the reserved seats. */
  lemma CancelHitsAfterReserve(seats: seq<Seat>, user: UserId, sids: seq<SeatId>, now: int, holdMs: int, i: nat)
    requires Reserve(seats, user, sids, now, holdMs).Success?
    requires i < |seats|
    ensures var s1 := Reserve(seats, user, sids, now, holdMs).value.seats;
      && (CancelHits(s1, sids, user, i) <==> Targeted(seats, sids, i))
      && (if Targeted(seats, sids, i) then Released(s1[i]) else s1[i])
         == (if Targeted(seats, sids, i) then Released(seats[i]) else seats[i])
  {
    var s1 := Reserve(seats, user, sids, now, holdMs).value.seats;
    FindSeatSameIds(s1, seats, seats[i].id);
  }

  /**
   A sweep run directly on the list a reserve returns releases each
   targeted seat when it runs at or after that reserve's deadline, and
   before it leaves the seat as the reserve left it.
   */
  lemma ReserveThenSweep(seats: seq<Seat>, user: UserId, sids: seq<SeatId>, t1: int, holdMs: int, t2: int, i: nat)
    requires Reserve(seats, user, sids, t1, holdMs).Success?
    requires i < |seats| && Targeted(seats, sids, i)
    ensures var s1 := Reserve(seats, user, sids, t1, holdMs).value.seats;
      var w := Sweep(s1, t2);
      && (t2 >= t1 + holdMs ==> w.changed && w.seats[i] == Released(seats[i]))
      && (t2 < t1 + holdMs ==> w.seats[i] == s1[i])
  {
    TargetedWasPermitted(ReserveOp, seats, user, sids, t1, i);
    var s1 := Reserve(seats, user, sids, t1, holdMs).value.seats;
    assert Lapsed(s1[i], t2) <==> t2 >= t1 + holdMs;
  }

  /** A booked seat outlives every later sweep. */
  lemma BookThenSweep(seats: seq<Seat>, user: UserId, sids: seq<SeatId>, t1: int, t2: int, i: nat)
    requires Book(seats, user, sids, t1).Success?
    requires i < |seats| && Targeted(seats, sids, i)
    ensures var b := Book(seats, user, sids, t1).value;
      Sweep(b, t2).seats[i] == b[i] && b[i].isBooked
  {
  }

  /** Sweeping twice at the same time is sweeping once; the second pass changes nothing. */
  lemma SweepIdempotent(seats: seq<Seat>, now: int)
    ensures var w := Sweep(seats, now);
      Sweep(w.seats, now) == Change(w.seats, false)
  {
  }
}
