/**
 The pending-holds query: for a user and a clock reading, the holds the
 user still has running, grouped by show, so a client can recover them
 after reconnecting.
 */
module Pending {
  import opened Seats
  import SeatEngine

  datatype Movie = Movie(id: MovieId, title: string, seats: seq<Seat>)

  /** One entry of the answer: a show and the user's running holds in it. */
  datatype PendingEntry = PendingEntry(movieId: MovieId, title: string, seats: seq<Seat>)

  /** The seat names `user` as its holder and its deadline lies after `now`. */
  predicate PendingFor(s: Seat, user: UserId, now: int) {
    s.reservedBy == Some(user) && s.reservedUntil.Some? && s.reservedUntil.value > now
  }

  /** The seats of one show that are pending for `user`, in list order. */
  function PendingSeats(seats: seq<Seat>, user: UserId, now: int): (r: seq<Seat>)
    ensures |r| <= |seats|
    ensures forall s :: s in r ==> s in seats && PendingFor(s, user, now)
    ensures forall s :: s in seats && PendingFor(s, user, now) ==> s in r
    decreases |seats|
  {
    if |seats| == 0 then []
    else
      assert seats == [seats[0]] + seats[1..];
      var rest := PendingSeats(seats[1..], user, now);
      if PendingFor(seats[0], user, now) then [seats[0]] + rest else rest
  }

  /** The entry a show contributes: one when some seat is pending, none otherwise. */
  function EntryFor(m: Movie, user: UserId, now: int): seq<PendingEntry> {
    var ps := PendingSeats(m.seats, user, now);
    if |ps| > 0 then [PendingEntry(m.id, m.title, ps)] else []
  }

  /** The answer of the query over the shows the store returned, in their order. */
  function PendingHolds(movies: seq<Movie>, user: UserId, now: int): (r: seq<PendingEntry>)
    ensures |r| <= |movies|
    ensures forall e :: e in r ==> |e.seats| > 0
    ensures forall e :: e in r ==> forall s :: s in e.seats ==> PendingFor(s, user, now)
    ensures forall e :: e in r ==> exists m :: m in movies && e == PendingEntry(m.id, m.title, PendingSeats(m.seats, user, now))
    ensures forall m :: m in movies && |PendingSeats(m.seats, user, now)| > 0 ==>
              PendingEntry(m.id, m.title, PendingSeats(m.seats, user, now)) in r
    decreases |movies|
  {
    if |movies| == 0 then []
    else
      assert movies == [movies[0]] + movies[1..];
      EntryFor(movies[0], user, now) + PendingHolds(movies[1..], user, now)
  }

  /** The seat filter keeps order: it distributes over concatenation. */
  lemma {:induction false} PendingSeatsAppend(a: seq<Seat>, b: seq<Seat>, user: UserId, now: int)
    ensures PendingSeats(a + b, user, now) == PendingSeats(a, user, now) + PendingSeats(b, user, now)
    decreases |a|
  {
    if |a| == 0 {
      assert a + b == b;
    } else {
      assert (a + b)[1..] == a[1..] + b;
      PendingSeatsAppend(a[1..], b, user, now);
    }
  }

  /** The query keeps the order of shows: it distributes over concatenation. */
  lemma {:induction false} PendingHoldsAppend(a: seq<Movie>, b: seq<Movie>, user: UserId, now: int)
    ensures PendingHolds(a + b, user, now) == PendingHolds(a, user, now) + PendingHolds(b, user, now)
    decreases |a|
  {
    if |a| == 0 {
      assert a + b == b;
    } else {
      assert (a + b)[1..] == a[1..] + b;
      PendingHoldsAppend(a[1..], b, user, now);
    }
  }

  /** On a well-formed show every pending seat is a live, unbooked hold. */
  lemma PendingAreHolds(seats: seq<Seat>, user: UserId, now: int)
    requires WellFormed(seats)
    ensures forall s :: s in PendingSeats(seats, user, now) ==>
              s.isReserved && !s.isBooked && !SeatEngine.DeadlinePassed(s, now)
  {
  }

  /** The expiry sweep at `now` never takes away a hold the query reports at `now`. */
  lemma {:induction false} SweepKeepsPending(seats: seq<Seat>, user: UserId, now: int)
    ensures PendingSeats(SeatEngine.Sweep(seats, now).seats, user, now) == PendingSeats(seats, user, now)
    decreases |seats|
  {
    if |seats| > 0 {
      var w := SeatEngine.Sweep(seats, now).seats;
      var w1 := SeatEngine.Sweep(seats[1..], now).seats;
      assert w == [w[0]] + w1 by {
        assert forall i :: 1 <= i < |seats| ==> seats[i] == seats[1..][i - 1];
      }
      assert w[1..] == w1;
      SweepKeepsPending(seats[1..], user, now);
    }
  }
}
