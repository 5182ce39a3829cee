/**
 The seat record of a show and the lookup of a seat by its identity.

 A show (the `Movie` document) owns an ordered list of seats. Each seat has
 an identity, a row label and a number, two status flags and the two fields
 of a hold: who holds it and until when. Times are integers in milliseconds.
 */
module Seats {

  datatype Option<+T> = None | Some(value: T)

  type UserId = string
  type SeatId = string
  type MovieId = string

  datatype Seat = Seat(
    id: SeatId,
    row: string,
    number: int,
    isBooked: bool,
    isReserved: bool,
    reservedBy: Option<UserId>,
    reservedUntil: Option<int>)

  /** A seat as the schema creates it: every status field takes its default. */
  function NewSeat(id: SeatId, row: string, number: int): (s: Seat)
    ensures s.id == id && s.row == row && s.number == number
    ensures SeatWellFormed(s) && !s.isBooked && !s.isReserved
  {
    Seat(id, row, number, false, false, None, None)
  }

  /**
   The invariant every operation keeps: a booked seat carries no hold, and
   the reserved flag, the holder and the deadline are set together.
   */
  predicate SeatWellFormed(s: Seat) {
    && (s.isBooked ==> !s.isReserved && s.reservedBy.None? && s.reservedUntil.None?)
    && (s.isReserved <==> s.reservedBy.Some?)
    && (s.isReserved <==> s.reservedUntil.Some?)
  }

  predicate WellFormed(seats: seq<Seat>) {
    forall i :: 0 <= i < |seats| ==> SeatWellFormed(seats[i])
  }

  /** The seat placed on hold for `user` until `until`; identity and status otherwise kept. */
  function Held(s: Seat, user: UserId, until: int): Seat {
    s.(isReserved := true, reservedBy := Some(user), reservedUntil := Some(until))
  }

  /** The seat with its hold cleared. */
  function Released(s: Seat): Seat {
    s.(isReserved := false, reservedBy := None, reservedUntil := None)
  }

  /** The seat permanently booked, its hold cleared. */
  function Committed(s: Seat): Seat {
    s.(isBooked := true, isReserved := false, reservedBy := None, reservedUntil := None)
  }

  /** The identities of the seats, in list order. */
  function Ids(seats: seq<Seat>): (ids: seq<SeatId>)
    ensures |ids| == |seats|
    ensures forall i :: 0 <= i < |seats| ==> ids[i] == seats[i].id
  {
    seq(|seats|, i requires 0 <= i < |seats| => seats[i].id)
  }

  /** The position of the first occurrence of `sid` in `ids`, if any. */
  function IndexOf(ids: seq<SeatId>, sid: SeatId): (r: Option<nat>)
    ensures r.Some? ==> r.value < |ids| && ids[r.value] == sid
    ensures r.Some? ==> forall j :: 0 <= j < r.value ==> ids[j] != sid
    ensures r.None? <==> sid !in ids
  {
    if |ids| == 0 then None
    else if ids[0] == sid then Some(0)
    else
      assert ids == [ids[0]] + ids[1..];
      match IndexOf(ids[1..], sid)
      case None => None
      case Some(k) => Some(k + 1)
  }

  /**
   The seat a request names by `sid`: the first seat of the list carrying
   that identity, or None when no seat does.
   */
  function FindSeat(seats: seq<Seat>, sid: SeatId): (r: Option<nat>)
    ensures r.Some? ==> r.value < |seats| && seats[r.value].id == sid
    ensures r.Some? ==> forall j :: 0 <= j < r.value ==> seats[j].id != sid
    ensures r.None? <==> forall j :: 0 <= j < |seats| ==> seats[j].id != sid
  {
    var r := IndexOf(Ids(seats), sid);
    assert r.None? ==> forall j :: 0 <= j < |seats| ==> Ids(seats)[j] != sid;
    r
  }

  /** Two lists whose seats carry the same identities resolve every id alike. */
  lemma FindSeatSameIds(a: seq<Seat>, b: seq<Seat>, sid: SeatId)
    requires |a| == |b|
    requires forall i :: 0 <= i < |a| ==> a[i].id == b[i].id
    ensures FindSeat(a, sid) == FindSeat(b, sid)
  {
    assert Ids(a) == Ids(b);
  }

  predicate UniqueIds(seats: seq<Seat>) {
    forall i, j :: 0 <= i < j < |seats| ==> seats[i].id != seats[j].id
  }

  /** With unique identities, each seat is found at its own position. */
  lemma FindSeatUnique(seats: seq<Seat>, i: nat)
    requires UniqueIds(seats)
    requires i < |seats|
    ensures FindSeat(seats, seats[i].id) == Some(i)
  {
    var r := FindSeat(seats, seats[i].id);
    assert r.Some?;
  }
}
