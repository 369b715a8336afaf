/**
 * The seat entity (model/Seat.java) as the recommendation engine sees it: a row
 * label, a seat number, an occupancy flag and a set of feature tags. The
 * database identity and the owning flight are persistence details and are not
 * part of the value.
 */
module Seats {
  import opened Comparison

  /** The closed vocabulary of seat feature tags (SeatFeature). */
  datatype Feature = WindowSeat | MoreLegroom | CloseToExit

  /** Row labels are non-empty: the spread metric reads their first character. */
  type RowLabel = s: string | |s| > 0 witness "A"

  datatype Seat = Seat(row: RowLabel, seatNumber: int, occupied: bool, features: set<Feature>)

  /** No two seats of the list sit at the same (row, seat number) position. */
  ghost predicate DistinctPositions(seats: seq<Seat>) {
    forall i, j :: 0 <= i < j < |seats| ==>
      seats[i].row != seats[j].row || seats[i].seatNumber != seats[j].seatNumber
  }

  /** All seats of the group carry the row label of its first seat. */
  ghost predicate SameRow(group: seq<Seat>) {
    forall i :: 0 <= i < |group| ==> group[i].row == group[0].row
  }

  /** A list with distinct positions holds no seat value twice. */
  lemma {:induction false} DistinctPositionsCount(seats: seq<Seat>, x: Seat)
    requires DistinctPositions(seats)
    ensures multiset(seats)[x] <= 1
  {
    if seats != [] {
      assert seats == [seats[0]] + seats[1..];
      assert DistinctPositions(seats[1..]) by {
        forall i, j | 0 <= i < j < |seats| - 1
          ensures seats[1..][i].row != seats[1..][j].row || seats[1..][i].seatNumber != seats[1..][j].seatNumber
        {
          assert seats[1..][i] == seats[i + 1] && seats[1..][j] == seats[j + 1];
        }
      }
      DistinctPositionsCount(seats[1..], x);
      if x == seats[0] {
        assert x !in seats[1..];
      }
    }
  }

  /** A seat value found at two indexes occurs at least twice in the list's multiset. */
  lemma RepeatedSeatCount(seats: seq<Seat>, i: int, j: int)
    requires 0 <= i < j < |seats| && seats[i] == seats[j]
    ensures multiset(seats)[seats[i]] >= 2
  {
    assert seats == seats[..j] + seats[j..];
    assert seats[i] in seats[..j];
    assert seats[j] == seats[j..][0];
  }

  /** Distinct positions survive any reordering of the list. */
  lemma DistinctPositionsPermutation(a: seq<Seat>, b: seq<Seat>)
    requires multiset(a) == multiset(b) && DistinctPositions(a)
    ensures DistinctPositions(b)
  {
    forall i, j | 0 <= i < j < |b|
      ensures b[i].row != b[j].row || b[i].seatNumber != b[j].seatNumber
    {
      if b[i] == b[j] {
        RepeatedSeatCount(b, i, j);
        DistinctPositionsCount(a, b[i]);
      } else {
        assert b[i] in multiset(a) && b[j] in multiset(a);
        var p :| 0 <= p < |a| && a[p] == b[i];
        var q :| 0 <= q < |a| && a[q] == b[j];
        assert p != q;
      }
    }
  }

  /** Appending a seat whose position is new keeps positions distinct. */
  lemma DistinctPositionsSnoc(seats: seq<Seat>, seat: Seat)
    requires DistinctPositions(seats)
    requires forall s :: s in seats ==> s.row != seat.row || s.seatNumber != seat.seatNumber
    ensures DistinctPositions(seats + [seat])
  {
    var extended := seats + [seat];
    forall i, j | 0 <= i < j < |extended|
      ensures extended[i].row != extended[j].row || extended[i].seatNumber != extended[j].seatNumber
    {
      if j == |seats| {
        assert extended[i] in seats;
      }
    }
  }

  /** The two seat orders the finders sort by. */
  datatype SeatComparator =
    | BySeatNumber         // Comparator.comparingInt(Seat::getSeatNumber)
    | ByRowThenSeatNumber  // Comparator.comparing(Seat::getRow).thenComparingInt(Seat::getSeatNumber)

  function CompareSeats(c: SeatComparator, a: Seat, b: Seat): Ordering {
    match c
    case BySeatNumber => CompareInt(a.seatNumber, b.seatNumber)
    case ByRowThenSeatNumber => Then(CompareStrings(a.row, b.row), CompareInt(a.seatNumber, b.seatNumber))
  }

  /** Both seat orders are antisymmetric. */
  lemma CompareSeatsFlip(c: SeatComparator, a: Seat, b: Seat)
    ensures CompareSeats(c, b, a) == Flip(CompareSeats(c, a, b))
  {
    CompareStringsFlip(a.row, b.row);
  }

  /** Both seat orders are transitive. */
  lemma CompareSeatsTransitive(c: SeatComparator, a: Seat, b: Seat, d: Seat)
    requires CompareSeats(c, a, b) != Gt && CompareSeats(c, b, d) != Gt
    ensures CompareSeats(c, a, d) != Gt
  {
    if c.ByRowThenSeatNumber? {
      CompareStringsTransitive(a.row, b.row, d.row);
      CompareStringsEq(a.row, b.row);
      CompareStringsEq(b.row, d.row);
      CompareStringsEq(a.row, d.row);
      CompareStringsFlip(a.row, b.row);
    }
  }

  /** Each seat is not after its successor in the list. */
  predicate SortedBy(c: SeatComparator, s: seq<Seat>) {
    forall i :: 0 < i < |s| ==> CompareSeats(c, s[i - 1], s[i]) != Gt
  }
}
