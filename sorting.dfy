/**
 * List.sort with a seat comparator. The library sort is stable; it is modelled
 * by insertion sort, which places a seat before the first seat it is not
 * after, so seats that compare equal keep their input order.
 */
module Sorting {
  import opened Comparison
  import opened Seats

  /** Inserts x into s in front of the first seat that x is not after. */
  function Insert(c: SeatComparator, x: Seat, s: seq<Seat>): (r: seq<Seat>)
    ensures multiset(r) == multiset(s) + multiset{x}
    ensures |r| == |s| + 1
    ensures r[0] == x || (|s| > 0 && r[0] == s[0])
  {
    if s == [] then [x]
    else if CompareSeats(c, x, s[0]) != Gt then [x] + s
    else
      assert s == [s[0]] + s[1..];
      [s[0]] + Insert(c, x, s[1..])
  }

  /** Inserting into a sorted list keeps it sorted. */
  lemma {:induction false} InsertSorted(c: SeatComparator, x: Seat, s: seq<Seat>)
    requires SortedBy(c, s)
    ensures SortedBy(c, Insert(c, x, s))
  {
    if s != [] && CompareSeats(c, x, s[0]) == Gt {
      var rest := Insert(c, x, s[1..]);
      SortedSlice(c, s, 1, |s|);
      InsertSorted(c, x, s[1..]);
      CompareSeatsFlip(c, x, s[0]);
      var r := [s[0]] + rest;
      forall i | 0 < i < |r| ensures CompareSeats(c, r[i - 1], r[i]) != Gt {
        if i > 1 {
          assert r[i - 1] == rest[i - 2] && r[i] == rest[i - 1];
        }
      }
    }
  }

  /** The seats of s, reordered so that each is not after its successor. */
  function SortSeats(c: SeatComparator, s: seq<Seat>): (r: seq<Seat>)
    ensures multiset(r) == multiset(s)
    ensures |r| == |s|
    ensures SortedBy(c, r)
  {
    if s == [] then []
    else
      assert s == [s[0]] + s[1..];
      InsertSorted(c, s[0], SortSeats(c, s[1..]));
      Insert(c, s[0], SortSeats(c, s[1..]))
  }

  /** The seats of s that compare equal to x, in the order they have in s. */
  function EqualTo(c: SeatComparator, s: seq<Seat>, x: Seat): seq<Seat> {
    if s == [] then []
    else (if CompareSeats(c, s[0], x) == Eq then [s[0]] else []) + EqualTo(c, s[1..], x)
  }

  /** The equal-to-x seats of a list with a seat in front. */
  lemma EqualToCons(c: SeatComparator, a: Seat, s: seq<Seat>, x: Seat)
    ensures EqualTo(c, [a] + s, x) == (if CompareSeats(c, a, x) == Eq then [a] else []) + EqualTo(c, s, x)
  {
    assert ([a] + s)[0] == a && ([a] + s)[1..] == s;
  }

  /** Seats that compare equal to a common seat are not after each other. */
  lemma EqualToSameKey(c: SeatComparator, y: Seat, z: Seat, x: Seat)
    requires CompareSeats(c, y, x) == Eq && CompareSeats(c, z, x) == Eq
    ensures CompareSeats(c, y, z) != Gt
  {
    CompareSeatsFlip(c, z, x);
    CompareSeatsTransitive(c, y, x, z);
  }

  /** Insertion puts y in front of every seat that compares equal to it. */
  lemma {:induction false} InsertEqualTo(c: SeatComparator, y: Seat, s: seq<Seat>, x: Seat)
    ensures EqualTo(c, Insert(c, y, s), x) == EqualTo(c, [y], x) + EqualTo(c, s, x)
  {
    EqualToCons(c, y, [], x);
    if s == [] {
    } else if CompareSeats(c, y, s[0]) != Gt {
      EqualToCons(c, y, s, x);
    } else {
      InsertEqualTo(c, y, s[1..], x);
      InsertEqualToAfterHead(c, y, s, x);
    }
  }

  /** The step of InsertEqualTo where y goes after the first seat of s. */
  lemma InsertEqualToAfterHead(c: SeatComparator, y: Seat, s: seq<Seat>, x: Seat)
    requires s != [] && CompareSeats(c, y, s[0]) == Gt
    requires EqualTo(c, Insert(c, y, s[1..]), x) == EqualTo(c, [y], x) + EqualTo(c, s[1..], x)
    ensures EqualTo(c, Insert(c, y, s), x) == EqualTo(c, [y], x) + EqualTo(c, s, x)
  {
    assert Insert(c, y, s) == [s[0]] + Insert(c, y, s[1..]);
    var head := if CompareSeats(c, s[0], x) == Eq then [s[0]] else [];
    EqualToCons(c, s[0], Insert(c, y, s[1..]), x);
    assert EqualTo(c, s, x) == head + EqualTo(c, s[1..], x);
    if EqualTo(c, [y], x) != [] && head != [] {
      EqualToSameKey(c, y, s[0], x);
    }
    SwapFront(head, EqualTo(c, [y], x), EqualTo(c, s[1..], x));
  }

  /** Two lists of which one is empty can be put in front of a third in either order. */
  lemma SwapFront(a: seq<Seat>, b: seq<Seat>, rest: seq<Seat>)
    requires a == [] || b == []
    ensures a + (b + rest) == b + (a + rest)
  {
  }

  /**
   * The sort is stable: for every seat x, the seats that compare equal to x
   * come out in the order they went in.
   */
  lemma {:induction false} SortSeatsStable(c: SeatComparator, s: seq<Seat>, x: Seat)
    ensures EqualTo(c, SortSeats(c, s), x) == EqualTo(c, s, x)
  {
    if s != [] {
      SortSeatsStable(c, s[1..], x);
      InsertEqualTo(c, s[0], SortSeats(c, s[1..]), x);
      EqualToCons(c, s[0], [], x);
      EqualToCons(c, s[0], s[1..], x);
    }
  }

  /** In a sorted list every seat is not after any later seat, not only its successor. */
  lemma {:induction false} SortedAllPairs(c: SeatComparator, s: seq<Seat>, i: int, j: int)
    requires SortedBy(c, s) && 0 <= i <= j < |s|
    ensures CompareSeats(c, s[i], s[j]) != Gt
    decreases j - i
  {
    if i == j {
      CompareSeatsFlip(c, s[i], s[i]);
    } else {
      SortedAllPairs(c, s, i, j - 1);
      CompareSeatsTransitive(c, s[i], s[j - 1], s[j]);
    }
  }

  /** A slice of a sorted list is sorted. */
  lemma SortedSlice(c: SeatComparator, s: seq<Seat>, lo: int, hi: int)
    requires SortedBy(c, s) && 0 <= lo <= hi <= |s|
    ensures SortedBy(c, s[lo..hi])
  {
    forall i | 0 < i < hi - lo
      ensures CompareSeats(c, s[lo..hi][i - 1], s[lo..hi][i]) != Gt
    {
      assert s[lo..hi][i - 1] == s[lo + i - 1] && s[lo..hi][i] == s[lo + i];
    }
  }

  /** Two sorted arrangements of the same seats with distinct positions start with the same seat. */
  lemma SortedHeadsEqual(a: seq<Seat>, b: seq<Seat>)
    requires |a| > 0 && multiset(a) == multiset(b) && DistinctPositions(b)
    requires SortedBy(ByRowThenSeatNumber, a) && SortedBy(ByRowThenSeatNumber, b)
    ensures a[0] == b[0]
  {
    assert a[0] in multiset(b);
    assert b[0] in multiset(a);
    var p :| 0 <= p < |b| && b[p] == a[0];
    var q :| 0 <= q < |a| && a[q] == b[0];
    SortedAllPairs(ByRowThenSeatNumber, a, 0, q);
    SortedAllPairs(ByRowThenSeatNumber, b, 0, p);
    CompareSeatsFlip(ByRowThenSeatNumber, a[0], b[0]);
    CompareStringsEq(a[0].row, b[0].row);
  }

  /** Equal multisets with equal first seats have equal tails. */
  lemma MultisetTails(a: seq<Seat>, b: seq<Seat>)
    requires |a| > 0 && |b| > 0 && a[0] == b[0] && multiset(a) == multiset(b)
    ensures multiset(a[1..]) == multiset(b[1..])
  {
    assert a == [a[0]] + a[1..] && b == [b[0]] + b[1..];
    assert multiset(a[1..]) == multiset(a) - multiset{a[0]};
    assert multiset(b[1..]) == multiset(b) - multiset{b[0]};
  }

  /** Dropping the first seat keeps positions distinct. */
  lemma DistinctPositionsTail(s: seq<Seat>)
    requires |s| > 0 && DistinctPositions(s)
    ensures DistinctPositions(s[1..])
  {
    forall i, j | 0 <= i < j < |s| - 1
      ensures s[1..][i].row != s[1..][j].row || s[1..][i].seatNumber != s[1..][j].seatNumber
    {
      assert s[1..][i] == s[i + 1] && s[1..][j] == s[j + 1];
    }
  }

  /**
   * With distinct positions, (row, seat number) is a strict order on the list,
   * so its sorted arrangement is unique: any sorting algorithm, stable or not,
   * yields the same list as SortSeats.
   */
  lemma {:induction false} SortedByRowThenSeatNumberUnique(a: seq<Seat>, b: seq<Seat>)
    requires multiset(a) == multiset(b) && DistinctPositions(a)
    requires SortedBy(ByRowThenSeatNumber, a) && SortedBy(ByRowThenSeatNumber, b)
    ensures a == b
    decreases |a|
  {
    assert |a| == |multiset(a)| == |multiset(b)| == |b|;
    if a != [] {
      DistinctPositionsPermutation(a, b);
      SortedHeadsEqual(a, b);
      MultisetTails(a, b);
      DistinctPositionsTail(a);
      SortedSlice(ByRowThenSeatNumber, a, 1, |a|);
      SortedSlice(ByRowThenSeatNumber, b, 1, |b|);
      SortedByRowThenSeatNumberUnique(a[1..], b[1..]);
      assert a == [a[0]] + a[1..] && b == [b[0]] + b[1..];
    }
  }
}
