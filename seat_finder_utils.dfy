/**
 * The group scorer shared by both finders (SeatFinderUtils.java): the feature
 * score of a group and the group comparator built from it, plus the sliding
 * window of width n that both finders take over a sorted seat list.
 */
module SeatFinderUtils {
  import opened Comparison
  import opened Seats
  import opened Sorting

  /** How many of the seat's features the desired list names (features form a set). */
  function SeatScore(seat: Seat, desired: seq<Feature>): nat {
    |set f | f in seat.features && f in desired|
  }

  /**
   * calculateFeatureScore: the number of (seat, feature) pairs of the group
   * whose feature is desired.
   */
  function FeatureScore(group: seq<Seat>, desired: seq<Feature>): nat {
    if group == [] then 0 else SeatScore(group[0], desired) + FeatureScore(group[1..], desired)
  }

  /** The total number of feature tags the group's seats carry. */
  function FeatureCount(group: seq<Seat>): nat {
    if group == [] then 0 else |group[0].features| + FeatureCount(group[1..])
  }

  /** A subset is no larger than its superset. */
  lemma {:induction false} SubsetCardinality(a: set<Feature>, b: set<Feature>)
    requires a <= b
    ensures |a| <= |b|
    decreases |b|
  {
    if a != {} {
      var x :| x in a;
      SubsetCardinality(a - {x}, b - {x});
    }
  }

  /** The score of a concatenation is the sum of the scores (the stream is a flatMap). */
  lemma {:induction false} FeatureScoreAppend(a: seq<Seat>, b: seq<Seat>, desired: seq<Feature>)
    ensures FeatureScore(a + b, desired) == FeatureScore(a, desired) + FeatureScore(b, desired)
  {
    if a != [] {
      assert (a + b)[0] == a[0] && (a + b)[1..] == a[1..] + b;
      FeatureScoreAppend(a[1..], b, desired);
    } else {
      assert a + b == b;
    }
  }

  /** The score never exceeds the number of feature tags the group carries. */
  lemma {:induction false} FeatureScoreBounds(group: seq<Seat>, desired: seq<Feature>)
    ensures 0 <= FeatureScore(group, desired) <= FeatureCount(group)
  {
    if group != [] {
      SubsetCardinality((set f | f in group[0].features && f in desired), group[0].features);
      FeatureScoreBounds(group[1..], desired);
    }
  }

  /** Desiring every feature makes the score the number of feature tags the group carries. */
  lemma {:induction false} FeatureScoreAllDesired(group: seq<Seat>, desired: seq<Feature>)
    requires forall f: Feature :: f in desired
    ensures FeatureScore(group, desired) == FeatureCount(group)
  {
    if group != [] {
      assert (set f | f in group[0].features && f in desired) == group[0].features;
      FeatureScoreAllDesired(group[1..], desired);
    }
  }

  /** With no desired feature every group scores 0. */
  lemma {:induction false} FeatureScoreNoneDesired(group: seq<Seat>)
    ensures FeatureScore(group, []) == 0
  {
    if group != [] {
      assert (set f | f in group[0].features && f in []) == {};
      FeatureScoreNoneDesired(group[1..]);
    }
  }

  /**
   * Only the set of desired features matters: repeating a feature in the
   * desired list, or reordering the list, leaves every score unchanged.
   */
  lemma {:induction false} FeatureScoreSameDesiredSet(group: seq<Seat>, d1: seq<Feature>, d2: seq<Feature>)
    requires forall f :: f in d1 <==> f in d2
    ensures FeatureScore(group, d1) == FeatureScore(group, d2)
  {
    if group != [] {
      assert (set f | f in group[0].features && f in d1) == (set f | f in group[0].features && f in d2);
      FeatureScoreSameDesiredSet(group[1..], d1, d2);
    }
  }

  /**
   * createGroupComparator(desired): the higher feature score first, then the
   * earlier row of the first seat, then the smaller number of the first seat.
   */
  function CompareGroups(a: seq<Seat>, b: seq<Seat>, desired: seq<Feature>): Ordering
    requires |a| > 0 && |b| > 0
  {
    Then(CompareInt(FeatureScore(b, desired), FeatureScore(a, desired)),
      Then(CompareStrings(a[0].row, b[0].row), CompareInt(a[0].seatNumber, b[0].seatNumber)))
  }

  /** The three ranking keys of the group comparator, both directions. */
  lemma GroupRanking(a: seq<Seat>, b: seq<Seat>, desired: seq<Feature>)
    requires |a| > 0 && |b| > 0
    ensures CompareGroups(a, b, desired) == Lt <==>
      || FeatureScore(a, desired) > FeatureScore(b, desired)
      || (FeatureScore(a, desired) == FeatureScore(b, desired) && CompareStrings(a[0].row, b[0].row) == Lt)
      || (FeatureScore(a, desired) == FeatureScore(b, desired) && a[0].row == b[0].row
          && a[0].seatNumber < b[0].seatNumber)
    ensures CompareGroups(a, b, desired) == Eq <==>
      FeatureScore(a, desired) == FeatureScore(b, desired) && a[0].row == b[0].row
      && a[0].seatNumber == b[0].seatNumber
  {
    CompareStringsEq(a[0].row, b[0].row);
  }

  /** The group comparator depends on the set of desired features only. */
  lemma CompareGroupsSameDesiredSet(a: seq<Seat>, b: seq<Seat>, d1: seq<Feature>, d2: seq<Feature>)
    requires |a| > 0 && |b| > 0
    requires forall f :: f in d1 <==> f in d2
    ensures CompareGroups(a, b, d1) == CompareGroups(a, b, d2)
  {
    FeatureScoreSameDesiredSet(a, d1, d2);
    FeatureScoreSameDesiredSet(b, d1, d2);
  }

  /** With no desired feature the ranking is by row, then by seat number, of the first seat. */
  lemma GroupRankingNoneDesired(a: seq<Seat>, b: seq<Seat>)
    requires |a| > 0 && |b| > 0
    ensures CompareGroups(a, b, []) == CompareSeats(ByRowThenSeatNumber, a[0], b[0])
  {
    FeatureScoreNoneDesired(a);
    FeatureScoreNoneDesired(b);
  }

  /** The group comparator is a total preorder: reflexive, antisymmetric in sign, total and transitive. */
  lemma GroupOrderTotalPreorder(a: seq<Seat>, b: seq<Seat>, c: seq<Seat>, desired: seq<Feature>)
    requires |a| > 0 && |b| > 0 && |c| > 0
    ensures CompareGroups(a, a, desired) == Eq
    ensures CompareGroups(b, a, desired) == Flip(CompareGroups(a, b, desired))
    ensures CompareGroups(a, b, desired) != Gt || CompareGroups(b, a, desired) != Gt
    ensures CompareGroups(a, b, desired) != Gt && CompareGroups(b, c, desired) != Gt ==>
      CompareGroups(a, c, desired) != Gt
  {
    CompareStringsEq(a[0].row, a[0].row);
    CompareStringsFlip(a[0].row, b[0].row);
    if CompareStrings(a[0].row, b[0].row) != Gt && CompareStrings(b[0].row, c[0].row) != Gt {
      CompareStringsTransitive(a[0].row, b[0].row, c[0].row);
    }
    if CompareGroups(a, b, desired) != Gt && CompareGroups(b, c, desired) != Gt {
      CompareStringsEq(a[0].row, b[0].row);
      CompareStringsEq(b[0].row, c[0].row);
      CompareStringsEq(a[0].row, c[0].row);
    }
  }

  /**
   * Every slice of width n of s, in order of its first index; both finders
   * build these with subList(i, i + n) for i from 0 to |s| - n.
   */
  function Windows(s: seq<Seat>, n: int): (ws: seq<seq<Seat>>)
    requires n >= 1
    ensures |ws| == if |s| >= n then |s| - n + 1 else 0
    ensures forall i :: 0 <= i < |ws| ==> ws[i] == s[i..i + n]
    decreases |s|
  {
    if |s| < n then [] else [s[..n]] + Windows(s[1..], n)
  }

  /** A window of s is the slice of s at some index. */
  lemma WindowIndex(s: seq<Seat>, n: int, w: seq<Seat>) returns (i: int)
    requires n >= 1 && w in Windows(s, n)
    ensures 0 <= i && i + n <= |s| && w == s[i..i + n]
  {
    var ws := Windows(s, n);
    i :| 0 <= i < |ws| && ws[i] == w;
  }

  /** Each window has n seats, all from s, and is sorted when s is. */
  lemma WindowProperties(s: seq<Seat>, n: int, c: SeatComparator, i: int)
    requires n >= 1 && 0 <= i < |Windows(s, n)|
    ensures |Windows(s, n)[i]| == n
    ensures forall x :: x in Windows(s, n)[i] ==> x in s
    ensures SortedBy(c, s) ==> SortedBy(c, Windows(s, n)[i])
  {
    if SortedBy(c, s) {
      SortedSlice(c, s, i, i + n);
    }
  }
}
