/**
 * MixedSeatFinder.java: when no row has n adjacent free seats, sort all free
 * seats by (row, seat number), take every slice of n consecutive entries of
 * that list, and return the slice with the smallest spread, the group
 * comparator breaking ties.
 */
module MixedSeatFinder {
  import opened Comparison
  import opened Seats
  import opened Sorting
  import opened SeatFinderUtils

  // ----------------------------------------------------------------- sorting

  /** sortSeats: a copy of the seats ordered by row label, then by seat number. */
  function SortByRowThenNumber(availableSeats: seq<Seat>): (sortedSeats: seq<Seat>)
    ensures multiset(sortedSeats) == multiset(availableSeats)
    ensures |sortedSeats| == |availableSeats|
    ensures SortedBy(ByRowThenSeatNumber, sortedSeats)
  {
    SortSeats(ByRowThenSeatNumber, availableSeats)
  }

  /**
   * With distinct positions the sorted copy is the only arrangement of the
   * seats ordered by (row, seat number), whatever sorting algorithm made it.
   */
  lemma SortByRowThenNumberUnique(availableSeats: seq<Seat>, other: seq<Seat>)
    requires DistinctPositions(availableSeats)
    requires multiset(other) == multiset(availableSeats) && SortedBy(ByRowThenSeatNumber, other)
    ensures other == SortByRowThenNumber(availableSeats)
  {
    var sorted := SortByRowThenNumber(availableSeats);
    DistinctPositionsPermutation(availableSeats, sorted);
    SortedByRowThenSeatNumberUnique(sorted, other);
  }

  // -------------------------------------------------------------- candidates

  /** generateCandidateGroups: every slice of numSeats consecutive entries, in order. */
  method GenerateCandidateGroups(sortedSeats: seq<Seat>, numSeats: int) returns (candidateGroups: seq<seq<Seat>>)
    requires numSeats >= 1
    ensures candidateGroups == Windows(sortedSeats, numSeats)
  {
    ghost var windows := Windows(sortedSeats, numSeats);
    candidateGroups := [];
    var i := 0;
    while i <= |sortedSeats| - numSeats
      invariant 0 <= i <= |windows|
      invariant candidateGroups == windows[..i]
    {
      var group := sortedSeats[i..i + numSeats];
      assert windows[..i + 1] == windows[..i] + [group];
      candidateGroups := candidateGroups + [group];
      i := i + 1;
    }
    assert windows[..i] == windows;
  }

  // ------------------------------------------------------------------ spread

  /** The character code of the first character of each seat's row label. */
  function RowCodes(group: seq<Seat>): (codes: seq<int>)
    ensures |codes| == |group|
    ensures forall i :: 0 <= i < |group| ==> codes[i] == group[i].row[0] as int
  {
    if group == [] then [] else [group[0].row[0] as int] + RowCodes(group[1..])
  }

  /** The seat number of each seat. */
  function SeatNumbers(group: seq<Seat>): (numbers: seq<int>)
    ensures |numbers| == |group|
    ensures forall i :: 0 <= i < |group| ==> numbers[i] == group[i].seatNumber
  {
    if group == [] then [] else [group[0].seatNumber] + SeatNumbers(group[1..])
  }

  /** IntStream.min().orElse(0): the least element, or 0 for an empty stream. */
  function MinOrZero(xs: seq<int>): int {
    if xs == [] then 0
    else if |xs| == 1 then xs[0]
    else
      var rest := MinOrZero(xs[1..]);
      if xs[0] <= rest then xs[0] else rest
  }

  /** IntStream.max().orElse(0): the greatest element, or 0 for an empty stream. */
  function MaxOrZero(xs: seq<int>): int {
    if xs == [] then 0
    else if |xs| == 1 then xs[0]
    else
      var rest := MaxOrZero(xs[1..]);
      if xs[0] >= rest then xs[0] else rest
  }

  /** min().orElse(0) is 0 on no elements, and otherwise an element no larger than any other. */
  lemma {:induction false} MinOrZeroIsLeast(xs: seq<int>)
    ensures xs == [] ==> MinOrZero(xs) == 0
    ensures xs != [] ==> MinOrZero(xs) in xs && forall x :: x in xs ==> MinOrZero(xs) <= x
  {
    if |xs| > 1 {
      MinOrZeroIsLeast(xs[1..]);
      assert xs == [xs[0]] + xs[1..];
    }
  }

  /** max().orElse(0) is 0 on no elements, and otherwise an element no smaller than any other. */
  lemma {:induction false} MaxOrZeroIsGreatest(xs: seq<int>)
    ensures xs == [] ==> MaxOrZero(xs) == 0
    ensures xs != [] ==> MaxOrZero(xs) in xs && forall x :: x in xs ==> x <= MaxOrZero(xs)
  {
    if |xs| > 1 {
      MaxOrZeroIsGreatest(xs[1..]);
      assert xs == [xs[0]] + xs[1..];
    }
  }

  /**
   * calculateSpread: the distance between the extreme row-label first
   * characters plus the distance between the extreme seat numbers.
   */
  function Spread(group: seq<Seat>): (spread: int)
    ensures spread >= 0
    ensures group == [] ==> spread == 0
  {
    var rows, numbers := RowCodes(group), SeatNumbers(group);
    MinOrZeroIsLeast(rows);
    MaxOrZeroIsGreatest(rows);
    MinOrZeroIsLeast(numbers);
    MaxOrZeroIsGreatest(numbers);
    (MaxOrZero(rows) - MinOrZero(rows)) + (MaxOrZero(numbers) - MinOrZero(numbers))
  }

  /** The spread bounds every pairwise distance: no two seats of the group are further apart. */
  lemma SpreadBoundsPairs(group: seq<Seat>, i: int, j: int)
    requires 0 <= i < |group| && 0 <= j < |group|
    ensures group[j].seatNumber - group[i].seatNumber <= Spread(group)
    ensures group[j].row[0] as int - group[i].row[0] as int <= Spread(group)
  {
    var rows, numbers := RowCodes(group), SeatNumbers(group);
    MinOrZeroIsLeast(rows);
    MaxOrZeroIsGreatest(rows);
    MinOrZeroIsLeast(numbers);
    MaxOrZeroIsGreatest(numbers);
    assert rows[i] in rows && rows[j] in rows;
    assert numbers[i] in numbers && numbers[j] in numbers;
  }

  /** Over an ascending list, min is the first element and max the last. */
  lemma MinMaxOfAscending(xs: seq<int>)
    requires |xs| > 0
    requires forall i, j :: 0 <= i <= j < |xs| ==> xs[i] <= xs[j]
    ensures MinOrZero(xs) == xs[0] && MaxOrZero(xs) == xs[|xs| - 1]
  {
    MinOrZeroIsLeast(xs);
    MaxOrZeroIsGreatest(xs);
    assert xs[0] in xs && xs[|xs| - 1] in xs;
  }

  /** Over a constant list, min and max coincide. */
  lemma MinMaxOfConstant(xs: seq<int>)
    requires |xs| > 0
    requires forall i :: 0 <= i < |xs| ==> xs[i] == xs[0]
    ensures MaxOrZero(xs) == MinOrZero(xs)
  {
    MinOrZeroIsLeast(xs);
    MaxOrZeroIsGreatest(xs);
  }

  /**
   * A group inside one row sorted by seat number spreads exactly from its
   * first to its last seat; so a window the contiguous finder keeps has
   * spread n - 1.
   */
  lemma SpreadOfSortedRowGroup(group: seq<Seat>)
    requires |group| > 0 && SameRow(group) && SortedBy(BySeatNumber, group)
    ensures Spread(group) == group[|group| - 1].seatNumber - group[0].seatNumber
  {
    var rows, numbers := RowCodes(group), SeatNumbers(group);
    MinMaxOfConstant(rows);
    forall i, j | 0 <= i <= j < |numbers| ensures numbers[i] <= numbers[j] {
      SortedAllPairs(BySeatNumber, group, i, j);
    }
    MinMaxOfAscending(numbers);
  }

  // -------------------------------------------------------------- comparator

  /** crossRowComparator: the smaller spread first, then the group comparator. */
  function CompareCandidates(a: seq<Seat>, b: seq<Seat>, desired: seq<Feature>): Ordering
    requires |a| > 0 && |b| > 0
  {
    Then(CompareInt(Spread(a), Spread(b)), CompareGroups(a, b, desired))
  }

  /** The candidate order is a total preorder. */
  lemma CandidateOrderTotalPreorder(a: seq<Seat>, b: seq<Seat>, c: seq<Seat>, desired: seq<Feature>)
    requires |a| > 0 && |b| > 0 && |c| > 0
    ensures CompareCandidates(a, a, desired) == Eq
    ensures CompareCandidates(b, a, desired) == Flip(CompareCandidates(a, b, desired))
    ensures CompareCandidates(a, b, desired) != Gt || CompareCandidates(b, a, desired) != Gt
    ensures CompareCandidates(a, b, desired) != Gt && CompareCandidates(b, c, desired) != Gt ==>
      CompareCandidates(a, c, desired) != Gt
  {
    GroupOrderTotalPreorder(a, b, c, desired);
  }

  // --------------------------------------------------------------- selection

  /** One step of Stream.min: a strictly better last candidate beats every earlier one. */
  lemma NewBestCandidate(groups: seq<seq<Seat>>, prefix: seq<seq<Seat>>, m: nat, desired: seq<Feature>)
    requires |groups| > 1 && prefix == groups[..|groups| - 1] && m < |prefix|
    requires forall i :: 0 <= i < |groups| ==> |groups[i]| > 0
    requires forall j :: 0 <= j < |prefix| ==> CompareCandidates(prefix[m], prefix[j], desired) != Gt
    requires CompareCandidates(groups[m], groups[|groups| - 1], desired) == Gt
    ensures forall j :: 0 <= j < |groups| ==> CompareCandidates(groups[|groups| - 1], groups[j], desired) != Gt
    ensures forall j :: 0 <= j < |groups| - 1 ==> CompareCandidates(groups[j], groups[|groups| - 1], desired) == Gt
  {
    var last := groups[|groups| - 1];
    forall j | 0 <= j < |groups|
      ensures CompareCandidates(last, groups[j], desired) != Gt
      ensures j < |groups| - 1 ==> CompareCandidates(groups[j], last, desired) == Gt
    {
      if j < |prefix| {
        assert prefix[j] == groups[j];
      }
      CandidateOrderTotalPreorder(last, groups[m], groups[j], desired);
      CandidateOrderTotalPreorder(groups[m], groups[j], last, desired);
      CandidateOrderTotalPreorder(groups[j], last, last, desired);
    }
  }

  /** One step of Stream.min: a last candidate that is not strictly better leaves the minimum where it was. */
  lemma KeepBestCandidate(groups: seq<seq<Seat>>, prefix: seq<seq<Seat>>, m: nat, desired: seq<Feature>)
    requires |groups| > 1 && prefix == groups[..|groups| - 1] && m < |prefix|
    requires forall i :: 0 <= i < |groups| ==> |groups[i]| > 0
    requires forall j :: 0 <= j < |prefix| ==> CompareCandidates(prefix[m], prefix[j], desired) != Gt
    requires forall j :: 0 <= j < m ==> CompareCandidates(prefix[j], prefix[m], desired) == Gt
    requires CompareCandidates(groups[m], groups[|groups| - 1], desired) != Gt
    ensures forall j :: 0 <= j < |groups| ==> CompareCandidates(groups[m], groups[j], desired) != Gt
    ensures forall j :: 0 <= j < m ==> CompareCandidates(groups[j], groups[m], desired) == Gt
  {
    forall j | 0 <= j < |groups| - 1
      ensures CompareCandidates(groups[m], groups[j], desired) != Gt
      ensures j < m ==> CompareCandidates(groups[j], groups[m], desired) == Gt
    {
      assert prefix[j] == groups[j];
    }
  }

  /** The index Stream.min(crossRowComparator) lands on: the first minimal candidate. */
  function BestCandidateIndex(groups: seq<seq<Seat>>, desired: seq<Feature>): (k: nat)
    requires |groups| > 0
    requires forall i :: 0 <= i < |groups| ==> |groups[i]| > 0
    ensures k < |groups|
    ensures forall j :: 0 <= j < |groups| ==> CompareCandidates(groups[k], groups[j], desired) != Gt
    ensures forall j :: 0 <= j < k ==> CompareCandidates(groups[j], groups[k], desired) == Gt
    decreases |groups|
  {
    if |groups| == 1 then
      CandidateOrderTotalPreorder(groups[0], groups[0], groups[0], desired);
      0
    else
      var m := BestCandidateIndex(groups[..|groups| - 1], desired);
      if CompareCandidates(groups[m], groups[|groups| - 1], desired) != Gt then
        KeepBestCandidate(groups, groups[..|groups| - 1], m, desired);
        m
      else
        NewBestCandidate(groups, groups[..|groups| - 1], m, desired);
        |groups| - 1
  }

  /** selectBestCandidateGroup: the first minimal candidate, or nothing for no candidates. */
  function SelectBestCandidateGroup(candidateGroups: seq<seq<Seat>>, desired: seq<Feature>): (best: seq<Seat>)
    requires forall i :: 0 <= i < |candidateGroups| ==> |candidateGroups[i]| > 0
    ensures candidateGroups == [] ==> best == []
    ensures candidateGroups != [] ==> best in candidateGroups
    ensures candidateGroups != [] ==>
      forall j :: 0 <= j < |candidateGroups| ==> CompareCandidates(best, candidateGroups[j], desired) != Gt
  {
    if candidateGroups == [] then [] else candidateGroups[BestCandidateIndex(candidateGroups, desired)]
  }

  /** Stream.min lands on the same candidate for two desired lists naming the same features. */
  lemma {:induction false} BestCandidateIndexSameDesiredSet(groups: seq<seq<Seat>>, d1: seq<Feature>, d2: seq<Feature>)
    requires |groups| > 0
    requires forall i :: 0 <= i < |groups| ==> |groups[i]| > 0
    requires forall f :: f in d1 <==> f in d2
    ensures BestCandidateIndex(groups, d1) == BestCandidateIndex(groups, d2)
    decreases |groups|
  {
    if |groups| > 1 {
      BestCandidateIndexSameDesiredSet(groups[..|groups| - 1], d1, d2);
      var m := BestCandidateIndex(groups[..|groups| - 1], d1);
      CompareGroupsSameDesiredSet(groups[m], groups[|groups| - 1], d1, d2);
    }
  }

  // ------------------------------------------------------------ whole finder

  /** findBestMixedSeatGroup: the best slice of the sorted seats. */
  function MixedBest(availableSeats: seq<Seat>, n: int, desired: seq<Feature>): (best: seq<Seat>)
    requires n >= 1
    ensures |availableSeats| < n ==> best == []
    ensures |availableSeats| >= n ==> |best| == n && best in Windows(SortByRowThenNumber(availableSeats), n)
  {
    var windows := Windows(SortByRowThenNumber(availableSeats), n);
    assert forall i :: 0 <= i < |windows| ==> |windows[i]| > 0;
    SelectBestCandidateGroup(windows, desired)
  }

  /**
   * The result is a run of consecutive entries of the sorted seats: ordered by
   * (row, seat number), and made of available seats only.
   */
  lemma MixedBestIsSortedSlice(availableSeats: seq<Seat>, n: int, desired: seq<Feature>)
    requires n >= 1
    ensures SortedBy(ByRowThenSeatNumber, MixedBest(availableSeats, n, desired))
    ensures forall s :: s in MixedBest(availableSeats, n, desired) ==> s in availableSeats
  {
    var sorted := SortByRowThenNumber(availableSeats);
    var best := MixedBest(availableSeats, n, desired);
    if |availableSeats| >= n {
      var i :| 0 <= i < |Windows(sorted, n)| && Windows(sorted, n)[i] == best;
      WindowProperties(sorted, n, ByRowThenSeatNumber, i);
      forall s | s in best ensures s in availableSeats {
        assert s in multiset(sorted);
      }
    }
  }

  /**
   * No candidate window has a smaller spread than the result, and no
   * candidate of equal spread ranks before it in the group order.
   */
  lemma MixedBestIsMinimal(availableSeats: seq<Seat>, n: int, desired: seq<Feature>, w: seq<Seat>)
    requires n >= 1 && w in Windows(SortByRowThenNumber(availableSeats), n)
    ensures Spread(MixedBest(availableSeats, n, desired)) <= Spread(w)
    ensures Spread(MixedBest(availableSeats, n, desired)) == Spread(w) ==>
      CompareGroups(MixedBest(availableSeats, n, desired), w, desired) != Gt
  {
    var windows := Windows(SortByRowThenNumber(availableSeats), n);
    var j :| 0 <= j < |windows| && windows[j] == w;
  }

  /** Only the set of desired features matters to the mixed finder. */
  lemma MixedBestSameDesiredSet(availableSeats: seq<Seat>, n: int, d1: seq<Feature>, d2: seq<Feature>)
    requires n >= 1 && forall f :: f in d1 <==> f in d2
    ensures MixedBest(availableSeats, n, d1) == MixedBest(availableSeats, n, d2)
  {
    var windows := Windows(SortByRowThenNumber(availableSeats), n);
    if windows != [] {
      BestCandidateIndexSameDesiredSet(windows, d1, d2);
    }
  }

  /** findBestMixedSeatGroup: sort a copy, generate the candidate slices, pick the best. */
  method FindBestMixedSeatGroup(availableSeats: seq<Seat>, numSeats: int, features: seq<Feature>)
    returns (best: seq<Seat>)
    requires numSeats >= 1
    ensures best == MixedBest(availableSeats, numSeats, features)
  {
    var sortedSeats := SortByRowThenNumber(availableSeats);
    var candidateGroups := GenerateCandidateGroups(sortedSeats, numSeats);
    assert forall i :: 0 <= i < |candidateGroups| ==> |candidateGroups[i]| > 0;
    best := SelectBestCandidateGroup(candidateGroups, features);
  }
}
