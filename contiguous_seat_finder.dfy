/**
 * ContiguousSeatFinder.java: group the available seats by row, sort each row
 * by seat number, slide a window of n seats over each row, keep the windows
 * whose last and first seat numbers differ by n - 1, and return the best kept
 * window under the group comparator (or nothing).
 *
 * The rows are visited in HashMap iteration order, which Java leaves
 * unspecified. The finder here picks the next row nondeterministically and
 * reports the order it used as a ghost result; the specification functions
 * take that order as a parameter, and ContiguousBestIndependentOfRowOrder
 * shows that with distinct seat positions the order cannot change the result.
 */
module ContiguousSeatFinder {
  import opened Comparison
  import opened Seats
  import opened Sorting
  import opened SeatFinderUtils

  // ---------------------------------------------------------------- grouping

  /** The seats of the list that sit in the given row, in list order. */
  function SeatsInRow(seats: seq<Seat>, row: RowLabel): (r: seq<Seat>)
    ensures forall s :: s in r <==> s in seats && s.row == row
    ensures |r| <= |seats|
  {
    if seats == [] then []
    else
      var prefix, last := seats[..|seats| - 1], seats[|seats| - 1];
      assert seats == prefix + [last];
      SeatsInRow(prefix, row) + (if last.row == row then [last] else [])
  }

  /** The row labels that occur in the list. */
  function RowSet(seats: seq<Seat>): set<RowLabel> {
    set s | s in seats :: s.row
  }

  /**
   * The map the finder builds, folding computeIfAbsent(row, new list).add(seat)
   * over the list.
   */
  function GroupByRow(seats: seq<Seat>): map<RowLabel, seq<Seat>> {
    if seats == [] then map[]
    else
      var before, seat := GroupByRow(seats[..|seats| - 1]), seats[|seats| - 1];
      before[seat.row := (if seat.row in before then before[seat.row] else []) + [seat]]
  }

  /** Appending a seat adds its row label to the row set. */
  lemma RowSetSnoc(prefix: seq<Seat>, seat: Seat)
    ensures RowSet(prefix + [seat]) == RowSet(prefix) + {seat.row}
  {
    forall s | s in prefix + [seat] ensures s in prefix || s == seat { }
  }

  /** A row label that no seat carries has no seats. */
  lemma SeatsInRowAbsent(seats: seq<Seat>, row: RowLabel)
    requires row !in RowSet(seats)
    ensures SeatsInRow(seats, row) == []
  {
    if SeatsInRow(seats, row) != [] {
      assert SeatsInRow(seats, row)[0] in SeatsInRow(seats, row);
    }
  }

  /** One row label's entry of the map: present iff some seat carries it, holding that row's seats. */
  lemma {:induction false} GroupByRowEntry(seats: seq<Seat>, r: RowLabel)
    ensures r in GroupByRow(seats) <==> r in RowSet(seats)
    ensures r in GroupByRow(seats) ==> GroupByRow(seats)[r] == SeatsInRow(seats, r)
  {
    if seats != [] {
      var prefix, seat := seats[..|seats| - 1], seats[|seats| - 1];
      GroupByRowEntry(prefix, r);
      assert seats == prefix + [seat];
      RowSetSnoc(prefix, seat);
      if r == seat.row && r !in RowSet(prefix) {
        SeatsInRowAbsent(prefix, r);
      }
    }
  }

  /** The map has one entry per row label of the list, holding that row's seats in list order. */
  lemma GroupByRowEntries(seats: seq<Seat>)
    ensures GroupByRow(seats).Keys == RowSet(seats)
    ensures forall r :: r in GroupByRow(seats) ==> GroupByRow(seats)[r] == SeatsInRow(seats, r)
  {
    forall r: RowLabel ensures r in GroupByRow(seats) <==> r in RowSet(seats) {
      GroupByRowEntry(seats, r);
    }
    forall r | r in GroupByRow(seats) ensures GroupByRow(seats)[r] == SeatsInRow(seats, r) {
      GroupByRowEntry(seats, r);
    }
  }

  /** findBestContiguousSeatGroup's grouping loop: fill a map row -> seats with computeIfAbsent(row, ...).add(seat). */
  method GroupSeatsByRow(availableSeats: seq<Seat>) returns (seatsByRow: map<RowLabel, seq<Seat>>)
    ensures seatsByRow == GroupByRow(availableSeats)
  {
    seatsByRow := map[];
    for i := 0 to |availableSeats|
      invariant seatsByRow == GroupByRow(availableSeats[..i])
    {
      var seat := availableSeats[i];
      var rowSeats := if seat.row in seatsByRow then seatsByRow[seat.row] else [];
      seatsByRow := seatsByRow[seat.row := rowSeats + [seat]];
      assert availableSeats[..i + 1][..i] == availableSeats[..i];
    }
    assert availableSeats[..|availableSeats|] == availableSeats;
  }

  // ------------------------------------------------------ windows of one row

  /** isContiguousGroup: n seats whose last and first seat numbers differ by n - 1. */
  function IsContiguousGroup(group: seq<Seat>, n: int): bool {
    if |group| == 0 || |group| != n then false
    else group[n - 1].seatNumber - group[0].seatNumber == n - 1
  }

  /** The windows that pass isContiguousGroup, in order. */
  function KeepContiguous(ws: seq<seq<Seat>>, n: int): (r: seq<seq<Seat>>)
    ensures forall w :: w in r <==> w in ws && IsContiguousGroup(w, n)
  {
    if ws == [] then []
    else
      var prefix, last := ws[..|ws| - 1], ws[|ws| - 1];
      assert ws == prefix + [last];
      KeepContiguous(prefix, n) + (if IsContiguousGroup(last, n) then [last] else [])
  }

  /**
   * What one row contributes: nothing when it has fewer than n seats,
   * otherwise the qualifying windows of the row sorted by seat number.
   */
  function RowWindows(rowSeats: seq<Seat>, n: int): (r: seq<seq<Seat>>)
    requires n >= 1
    ensures forall w :: w in r <==>
      IsContiguousGroup(w, n) && w in Windows(SortSeats(BySeatNumber, rowSeats), n)
  {
    if |rowSeats| >= n then KeepContiguous(Windows(SortSeats(BySeatNumber, rowSeats), n), n) else []
  }

  /** A row's windows hold n seats of that row, sorted by seat number, n - 1 apart end to end. */
  lemma RowWindowProperties(seats: seq<Seat>, row: RowLabel, n: int, w: seq<Seat>)
    requires n >= 1 && w in RowWindows(SeatsInRow(seats, row), n)
    ensures |w| == n && IsContiguousGroup(w, n) && SortedBy(BySeatNumber, w)
    ensures forall s :: s in w ==> s in seats && s.row == row
  {
    var sorted := SortSeats(BySeatNumber, SeatsInRow(seats, row));
    var i :| 0 <= i < |Windows(sorted, n)| && Windows(sorted, n)[i] == w;
    WindowProperties(sorted, n, BySeatNumber, i);
    forall s | s in w ensures s in seats && s.row == row {
      assert s in multiset(sorted);
    }
  }

  // ------------------------------------------------------ windows of all rows

  /** The order lists every key of the map exactly once, as iterating its entry set does. */
  ghost predicate IsEnumerationOf(order: seq<RowLabel>, rows: set<RowLabel>) {
    && (forall i, j :: 0 <= i < j < |order| ==> order[i] != order[j])
    && (forall r :: r in order <==> r in rows)
  }

  /** A window the finder may return: n seats of one row, sorted by number, n - 1 apart, all available. */
  ghost predicate IsRowRun(availableSeats: seq<Seat>, n: int, w: seq<Seat>) {
    && |w| == n
    && SameRow(w)
    && SortedBy(BySeatNumber, w)
    && IsContiguousGroup(w, n)
    && (forall s :: s in w ==> s in availableSeats)
  }

  /** findContiguousGroups, with the rows visited in the given order. */
  function ContiguousGroups(order: seq<RowLabel>, availableSeats: seq<Seat>, n: int): (groups: seq<seq<Seat>>)
    requires n >= 1
    ensures forall w :: w in groups ==> IsRowRun(availableSeats, n, w)
  {
    if order == [] then []
    else
      var prefix, row := order[..|order| - 1], order[|order| - 1];
      var earlier := ContiguousGroups(prefix, availableSeats, n);
      var here := RowWindows(SeatsInRow(availableSeats, row), n);
      assert forall w :: w in here ==> IsRowRun(availableSeats, n, w) by {
        forall w | w in here ensures IsRowRun(availableSeats, n, w) {
          RowWindowProperties(availableSeats, row, n, w);
          assert w[0] in w;
        }
      }
      earlier + here
  }

  /** The seats of one row, sorted by seat number as findContiguousGroups sorts them. */
  function SortedRow(availableSeats: seq<Seat>, row: RowLabel): seq<Seat> {
    SortSeats(BySeatNumber, SeatsInRow(availableSeats, row))
  }

  /**
   * w is a qualifying window: n consecutive entries of its row's seats sorted
   * by number, whose last and first seat numbers differ by n - 1. This does
   * not mention any iteration order.
   */
  ghost predicate IsContiguousCandidate(availableSeats: seq<Seat>, n: int, w: seq<Seat>) {
    && n >= 1
    && |w| == n
    && IsContiguousGroup(w, n)
    && w in Windows(SortedRow(availableSeats, w[0].row), n)
  }

  /** A row's windows are exactly the qualifying windows that start in that row. */
  lemma RowWindowsAreCandidates(availableSeats: seq<Seat>, n: int, row: RowLabel, w: seq<Seat>)
    requires n >= 1
    ensures w in RowWindows(SeatsInRow(availableSeats, row), n) <==>
      IsContiguousCandidate(availableSeats, n, w) && w[0].row == row
  {
    if w in RowWindows(SeatsInRow(availableSeats, row), n) {
      RowWindowProperties(availableSeats, row, n, w);
      assert w[0] in w;
    }
  }

  /** A window is collected exactly when it qualifies and its row is visited. */
  lemma {:induction false} ContiguousGroupsMembers(order: seq<RowLabel>, availableSeats: seq<Seat>, n: int, w: seq<Seat>)
    requires n >= 1
    ensures w in ContiguousGroups(order, availableSeats, n) <==>
      IsContiguousCandidate(availableSeats, n, w) && w[0].row in order
  {
    if order != [] {
      var prefix, row := order[..|order| - 1], order[|order| - 1];
      ContiguousGroupsMembers(prefix, availableSeats, n, w);
      RowWindowsAreCandidates(availableSeats, n, row, w);
      assert w in ContiguousGroups(order, availableSeats, n) <==>
        w in ContiguousGroups(prefix, availableSeats, n) || w in RowWindows(SeatsInRow(availableSeats, row), n);
      assert forall r :: r in order <==> r in prefix || r == row by {
        assert order == prefix + [row];
      }
    }
  }

  /** Visiting every row exactly once collects exactly the qualifying windows. */
  lemma ContiguousGroupsAreCandidates(order: seq<RowLabel>, availableSeats: seq<Seat>, n: int, w: seq<Seat>)
    requires n >= 1 && IsEnumerationOf(order, RowSet(availableSeats))
    ensures w in ContiguousGroups(order, availableSeats, n) <==> IsContiguousCandidate(availableSeats, n, w)
  {
    ContiguousGroupsMembers(order, availableSeats, n, w);
    if IsContiguousCandidate(availableSeats, n, w) {
      var sorted := SortedRow(availableSeats, w[0].row);
      assert |Windows(sorted, n)| > 0;
      assert sorted[0] in multiset(SeatsInRow(availableSeats, w[0].row));
      assert w[0].row in RowSet(availableSeats);
    }
  }

  /** A qualifying window comes from a row with at least n available seats. */
  lemma CandidateRowLongEnough(availableSeats: seq<Seat>, n: int, w: seq<Seat>)
    requires IsContiguousCandidate(availableSeats, n, w)
    ensures |SeatsInRow(availableSeats, w[0].row)| >= n
  {
    assert |Windows(SortedRow(availableSeats, w[0].row), n)| > 0;
  }

  // --------------------------------------------------------------- selection

  /** One step of Stream.min: a strictly better last group beats every earlier one. */
  lemma NewBestGroup(groups: seq<seq<Seat>>, prefix: seq<seq<Seat>>, m: nat, desired: seq<Feature>)
    requires |groups| > 1 && prefix == groups[..|groups| - 1] && m < |prefix|
    requires forall i :: 0 <= i < |groups| ==> |groups[i]| > 0
    requires forall j :: 0 <= j < |prefix| ==> CompareGroups(prefix[m], prefix[j], desired) != Gt
    requires CompareGroups(groups[m], groups[|groups| - 1], desired) == Gt
    ensures forall j :: 0 <= j < |groups| ==> CompareGroups(groups[|groups| - 1], groups[j], desired) != Gt
    ensures forall j :: 0 <= j < |groups| - 1 ==> CompareGroups(groups[j], groups[|groups| - 1], desired) == Gt
  {
    var last := groups[|groups| - 1];
    forall j | 0 <= j < |groups|
      ensures CompareGroups(last, groups[j], desired) != Gt
      ensures j < |groups| - 1 ==> CompareGroups(groups[j], last, desired) == Gt
    {
      if j < |prefix| {
        assert prefix[j] == groups[j];
      }
      GroupOrderTotalPreorder(last, groups[m], groups[j], desired);
      GroupOrderTotalPreorder(groups[m], groups[j], last, desired);
      GroupOrderTotalPreorder(groups[j], last, last, desired);
    }
  }

  /** One step of Stream.min: a last group that is not strictly better leaves the minimum where it was. */
  lemma KeepBestGroup(groups: seq<seq<Seat>>, prefix: seq<seq<Seat>>, m: nat, desired: seq<Feature>)
    requires |groups| > 1 && prefix == groups[..|groups| - 1] && m < |prefix|
    requires forall i :: 0 <= i < |groups| ==> |groups[i]| > 0
    requires forall j :: 0 <= j < |prefix| ==> CompareGroups(prefix[m], prefix[j], desired) != Gt
    requires forall j :: 0 <= j < m ==> CompareGroups(prefix[j], prefix[m], desired) == Gt
    requires CompareGroups(groups[m], groups[|groups| - 1], desired) != Gt
    ensures forall j :: 0 <= j < |groups| ==> CompareGroups(groups[m], groups[j], desired) != Gt
    ensures forall j :: 0 <= j < m ==> CompareGroups(groups[j], groups[m], desired) == Gt
  {
    forall j | 0 <= j < |groups| - 1
      ensures CompareGroups(groups[m], groups[j], desired) != Gt
      ensures j < m ==> CompareGroups(groups[j], groups[m], desired) == Gt
    {
      assert prefix[j] == groups[j];
    }
  }

  /**
   * The index Stream.min(groupComparator) lands on: a minimal group, and the
   * first one, because minBy keeps the accumulated group when compare(acc, g) <= 0.
   */
  function BestGroupIndex(groups: seq<seq<Seat>>, desired: seq<Feature>): (k: nat)
    requires |groups| > 0
    requires forall i :: 0 <= i < |groups| ==> |groups[i]| > 0
    ensures k < |groups|
    ensures forall j :: 0 <= j < |groups| ==> CompareGroups(groups[k], groups[j], desired) != Gt
    ensures forall j :: 0 <= j < k ==> CompareGroups(groups[j], groups[k], desired) == Gt
    decreases |groups|
  {
    if |groups| == 1 then
      GroupOrderTotalPreorder(groups[0], groups[0], groups[0], desired);
      0
    else
      var m := BestGroupIndex(groups[..|groups| - 1], desired);
      if CompareGroups(groups[m], groups[|groups| - 1], desired) != Gt then
        KeepBestGroup(groups, groups[..|groups| - 1], m, desired);
        m
      else
        NewBestGroup(groups, groups[..|groups| - 1], m, desired);
        |groups| - 1
  }

  /** selectBestGroup: nothing for no candidates, otherwise the first minimal candidate. */
  function SelectBestGroup(groups: seq<seq<Seat>>, desired: seq<Feature>): (best: seq<Seat>)
    requires forall i :: 0 <= i < |groups| ==> |groups[i]| > 0
    ensures groups == [] ==> best == []
    ensures groups != [] ==> best in groups
    ensures groups != [] ==> forall j :: 0 <= j < |groups| ==> CompareGroups(best, groups[j], desired) != Gt
  {
    if groups == [] then [] else groups[BestGroupIndex(groups, desired)]
  }

  /** Stream.min lands on the same group for two desired lists naming the same features. */
  lemma {:induction false} BestGroupIndexSameDesiredSet(groups: seq<seq<Seat>>, d1: seq<Feature>, d2: seq<Feature>)
    requires |groups| > 0
    requires forall i :: 0 <= i < |groups| ==> |groups[i]| > 0
    requires forall f :: f in d1 <==> f in d2
    ensures BestGroupIndex(groups, d1) == BestGroupIndex(groups, d2)
    decreases |groups|
  {
    if |groups| > 1 {
      BestGroupIndexSameDesiredSet(groups[..|groups| - 1], d1, d2);
      var m := BestGroupIndex(groups[..|groups| - 1], d1);
      CompareGroupsSameDesiredSet(groups[m], groups[|groups| - 1], d1, d2);
    }
  }

  // ------------------------------------------------------------ whole finder

  /** findBestContiguousSeatGroup, with the rows visited in the given order. */
  function ContiguousBestIn(order: seq<RowLabel>, availableSeats: seq<Seat>, n: int, desired: seq<Feature>): (best: seq<Seat>)
    requires n >= 1
    ensures best != [] ==> IsRowRun(availableSeats, n, best)
  {
    var groups := ContiguousGroups(order, availableSeats, n);
    assert forall i :: 0 <= i < |groups| ==> |groups[i]| > 0 by {
      forall i | 0 <= i < |groups| ensures |groups[i]| > 0 {
        assert groups[i] in groups;
      }
    }
    SelectBestGroup(groups, desired)
  }

  /** Only the set of desired features matters to the contiguous finder. */
  lemma ContiguousBestSameDesiredSet(order: seq<RowLabel>, availableSeats: seq<Seat>, n: int, d1: seq<Feature>, d2: seq<Feature>)
    requires n >= 1 && forall f :: f in d1 <==> f in d2
    ensures ContiguousBestIn(order, availableSeats, n, d1) == ContiguousBestIn(order, availableSeats, n, d2)
  {
    var groups := ContiguousGroups(order, availableSeats, n);
    if groups != [] {
      assert forall i :: 0 <= i < |groups| ==> |groups[i]| > 0 by {
        forall i | 0 <= i < |groups| ensures |groups[i]| > 0 {
          assert groups[i] in groups;
        }
      }
      BestGroupIndexSameDesiredSet(groups, d1, d2);
    }
  }

  /**
   * Over any complete visiting order: the result is empty exactly when no row
   * has a qualifying window; otherwise it is a qualifying window that no other
   * qualifying window of any row ranks before.
   */
  lemma ContiguousBestIsMinimal(order: seq<RowLabel>, availableSeats: seq<Seat>, n: int, desired: seq<Feature>)
    requires n >= 1 && IsEnumerationOf(order, RowSet(availableSeats))
    ensures ContiguousBestIn(order, availableSeats, n, desired) == [] <==>
      forall w :: !IsContiguousCandidate(availableSeats, n, w)
    ensures ContiguousBestIn(order, availableSeats, n, desired) != [] ==>
      && IsContiguousCandidate(availableSeats, n, ContiguousBestIn(order, availableSeats, n, desired))
      && forall w :: IsContiguousCandidate(availableSeats, n, w) ==>
           CompareGroups(ContiguousBestIn(order, availableSeats, n, desired), w, desired) != Gt
  {
    var groups := ContiguousGroups(order, availableSeats, n);
    var best := ContiguousBestIn(order, availableSeats, n, desired);
    if groups != [] {
      assert groups[0] in groups;
      ContiguousGroupsAreCandidates(order, availableSeats, n, groups[0]);
      ContiguousGroupsAreCandidates(order, availableSeats, n, best);
      forall w | IsContiguousCandidate(availableSeats, n, w)
        ensures CompareGroups(best, w, desired) != Gt
      {
        ContiguousGroupsAreCandidates(order, availableSeats, n, w);
        var j :| 0 <= j < |groups| && groups[j] == w;
      }
    } else {
      forall w ensures !IsContiguousCandidate(availableSeats, n, w) {
        ContiguousGroupsAreCandidates(order, availableSeats, n, w);
      }
    }
  }

  // ---------------------------------------------------- distinct positions

  /** The seats of one row inherit distinct positions from the list. */
  lemma {:induction false} SeatsInRowDistinct(seats: seq<Seat>, row: RowLabel)
    requires DistinctPositions(seats)
    ensures DistinctPositions(SeatsInRow(seats, row))
  {
    if seats != [] {
      var prefix, last := seats[..|seats| - 1], seats[|seats| - 1];
      assert DistinctPositions(prefix);
      SeatsInRowDistinct(prefix, row);
      if last.row == row {
        forall s | s in SeatsInRow(prefix, row)
          ensures s.row != last.row || s.seatNumber != last.seatNumber
        {
          var i :| 0 <= i < |prefix| && prefix[i] == s;
          assert seats[i] == s;
        }
        DistinctPositionsSnoc(SeatsInRow(prefix, row), last);
      } else {
        assert SeatsInRow(seats, row) == SeatsInRow(prefix, row);
      }
    }
  }

  /** Within one row with distinct positions, the sorted seat numbers strictly increase. */
  lemma SortedRowStrictlyIncreasing(availableSeats: seq<Seat>, row: RowLabel)
    requires DistinctPositions(availableSeats)
    ensures forall i :: 0 < i < |SortedRow(availableSeats, row)| ==>
      SortedRow(availableSeats, row)[i - 1].seatNumber < SortedRow(availableSeats, row)[i].seatNumber
  {
    var sorted := SortedRow(availableSeats, row);
    SeatsInRowDistinct(availableSeats, row);
    DistinctPositionsPermutation(SeatsInRow(availableSeats, row), sorted);
    forall i | 0 < i < |sorted| ensures sorted[i - 1].seatNumber < sorted[i].seatNumber {
      assert sorted[i - 1] in multiset(SeatsInRow(availableSeats, row));
      assert sorted[i] in multiset(SeatsInRow(availableSeats, row));
    }
  }

  /** Strictly increasing seat numbers grow by at least one per step. */
  lemma {:induction false} StrictGap(s: seq<Seat>, i: int, j: int)
    requires forall k :: 0 < k < |s| ==> s[k - 1].seatNumber < s[k].seatNumber
    requires 0 <= i <= j < |s|
    ensures s[j].seatNumber - s[i].seatNumber >= j - i
    decreases j - i
  {
    if i < j {
      StrictGap(s, i, j - 1);
    }
  }

  /** In a strictly increasing list, a slice whose ends differ by its length - 1 counts up by one. */
  lemma ConsecutiveSlice(s: seq<Seat>, i: int, n: int, w: seq<Seat>)
    requires forall k :: 0 < k < |s| ==> s[k - 1].seatNumber < s[k].seatNumber
    requires n >= 1 && 0 <= i && i + n <= |s| && w == s[i..i + n]
    requires w[n - 1].seatNumber - w[0].seatNumber == n - 1
    ensures forall k :: 0 <= k < n ==> w[k].seatNumber == w[0].seatNumber + k
  {
    forall k | 0 <= k < n ensures w[k].seatNumber == w[0].seatNumber + k {
      assert w[k] == s[i + k] && w[0] == s[i] && w[n - 1] == s[i + n - 1];
      StrictGap(s, i, i + k);
      StrictGap(s, i + k, i + n - 1);
    }
  }

  /** In a strictly increasing list a seat number occurs at one index only. */
  lemma StrictlyIncreasingIndex(s: seq<Seat>, i: int, j: int)
    requires forall k :: 0 < k < |s| ==> s[k - 1].seatNumber < s[k].seatNumber
    requires 0 <= i < |s| && 0 <= j < |s| && s[i].seatNumber == s[j].seatNumber
    ensures i == j
  {
    if i < j {
      StrictGap(s, i, j);
    } else if j < i {
      StrictGap(s, j, i);
    }
  }

  /**
   * With distinct positions, a qualifying window holds consecutive seat
   * numbers: its k-th seat is numbered first + k.
   */
  lemma CandidateIsConsecutive(availableSeats: seq<Seat>, n: int, w: seq<Seat>)
    requires DistinctPositions(availableSeats) && IsContiguousCandidate(availableSeats, n, w)
    ensures forall k :: 0 <= k < n ==> w[k].seatNumber == w[0].seatNumber + k
  {
    var sorted := SortedRow(availableSeats, w[0].row);
    var i :| 0 <= i < |Windows(sorted, n)| && Windows(sorted, n)[i] == w;
    SortedRowStrictlyIncreasing(availableSeats, w[0].row);
    ConsecutiveSlice(sorted, i, n, w);
  }

  /**
   * Without distinct positions the end-to-end test is not enough: seats
   * numbered 1, 1, 3 of one row pass it for n = 3, yet are not consecutive.
   */
  lemma DuplicateNumbersPassContiguityTest()
    ensures var group := [Seat("A", 1, false, {}), Seat("A", 1, false, {WindowSeat}), Seat("A", 3, false, {})];
      && IsContiguousGroup(group, 3)
      && SortedBy(BySeatNumber, group)
      && group[1].seatNumber != group[0].seatNumber + 1
  {
  }

  /** A qualifying window is the slice of its row's sorted seats that starts at its first seat. */
  lemma CandidateSliceIndex(availableSeats: seq<Seat>, n: int, w: seq<Seat>) returns (i: int)
    requires IsContiguousCandidate(availableSeats, n, w)
    ensures 0 <= i && i + n <= |SortedRow(availableSeats, w[0].row)|
    ensures w == SortedRow(availableSeats, w[0].row)[i..i + n]
    ensures SortedRow(availableSeats, w[0].row)[i] == w[0]
  {
    var sorted := SortedRow(availableSeats, w[0].row);
    i := WindowIndex(sorted, n, w);
    assert w[0] == sorted[i];
  }

  /** With distinct positions, two qualifying windows that start at the same seat position are the same window. */
  lemma SameStartIsSameCandidate(availableSeats: seq<Seat>, n: int, w1: seq<Seat>, w2: seq<Seat>)
    requires DistinctPositions(availableSeats)
    requires IsContiguousCandidate(availableSeats, n, w1) && IsContiguousCandidate(availableSeats, n, w2)
    requires w1[0].row == w2[0].row && w1[0].seatNumber == w2[0].seatNumber
    ensures w1 == w2
  {
    var i1 := CandidateSliceIndex(availableSeats, n, w1);
    var i2 := CandidateSliceIndex(availableSeats, n, w2);
    SortedRowStrictlyIncreasing(availableSeats, w1[0].row);
    StrictlyIncreasingIndex(SortedRow(availableSeats, w1[0].row), i1, i2);
  }

  /** With distinct positions, two qualifying windows that the comparator ties are the same window. */
  lemma CandidateTieIsSame(availableSeats: seq<Seat>, n: int, w1: seq<Seat>, w2: seq<Seat>, desired: seq<Feature>)
    requires DistinctPositions(availableSeats)
    requires IsContiguousCandidate(availableSeats, n, w1) && IsContiguousCandidate(availableSeats, n, w2)
    requires CompareGroups(w1, w2, desired) == Eq
    ensures w1 == w2
  {
    GroupRanking(w1, w2, desired);
    SameStartIsSameCandidate(availableSeats, n, w1, w2);
  }

  /**
   * With distinct positions the HashMap iteration order cannot matter: every
   * complete visiting order yields the same result.
   */
  lemma ContiguousBestIndependentOfRowOrder(
    order1: seq<RowLabel>, order2: seq<RowLabel>, availableSeats: seq<Seat>, n: int, desired: seq<Feature>)
    requires n >= 1 && DistinctPositions(availableSeats)
    requires IsEnumerationOf(order1, RowSet(availableSeats)) && IsEnumerationOf(order2, RowSet(availableSeats))
    ensures ContiguousBestIn(order1, availableSeats, n, desired) == ContiguousBestIn(order2, availableSeats, n, desired)
  {
    var best1 := ContiguousBestIn(order1, availableSeats, n, desired);
    var best2 := ContiguousBestIn(order2, availableSeats, n, desired);
    ContiguousBestIsMinimal(order1, availableSeats, n, desired);
    ContiguousBestIsMinimal(order2, availableSeats, n, desired);
    if best1 != [] && best2 != [] {
      GroupOrderTotalPreorder(best1, best2, best2, desired);
      CandidateTieIsSame(availableSeats, n, best1, best2, desired);
    }
  }

  /**
   * A run of consecutively numbered seats that all occur in a strictly
   * increasing list occupies consecutive entries of it, from run[0] onwards.
   */
  lemma {:induction false} RunFollowsInSortedRow(sorted: seq<Seat>, run: seq<Seat>, start: int, j: int)
    requires forall k :: 0 < k < |sorted| ==> sorted[k - 1].seatNumber < sorted[k].seatNumber
    requires 0 <= j < |run| && 0 <= start < |sorted| && sorted[start] == run[0]
    requires forall k :: 0 <= k < |run| ==> run[k] in sorted && run[k].seatNumber == run[0].seatNumber + k
    ensures start + j < |sorted| && sorted[start + j].seatNumber == run[0].seatNumber + j
  {
    if j > 0 {
      RunFollowsInSortedRow(sorted, run, start, j - 1);
      var p :| 0 <= p < |sorted| && sorted[p] == run[j];
      if p <= start + j - 1 {
        StrictGap(sorted, p, start + j - 1);
      }
      StrictGap(sorted, start + j - 1, start + j);
      if start + j < p {
        StrictGap(sorted, start + j, p);
      }
    }
  }

  /** A qualifying slice of a row's sorted seats is a qualifying window. */
  lemma SliceIsCandidate(availableSeats: seq<Seat>, n: int, row: RowLabel, start: int)
    requires n >= 1 && 0 <= start && start + n <= |SortedRow(availableSeats, row)|
    requires SortedRow(availableSeats, row)[start].row == row
    requires IsContiguousGroup(SortedRow(availableSeats, row)[start..start + n], n)
    ensures IsContiguousCandidate(availableSeats, n, SortedRow(availableSeats, row)[start..start + n])
  {
    var sorted := SortedRow(availableSeats, row);
    assert Windows(sorted, n)[start] == sorted[start..start + n];
  }

  /** Every seat of a run of available seats in one row sits in that row's sorted seats. */
  lemma RunInSortedRow(availableSeats: seq<Seat>, run: seq<Seat>)
    requires |run| > 0
    requires forall k :: 0 <= k < |run| ==> run[k] in availableSeats && run[k].row == run[0].row
    ensures forall k :: 0 <= k < |run| ==> run[k] in SortedRow(availableSeats, run[0].row)
  {
    var row := run[0].row;
    forall k | 0 <= k < |run| ensures run[k] in SortedRow(availableSeats, row) {
      assert run[k] in SeatsInRow(availableSeats, row);
      assert run[k] in multiset(SeatsInRow(availableSeats, row));
    }
  }

  /** A run of consecutively numbered seats inside a strictly increasing list is a slice of it. */
  lemma RunStart(sorted: seq<Seat>, run: seq<Seat>) returns (start: int)
    requires forall k :: 0 < k < |sorted| ==> sorted[k - 1].seatNumber < sorted[k].seatNumber
    requires |run| > 0
    requires forall k :: 0 <= k < |run| ==> run[k] in sorted && run[k].seatNumber == run[0].seatNumber + k
    ensures 0 <= start && start + |run| <= |sorted| && sorted[start..start + |run|] == run
  {
    assert run[0] in sorted;
    start :| 0 <= start < |sorted| && sorted[start] == run[0];
    RunFollowsInSortedRow(sorted, run, start, |run| - 1);
    forall k | 0 <= k < |run| ensures sorted[start + k] == run[k] {
      RunFollowsInSortedRow(sorted, run, start, k);
      var p :| 0 <= p < |sorted| && sorted[p] == run[k];
      StrictlyIncreasingIndex(sorted, p, start + k);
    }
  }

  /** A run that is a slice of its row's sorted seats is a qualifying window. */
  lemma RunSliceIsCandidate(availableSeats: seq<Seat>, n: int, run: seq<Seat>, start: int)
    requires n >= 1 && |run| == n && 0 <= start && start + n <= |SortedRow(availableSeats, run[0].row)|
    requires SortedRow(availableSeats, run[0].row)[start..start + n] == run
    requires run[n - 1].seatNumber == run[0].seatNumber + n - 1
    ensures IsContiguousCandidate(availableSeats, n, run)
  {
    var sorted := SortedRow(availableSeats, run[0].row);
    assert sorted[start] == run[0];
    SliceIsCandidate(availableSeats, n, run[0].row, start);
  }

  /**
   * n available seats of one row numbered k, k + 1, ..., k + n - 1 are a
   * qualifying window: they are exactly n adjacent entries of that row's
   * sorted seats, whatever else is available around them.
   */
  lemma RunIsCandidate(availableSeats: seq<Seat>, n: int, run: seq<Seat>)
    requires n >= 1 && DistinctPositions(availableSeats) && |run| == n
    requires forall k :: 0 <= k < n ==>
      run[k] in availableSeats && run[k].row == run[0].row && run[k].seatNumber == run[0].seatNumber + k
    ensures IsContiguousCandidate(availableSeats, n, run)
  {
    var sorted := SortedRow(availableSeats, run[0].row);
    SortedRowStrictlyIncreasing(availableSeats, run[0].row);
    RunInSortedRow(availableSeats, run);
    var start := RunStart(sorted, run);
    RunSliceIsCandidate(availableSeats, n, run, start);
  }

  /**
   * If some row has n available seats numbered k, k + 1, ..., k + n - 1 (other
   * seats around them may be occupied), the finder does not come back empty,
   * and the window it returns ranks no worse than that run.
   */
  lemma ConsecutiveRunIsFound(order: seq<RowLabel>, availableSeats: seq<Seat>, n: int, desired: seq<Feature>, run: seq<Seat>)
    requires n >= 1 && DistinctPositions(availableSeats) && IsEnumerationOf(order, RowSet(availableSeats))
    requires |run| == n
    requires forall k :: 0 <= k < n ==>
      run[k] in availableSeats && run[k].row == run[0].row && run[k].seatNumber == run[0].seatNumber + k
    ensures ContiguousBestIn(order, availableSeats, n, desired) != []
    ensures CompareGroups(ContiguousBestIn(order, availableSeats, n, desired), run, desired) != Gt
  {
    RunIsCandidate(availableSeats, n, run);
    ContiguousBestIsMinimal(order, availableSeats, n, desired);
  }

  // ---------------------------------------------------------------- methods

  /** Visiting one more row appends that row's windows. */
  lemma ContiguousGroupsSnoc(order: seq<RowLabel>, row: RowLabel, availableSeats: seq<Seat>, n: int)
    requires n >= 1
    ensures ContiguousGroups(order + [row], availableSeats, n) ==
      ContiguousGroups(order, availableSeats, n) + RowWindows(SeatsInRow(availableSeats, row), n)
  {
    assert (order + [row])[..|order|] == order;
  }

  /** One step of the loop over a sorted row: the next window is appended when it qualifies. */
  lemma KeepContiguousStep(groups: seq<seq<Seat>>, previous: seq<seq<Seat>>, extended: seq<seq<Seat>>,
                           ws: seq<seq<Seat>>, i: int, n: int)
    requires 0 <= i < |ws|
    requires previous == groups + KeepContiguous(ws[..i], n)
    requires extended == previous + (if IsContiguousGroup(ws[i], n) then [ws[i]] else [])
    ensures extended == groups + KeepContiguous(ws[..i + 1], n)
  {
    assert ws[..i + 1][..i] == ws[..i];
  }

  /**
   * The body of findContiguousGroups' loop over the map's entries: a row with at
   * least n seats is sorted by seat number and each qualifying window of it
   * is appended to the groups found so far.
   */
  method AppendRowGroups(groups: seq<seq<Seat>>, rowSeats: seq<Seat>, n: int) returns (extended: seq<seq<Seat>>)
    requires n >= 1
    ensures extended == groups + RowWindows(rowSeats, n)
  {
    extended := groups;
    if |rowSeats| >= n {
      var sorted := SortSeats(BySeatNumber, rowSeats);
      ghost var windows := Windows(sorted, n);
      var i := 0;
      while i <= |sorted| - n
        invariant 0 <= i <= |windows|
        invariant extended == groups + KeepContiguous(windows[..i], n)
      {
        var group := sorted[i..i + n];
        ghost var previous := extended;
        if IsContiguousGroup(group, n) {
          extended := extended + [group];
        }
        KeepContiguousStep(groups, previous, extended, windows, i, n);
        i := i + 1;
      }
      assert windows[..i] == windows;
    }
  }

  /**
   * findContiguousGroups: visit the map's rows in an unspecified order, collecting the
   * qualifying windows of each.
   */
  method FindContiguousGroups(seatsByRow: map<RowLabel, seq<Seat>>, n: int, ghost availableSeats: seq<Seat>)
    returns (groups: seq<seq<Seat>>, ghost order: seq<RowLabel>)
    requires n >= 1 && seatsByRow == GroupByRow(availableSeats)
    ensures IsEnumerationOf(order, RowSet(availableSeats))
    ensures groups == ContiguousGroups(order, availableSeats, n)
  {
    groups, order := [], [];
    var remaining := seatsByRow.Keys;
    while remaining != {}
      invariant remaining <= seatsByRow.Keys
      invariant forall r :: r in order ==> r in seatsByRow && r !in remaining
      invariant forall r :: r in seatsByRow ==> r in order || r in remaining
      invariant forall i, j :: 0 <= i < j < |order| ==> order[i] != order[j]
      invariant groups == ContiguousGroups(order, availableSeats, n)
      decreases remaining
    {
      var row :| row in remaining;
      groups := AppendRowGroups(groups, seatsByRow[row], n);
      GroupByRowEntry(availableSeats, row);
      ContiguousGroupsSnoc(order, row, availableSeats, n);
      order := order + [row];
      remaining := remaining - {row};
    }
    GroupByRowEntries(availableSeats);
  }

  /** findBestContiguousSeatGroup: group by row, collect qualifying windows, pick the best. */
  method FindBestContiguousSeatGroup(availableSeats: seq<Seat>, numSeats: int, features: seq<Feature>)
    returns (best: seq<Seat>, ghost order: seq<RowLabel>)
    requires numSeats >= 1
    ensures IsEnumerationOf(order, RowSet(availableSeats))
    ensures best == ContiguousBestIn(order, availableSeats, numSeats, features)
  {
    var seatsByRow := GroupSeatsByRow(availableSeats);
    var groups;
    groups, order := FindContiguousGroups(seatsByRow, numSeats, availableSeats);
    assert forall i :: 0 <= i < |groups| ==> |groups[i]| > 0 by {
      forall i | 0 <= i < |groups| ensures |groups[i]| > 0 {
        assert groups[i] in groups;
      }
    }
    best := SelectBestGroup(groups, features);
  }
}
