# Seat recommendation engine of FlightFinder, in Dafny

This project models the seat-recommendation core of the FlightFinder backend.
It takes a flight's seats (row label, seat number, occupied flag, feature tags),
a requested number of seats `n` and a list of desired features, and returns
one group of seats:

- `SeatFinderUtils` scores a group by the desired features its seats carry.
  It ranks groups by higher score, then earlier row, then smaller first seat
  number (`seat_finder_utils.dfy`).
- `ContiguousSeatFinder` groups the free seats by row and sorts each row by
  seat number. It keeps every window of `n` seats whose last and first numbers
  differ by `n - 1`, and returns the best one (`contiguous_seat_finder.dfy`).
- `MixedSeatFinder` sorts all free seats by (row, seat number) and takes every
  slice of `n`. It returns the slice with the smallest spread, the group
  ranking breaking ties (`mixed_seat_finder.dfy`).
- `SeatServiceImpl` validates `n` and treats a null feature list as empty.
  It looks the flight up, keeps its unoccupied seats, and tries the contiguous
  finder before the mixed one (`seat_service.dfy`).

Supporting modules:

- `comparison.dfy` holds three-way comparison: `Integer.compare`,
  `String.compareTo` and `thenComparing`.
- `seats.dfy` holds the seat value and the two seat orders.
- `sorting.dfy` holds `List.sort`, modelled as a stable insertion sort.

Each Java loop is a Dafny method proved equal to a specification function:

- the `computeIfAbsent` grouping loop;
- the nested window loops of `findContiguousGroups`;
- the slice loop of `generateCandidateGroups`;
- the filter loop of `getAvailableSeats`.

The properties are proved about those functions.

`HashMap` iteration order is unspecified in Java. The method that walks the
map therefore picks each next row nondeterministically and returns the order
it used as a ghost value. The specification functions take that order as a
parameter. With distinct (row, seat number) positions, the result is proved
to be the same for every order.

## Model

| member | source | states |
|---|---|---|
| Comparison.CompareStringsEq | Backend/src/main/java/FlightFinder/Backend/service/seatFinder/SeatFinderUtils.java:27 | String.compareTo returns 0 exactly when the two row labels are equal |
| Comparison.CompareStringsFlip | Backend/src/main/java/FlightFinder/Backend/service/seatFinder/SeatFinderUtils.java:27 | swapping the two row labels flips the sign of the comparison |
| Comparison.CompareStringsTransitive | Backend/src/main/java/FlightFinder/Backend/service/seatFinder/SeatFinderUtils.java:27 | "not after" on row labels is transitive |
| Comparison.CompareStringsLt | Backend/src/main/java/FlightFinder/Backend/service/seatFinder/SeatFinderUtils.java:27 | compareTo is negative exactly when a is a proper prefix of b or has the smaller character at the first difference (both directions) |
| Seats.CompareSeatsFlip | Backend/src/main/java/FlightFinder/Backend/service/seatFinder/MixedSeatFinder.java:40-41 | both seat orders (by number; by row then number) are antisymmetric |
| Seats.CompareSeatsTransitive | Backend/src/main/java/FlightFinder/Backend/service/seatFinder/MixedSeatFinder.java:40-41 | both seat orders are transitive |
| Sorting.SortSeats | Backend/src/main/java/FlightFinder/Backend/service/seatFinder/MixedSeatFinder.java:40-41 | the sorted list is a permutation of its input (same multiset, same length) and each seat is not after its successor |
| Sorting.InsertSorted | Backend/src/main/java/FlightFinder/Backend/service/seatFinder/ContiguousSeatFinder.java:46 | inserting into a sorted list keeps it sorted (the step of the stable sort) |
| Sorting.InsertEqualTo | Backend/src/main/java/FlightFinder/Backend/service/seatFinder/MixedSeatFinder.java:40-41 | insertion puts the new seat in front of every seat that compares equal to it, leaving their order alone |
| Sorting.SortSeatsStable | Backend/src/main/java/FlightFinder/Backend/service/seatFinder/MixedSeatFinder.java:40-41 | the sort is stable: for every seat x, the seats comparing equal to x come out in their input order |
| Sorting.SortedAllPairs | Backend/src/main/java/FlightFinder/Backend/service/seatFinder/ContiguousSeatFinder.java:46 | in a sorted list every seat is not after any later seat |
| Sorting.SortedByRowThenSeatNumberUnique | Backend/src/main/java/FlightFinder/Backend/service/seatFinder/MixedSeatFinder.java:38-43 | with distinct positions two sorted permutations of the same seats are equal, so any sorting algorithm gives the same list |
| SeatFinderUtils.FeatureScoreAppend | Backend/src/main/java/FlightFinder/Backend/service/seatFinder/SeatFinderUtils.java:41-46 | the score of a concatenation is the sum of the scores (the stream is a flatMap over seats) |
| SeatFinderUtils.FeatureScoreBounds | Backend/src/main/java/FlightFinder/Backend/service/seatFinder/SeatFinderUtils.java:42-45 | the score is at least 0 and at most the number of feature tags the group carries |
| SeatFinderUtils.FeatureScoreAllDesired | Backend/src/main/java/FlightFinder/Backend/service/seatFinder/SeatFinderUtils.java:41-46 | desiring every feature makes the score the number of tags carried |
| SeatFinderUtils.FeatureScoreNoneDesired | Backend/src/main/java/FlightFinder/Backend/service/seatFinder/SeatFinderUtils.java:44 | with no desired feature every group scores 0 |
| SeatFinderUtils.FeatureScoreSameDesiredSet | Backend/src/main/java/FlightFinder/Backend/service/seatFinder/SeatFinderUtils.java:41-46 | desired lists naming the same features give the same score: duplicates and order in the list do not count |
| SeatFinderUtils.GroupRanking | Backend/src/main/java/FlightFinder/Backend/service/seatFinder/SeatFinderUtils.java:23-29 | a group ranks first exactly when it has the higher score, or equal score and smaller row, or equal score and row and smaller first seat number; it ties exactly when all three keys are equal |
| SeatFinderUtils.CompareGroupsSameDesiredSet | Backend/src/main/java/FlightFinder/Backend/service/seatFinder/SeatFinderUtils.java:23-29 | the comparator depends on the set of desired features only |
| SeatFinderUtils.GroupRankingNoneDesired | Backend/src/main/java/FlightFinder/Backend/service/seatFinder/SeatFinderUtils.java:25-28 | with no desired feature the ranking is row then seat number of the first seat |
| SeatFinderUtils.GroupOrderTotalPreorder | Backend/src/main/java/FlightFinder/Backend/service/seatFinder/SeatFinderUtils.java:23-29 | the group comparator is reflexive, antisymmetric in sign, total and transitive |
| SeatFinderUtils.Windows | Backend/src/main/java/FlightFinder/Backend/service/seatFinder/MixedSeatFinder.java:55-58 | there are max(0, size - n + 1) windows and window i is the slice [i, i + n) |
| SeatFinderUtils.WindowIndex | Backend/src/main/java/FlightFinder/Backend/service/seatFinder/MixedSeatFinder.java:55-58 | every window is the slice of the list at some index |
| SeatFinderUtils.WindowProperties | Backend/src/main/java/FlightFinder/Backend/service/seatFinder/MixedSeatFinder.java:56 | each window has n seats, all from the list, and is sorted when the list is |
| ContiguousSeatFinder.SeatsInRow | Backend/src/main/java/FlightFinder/Backend/service/seatFinder/ContiguousSeatFinder.java:20-23 | a seat is in the row list exactly when it is available and carries that row label; the list is no longer than the input |
| ContiguousSeatFinder.GroupByRowEntry | Backend/src/main/java/FlightFinder/Backend/service/seatFinder/ContiguousSeatFinder.java:20-23 | a row label is a key of the map exactly when some seat carries it, and its entry is that row's seats in input order |
| ContiguousSeatFinder.GroupByRowEntries | Backend/src/main/java/FlightFinder/Backend/service/seatFinder/ContiguousSeatFinder.java:20-23 | the map's keys are the row labels of the input and each entry holds that row's seats in input order |
| ContiguousSeatFinder.GroupSeatsByRow | Backend/src/main/java/FlightFinder/Backend/service/seatFinder/ContiguousSeatFinder.java:20-23 | the computeIfAbsent(...).add loop builds the map GroupByRow of the input |
| ContiguousSeatFinder.KeepContiguous | Backend/src/main/java/FlightFinder/Backend/service/seatFinder/ContiguousSeatFinder.java:52-54 | a window is kept exactly when it passes isContiguousGroup |
| ContiguousSeatFinder.RowWindows | Backend/src/main/java/FlightFinder/Backend/service/seatFinder/ContiguousSeatFinder.java:45-55 | a row contributes exactly the windows of its seats sorted by number that pass the contiguity test |
| ContiguousSeatFinder.RowWindowProperties | Backend/src/main/java/FlightFinder/Backend/service/seatFinder/ContiguousSeatFinder.java:46-53 | each window a row contributes has n seats of that row, sorted by number, last minus first equal to n - 1 |
| ContiguousSeatFinder.ContiguousGroups | Backend/src/main/java/FlightFinder/Backend/service/seatFinder/ContiguousSeatFinder.java:39-59 | every collected group has n available seats of one row, sorted by number, spanning n - 1 |
| ContiguousSeatFinder.RowWindowsAreCandidates | Backend/src/main/java/FlightFinder/Backend/service/seatFinder/ContiguousSeatFinder.java:42-55 | a row's windows are exactly the qualifying windows whose first seat is in that row |
| ContiguousSeatFinder.ContiguousGroupsMembers | Backend/src/main/java/FlightFinder/Backend/service/seatFinder/ContiguousSeatFinder.java:41-57 | a window is collected exactly when it qualifies and its row has been visited |
| ContiguousSeatFinder.ContiguousGroupsAreCandidates | Backend/src/main/java/FlightFinder/Backend/service/seatFinder/ContiguousSeatFinder.java:39-59 | visiting every row once collects exactly the qualifying windows |
| ContiguousSeatFinder.CandidateRowLongEnough | Backend/src/main/java/FlightFinder/Backend/service/seatFinder/ContiguousSeatFinder.java:45 | a qualifying window comes from a row with at least n available seats |
| ContiguousSeatFinder.BestGroupIndex | Backend/src/main/java/FlightFinder/Backend/service/seatFinder/ContiguousSeatFinder.java:92-93 | Stream.min lands on a group no other group ranks before, and on the first such group |
| ContiguousSeatFinder.SelectBestGroup | Backend/src/main/java/FlightFinder/Backend/service/seatFinder/ContiguousSeatFinder.java:87-94 | empty for no groups; otherwise one of the groups that no group ranks before |
| ContiguousSeatFinder.BestGroupIndexSameDesiredSet | Backend/src/main/java/FlightFinder/Backend/service/seatFinder/ContiguousSeatFinder.java:92-93 | desired lists naming the same features select the same group |
| ContiguousSeatFinder.ContiguousBestIn | Backend/src/main/java/FlightFinder/Backend/service/seatFinder/ContiguousSeatFinder.java:18-30 | a non-empty result has n available seats of one row, sorted by number, spanning n - 1 |
| ContiguousSeatFinder.ContiguousBestSameDesiredSet | Backend/src/main/java/FlightFinder/Backend/service/seatFinder/ContiguousSeatFinder.java:18-30 | only the set of desired features matters to the contiguous finder |
| ContiguousSeatFinder.ContiguousBestIsMinimal | Backend/src/main/java/FlightFinder/Backend/service/seatFinder/ContiguousSeatFinder.java:88-93 | the result is empty exactly when no row has a qualifying window; otherwise it is a qualifying window that no qualifying window of any row ranks before |
| ContiguousSeatFinder.SortedRowStrictlyIncreasing | Backend/src/main/java/FlightFinder/Backend/service/seatFinder/ContiguousSeatFinder.java:46 | with distinct positions a row sorted by number has strictly increasing numbers |
| ContiguousSeatFinder.CandidateIsConsecutive | Backend/src/main/java/FlightFinder/Backend/service/seatFinder/ContiguousSeatFinder.java:73-77 | with distinct positions a qualifying window is numbered first, first + 1, ..., first + n - 1 |
| ContiguousSeatFinder.DuplicateNumbersPassContiguityTest | Backend/src/main/java/FlightFinder/Backend/service/seatFinder/ContiguousSeatFinder.java:73-77 | seats numbered 1, 1, 3 pass the end-to-end test for n = 3 yet are not consecutive |
| ContiguousSeatFinder.CandidateSliceIndex | Backend/src/main/java/FlightFinder/Backend/service/seatFinder/ContiguousSeatFinder.java:49-50 | a qualifying window is the slice of its row's sorted seats that starts at its first seat |
| ContiguousSeatFinder.SameStartIsSameCandidate | Backend/src/main/java/FlightFinder/Backend/service/seatFinder/ContiguousSeatFinder.java:49-53 | with distinct positions two qualifying windows starting at the same position are equal |
| ContiguousSeatFinder.CandidateTieIsSame | Backend/src/main/java/FlightFinder/Backend/service/seatFinder/ContiguousSeatFinder.java:92-93 | with distinct positions two qualifying windows the comparator ties are the same window |
| ContiguousSeatFinder.ContiguousBestIndependentOfRowOrder | Backend/src/main/java/FlightFinder/Backend/service/seatFinder/ContiguousSeatFinder.java:39-41 | with distinct positions every HashMap iteration order gives the same result |
| ContiguousSeatFinder.RunIsCandidate | Backend/src/main/java/FlightFinder/Backend/service/seatFinder/ContiguousSeatFinder.java:45-55 | n available seats of one row numbered k, ..., k + n - 1 are themselves a qualifying window: they are n adjacent entries of the row's sorted seats |
| ContiguousSeatFinder.ConsecutiveRunIsFound | Backend/src/main/java/FlightFinder/Backend/service/seatFinder/ContiguousSeatFinder.java:45-55 | if some row has n consecutively numbered available seats, the finder does not come back empty, and its result ranks no worse than that run |
| ContiguousSeatFinder.AppendRowGroups | Backend/src/main/java/FlightFinder/Backend/service/seatFinder/ContiguousSeatFinder.java:42-56 | processing one row appends exactly that row's qualifying windows, in order |
| ContiguousSeatFinder.FindContiguousGroups | Backend/src/main/java/FlightFinder/Backend/service/seatFinder/ContiguousSeatFinder.java:39-59 | the loop over the map visits every row once and collects ContiguousGroups in that visiting order |
| ContiguousSeatFinder.FindBestContiguousSeatGroup | Backend/src/main/java/FlightFinder/Backend/service/seatFinder/ContiguousSeatFinder.java:18-30 | the method returns ContiguousBestIn for the row order it visited, which enumerates the row labels |
| MixedSeatFinder.SortByRowThenNumber | Backend/src/main/java/FlightFinder/Backend/service/seatFinder/MixedSeatFinder.java:38-43 | the copy is a permutation of the input ordered by row then seat number |
| MixedSeatFinder.SortByRowThenNumberUnique | Backend/src/main/java/FlightFinder/Backend/service/seatFinder/MixedSeatFinder.java:38-43 | with distinct positions it is the only such arrangement |
| MixedSeatFinder.GenerateCandidateGroups | Backend/src/main/java/FlightFinder/Backend/service/seatFinder/MixedSeatFinder.java:52-61 | the loop returns every slice of n consecutive sorted seats, in order (Windows) |
| MixedSeatFinder.RowCodes | Backend/src/main/java/FlightFinder/Backend/service/seatFinder/MixedSeatFinder.java:93 | each code is the first character of the seat's row label |
| MixedSeatFinder.MinOrZeroIsLeast | Backend/src/main/java/FlightFinder/Backend/service/seatFinder/MixedSeatFinder.java:92-94 | min().orElse(0) is 0 on no elements and otherwise an element no larger than any |
| MixedSeatFinder.MaxOrZeroIsGreatest | Backend/src/main/java/FlightFinder/Backend/service/seatFinder/MixedSeatFinder.java:95-97 | max().orElse(0) is 0 on no elements and otherwise an element no smaller than any |
| MixedSeatFinder.Spread | Backend/src/main/java/FlightFinder/Backend/service/seatFinder/MixedSeatFinder.java:91-109 | the spread is at least 0, and 0 for an empty group |
| MixedSeatFinder.SpreadBoundsPairs | Backend/src/main/java/FlightFinder/Backend/service/seatFinder/MixedSeatFinder.java:91-108 | no two seats of a group are further apart in number or row character than the spread |
| MixedSeatFinder.SpreadOfSortedRowGroup | Backend/src/main/java/FlightFinder/Backend/service/seatFinder/MixedSeatFinder.java:91-108 | a one-row group sorted by number has spread last - first, so a contiguous window has spread n - 1 |
| MixedSeatFinder.CandidateOrderTotalPreorder | Backend/src/main/java/FlightFinder/Backend/service/seatFinder/MixedSeatFinder.java:71-73 | the cross-row comparator is a total preorder |
| MixedSeatFinder.BestCandidateIndex | Backend/src/main/java/FlightFinder/Backend/service/seatFinder/MixedSeatFinder.java:75-77 | Stream.min lands on a candidate no other ranks before, and on the first such candidate |
| MixedSeatFinder.SelectBestCandidateGroup | Backend/src/main/java/FlightFinder/Backend/service/seatFinder/MixedSeatFinder.java:70-78 | empty for no candidates; otherwise one of the candidates no candidate ranks before |
| MixedSeatFinder.BestCandidateIndexSameDesiredSet | Backend/src/main/java/FlightFinder/Backend/service/seatFinder/MixedSeatFinder.java:73-76 | desired lists naming the same features select the same candidate |
| MixedSeatFinder.MixedBest | Backend/src/main/java/FlightFinder/Backend/service/seatFinder/MixedSeatFinder.java:20-30 | empty exactly when fewer than n seats are available; otherwise n seats forming a window of the sorted seats |
| MixedSeatFinder.MixedBestIsSortedSlice | Backend/src/main/java/FlightFinder/Backend/service/seatFinder/MixedSeatFinder.java:38-58 | the result is ordered by row then seat number and all its seats are available seats |
| MixedSeatFinder.MixedBestIsMinimal | Backend/src/main/java/FlightFinder/Backend/service/seatFinder/MixedSeatFinder.java:70-78 | no window has a smaller spread than the result, and none of equal spread ranks before it in the group order |
| MixedSeatFinder.MixedBestSameDesiredSet | Backend/src/main/java/FlightFinder/Backend/service/seatFinder/MixedSeatFinder.java:70-78 | only the set of desired features matters to the mixed finder |
| MixedSeatFinder.FindBestMixedSeatGroup | Backend/src/main/java/FlightFinder/Backend/service/seatFinder/MixedSeatFinder.java:20-30 | sort a copy, generate the slices and select the best returns MixedBest |
| SeatService.AvailableSeats | Backend/src/main/java/FlightFinder/Backend/service/SeatServiceImpl.java:59-67 | a seat is kept exactly when it is a seat of the flight and unoccupied |
| SeatService.GetAvailableSeats | Backend/src/main/java/FlightFinder/Backend/service/SeatServiceImpl.java:59-67 | the loop returns AvailableSeats, the unoccupied seats in their original order |
| SeatService.AvailableSeatsAppend | Backend/src/main/java/FlightFinder/Backend/service/SeatServiceImpl.java:59-67 | filtering a concatenation concatenates the filtered parts, so the original order is kept |
| SeatService.AvailableSeatsIdempotent | Backend/src/main/java/FlightFinder/Backend/service/SeatServiceImpl.java:59-67 | filtering twice changes nothing |
| SeatService.AvailableSeatsDistinct | Backend/src/main/java/FlightFinder/Backend/service/SeatServiceImpl.java:59-67 | the free seats keep the distinct positions of the flight's seats |
| SeatService.BestSeatGroupFallback | Backend/src/main/java/FlightFinder/Backend/service/SeatServiceImpl.java:77-87 | with a qualifying contiguous window the answer is the contiguous finder's run of one row; otherwise it is the mixed finder's |
| SeatService.BestSeatGroupServes | Backend/src/main/java/FlightFinder/Backend/service/SeatServiceImpl.java:77-87 | with at least n free seats the answer has n seats, all free |
| SeatService.FindBestSeatGroup | Backend/src/main/java/FlightFinder/Backend/service/SeatServiceImpl.java:77-87 | the method returns the contiguous result when non-empty and the mixed result otherwise |
| SeatService.InfeasibleRequestIsEmpty | Backend/src/main/java/FlightFinder/Backend/service/SeatServiceImpl.java:30-51 | a count below 1, an unknown flight or too few free seats yields no seats |
| SeatService.NullFeaturesAreEmpty | Backend/src/main/java/FlightFinder/Backend/service/SeatServiceImpl.java:37-39 | a null feature list gives the same recommendation as an empty one |
| SeatService.FeasibleRequestIsServed | Backend/src/main/java/FlightFinder/Backend/service/SeatServiceImpl.java:30-51 | a feasible request gets exactly n seats, all of them seats of the flight and unoccupied |
| SeatService.RecommendationsDependOnFeatureSet | Backend/src/main/java/FlightFinder/Backend/service/SeatServiceImpl.java:30-51 | repeating or reordering the desired features changes no recommendation |
| SeatService.RecommendationsIndependentOfRowOrder | Backend/src/main/java/FlightFinder/Backend/service/SeatServiceImpl.java:30-51 | with distinct positions the recommendation does not depend on HashMap iteration order |
| SeatService.GetSeatRecommendations | Backend/src/main/java/FlightFinder/Backend/service/SeatServiceImpl.java:30-51 | the method returns SeatRecommendationsIn for the row order the contiguous finder visited |

## Left out

- Persistence and I/O are not part of the model: `FlightRepository.findById` is a map lookup (`FlightRepository`), a missing flight is an absent key, and JPA, the controllers, `FlightServiceImpl` and the frontend are not modelled.
- Seat identity is dropped: the database id and the owning flight are not part of the seat value, so two seats with equal fields are the same value.
- Unknown flight: the code returns an empty list (`orElse(Collections.emptyList())`), and the model follows it, so a caller cannot tell an unknown flight from a request that no seats can meet.
- `n <= 0` passed directly to a finder is excluded by `requires n >= 1` on both finders. The only caller rejects it first, and Java would call `get(0)` on empty windows.
- Java `int` overflow is not modelled: seat numbers, their differences, spreads and the `(int)` cast of the feature count are unbounded integers. This is the same as Java for any realistic seat numbers.
- Characters: Java `String.compareTo` and `charAt(0)` work on UTF-16 code units. The model uses Dafny characters, which agree on every row label made of Basic Multilingual Plane characters. Surrogate pairs are not modelled.
- `List.sort` is a library call. It is modelled as an insertion sort on values, and `Sorting.SortSeatsStable` proves that sort stable, as `List.sort` is documented to be. That a sorted, stable permutation of a list is unique, so that the two sorts agree on every input, is the standard fact about stable sorts and is not proved here. `Sorting.SortedByRowThenSeatNumberUnique` shows that with distinct positions any correct sort gives the same list.
- The in-place sorts (`rowSeats.sort` on the map's local lists and `sortedSeats.sort` on a fresh copy) are modelled as values. No caller can observe the mutation. For the same reason the caller's seat list is never reordered and no seat's occupancy is changed: every member works on values and no method has a `modifies` clause.
- Null arguments other than `desiredFeatures` (null seat lists, null row labels) are not modelled. Row labels are non-empty by type, since `charAt(0)` needs a character.
- ContiguousSeatFinder.ContiguousBestIndependentOfRowOrder: order independence is proved only under distinct positions. With duplicate positions two different windows can tie in the comparator; tied windows start in the same row and so come from one row's block, which suggests the result is still independent of the order, but the proof goes through the uniqueness of the tied window and the general case is not proved.
- ContiguousSeatFinder.CandidateIsConsecutive: consecutive numbering is proved only under distinct positions. Without them, `ContiguousSeatFinder.DuplicateNumbersPassContiguityTest` exhibits a window numbered 1, 1, 3 that passes the Java test.
- SeatService.GetSeatRecommendations: the row order is constrained to enumerate the rows only when the request is feasible. On the other paths the contiguous finder never runs.
