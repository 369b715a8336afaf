/**
 * SeatServiceImpl.java: validate the request, look the flight up, keep its
 * unoccupied seats, and recommend the best contiguous group, falling back to
 * the best mixed group.
 */
module SeatService {
  import opened Seats
  import opened SeatFinderUtils
  import opened ContiguousSeatFinder
  import opened MixedSeatFinder

  datatype Option<T> = None | Some(value: T)

  /** A flight's database identifier (a Java Long). */
  type FlightId = int

  /** FlightRepository.findById, reduced to what the service reads: each known flight's seats. */
  type FlightRepository = map<FlightId, seq<Seat>>

  // --------------------------------------------------------- free seats

  /** getAvailableSeats: the flight's unoccupied seats, in their original order. */
  function AvailableSeats(seats: seq<Seat>): (available: seq<Seat>)
    ensures forall s :: s in available <==> s in seats && !s.occupied
    ensures |available| <= |seats|
  {
    if seats == [] then []
    else
      var prefix, last := seats[..|seats| - 1], seats[|seats| - 1];
      assert seats == prefix + [last];
      AvailableSeats(prefix) + (if !last.occupied then [last] else [])
  }

  /** getAvailableSeats: loop over the flight's seats, appending each unoccupied one. */
  method GetAvailableSeats(seats: seq<Seat>) returns (availableSeats: seq<Seat>)
    ensures availableSeats == AvailableSeats(seats)
  {
    availableSeats := [];
    for i := 0 to |seats|
      invariant availableSeats == AvailableSeats(seats[..i])
    {
      assert seats[..i + 1][..i] == seats[..i];
      if !seats[i].occupied {
        availableSeats := availableSeats + [seats[i]];
      }
    }
    assert seats[..|seats|] == seats;
  }

  /** Filtering keeps the order: the free seats of a concatenation are the concatenation of the free seats. */
  lemma {:induction false} AvailableSeatsAppend(a: seq<Seat>, b: seq<Seat>)
    ensures AvailableSeats(a + b) == AvailableSeats(a) + AvailableSeats(b)
    decreases |b|
  {
    if b != [] {
      var prefix := b[..|b| - 1];
      AvailableSeatsAppend(a, prefix);
      assert (a + b)[..|a + b| - 1] == a + prefix;
      assert b[..|b| - 1] == prefix;
    } else {
      assert a + b == a;
    }
  }

  /** Every seat of the filtered list is free, so filtering again changes nothing. */
  lemma {:induction false} AvailableSeatsIdempotent(seats: seq<Seat>)
    ensures AvailableSeats(AvailableSeats(seats)) == AvailableSeats(seats)
  {
    if seats != [] {
      var prefix, last := seats[..|seats| - 1], seats[|seats| - 1];
      AvailableSeatsIdempotent(prefix);
      AvailableSeatsAppend(AvailableSeats(prefix), if !last.occupied then [last] else []);
      if !last.occupied {
        assert AvailableSeats([last]) == AvailableSeats([]) + [last] by {
          assert [last][..0] == [];
        }
      } else {
        assert AvailableSeats(prefix) + [] == AvailableSeats(prefix);
      }
    }
  }

  /** The free seats inherit distinct positions from the flight's seats. */
  lemma {:induction false} AvailableSeatsDistinct(seats: seq<Seat>)
    requires DistinctPositions(seats)
    ensures DistinctPositions(AvailableSeats(seats))
  {
    if seats != [] {
      var prefix, last := seats[..|seats| - 1], seats[|seats| - 1];
      assert DistinctPositions(prefix);
      AvailableSeatsDistinct(prefix);
      if !last.occupied {
        forall s | s in AvailableSeats(prefix)
          ensures s.row != last.row || s.seatNumber != last.seatNumber
        {
          var i :| 0 <= i < |prefix| && prefix[i] == s;
          assert seats[i] == s;
        }
        DistinctPositionsSnoc(AvailableSeats(prefix), last);
      } else {
        assert AvailableSeats(seats) == AvailableSeats(prefix);
      }
    }
  }

  // --------------------------------------------------------- best group

  /** findBestSeatGroup, with the contiguous finder's rows visited in the given order. */
  function FindBestSeatGroupIn(order: seq<RowLabel>, availableSeats: seq<Seat>, numSeats: int, features: seq<Feature>): seq<Seat>
    requires numSeats >= 1
  {
    var contiguous := ContiguousBestIn(order, availableSeats, numSeats, features);
    if contiguous != [] then contiguous else MixedBest(availableSeats, numSeats, features)
  }

  /**
   * The fallback rule: when some row has a qualifying window the answer is the
   * contiguous finder's, a window of n seats in one row whose numbers span
   * n - 1; otherwise it is the mixed finder's.
   */
  lemma BestSeatGroupFallback(order: seq<RowLabel>, availableSeats: seq<Seat>, numSeats: int, features: seq<Feature>)
    requires numSeats >= 1 && IsEnumerationOf(order, RowSet(availableSeats))
    ensures (exists w :: IsContiguousCandidate(availableSeats, numSeats, w)) ==>
      && FindBestSeatGroupIn(order, availableSeats, numSeats, features) == ContiguousBestIn(order, availableSeats, numSeats, features)
      && IsRowRun(availableSeats, numSeats, FindBestSeatGroupIn(order, availableSeats, numSeats, features))
    ensures (forall w :: !IsContiguousCandidate(availableSeats, numSeats, w)) ==>
      FindBestSeatGroupIn(order, availableSeats, numSeats, features) == MixedBest(availableSeats, numSeats, features)
  {
    ContiguousBestIsMinimal(order, availableSeats, numSeats, features);
  }

  /** With at least n free seats the answer has n seats, all of them free seats. */
  lemma BestSeatGroupServes(order: seq<RowLabel>, availableSeats: seq<Seat>, numSeats: int, features: seq<Feature>)
    requires numSeats >= 1 && |availableSeats| >= numSeats
    ensures |FindBestSeatGroupIn(order, availableSeats, numSeats, features)| == numSeats
    ensures forall s :: s in FindBestSeatGroupIn(order, availableSeats, numSeats, features) ==> s in availableSeats
  {
    if ContiguousBestIn(order, availableSeats, numSeats, features) == [] {
      MixedBestIsSortedSlice(availableSeats, numSeats, features);
    }
  }

  /** findBestSeatGroup: try the contiguous finder, and the mixed finder only when it finds nothing. */
  method FindBestSeatGroup(availableSeats: seq<Seat>, numSeats: int, features: seq<Feature>)
    returns (bestSeats: seq<Seat>, ghost order: seq<RowLabel>)
    requires numSeats >= 1
    ensures IsEnumerationOf(order, RowSet(availableSeats))
    ensures bestSeats == FindBestSeatGroupIn(order, availableSeats, numSeats, features)
  {
    bestSeats, order := FindBestContiguousSeatGroup(availableSeats, numSeats, features);
    if bestSeats != [] {
      return;
    }
    bestSeats := FindBestMixedSeatGroup(availableSeats, numSeats, features);
    bestSeats := if bestSeats == [] then [] else bestSeats;
  }

  // ------------------------------------------------------ recommendations

  /** getSeatRecommendations, with the contiguous finder's rows visited in the given order. */
  function SeatRecommendationsIn(
    order: seq<RowLabel>, repository: FlightRepository, flightId: FlightId,
    numSeatsRequired: int, desiredFeatures: Option<seq<Feature>>): seq<Seat>
  {
    if numSeatsRequired < 1 then []
    else
      var features := if desiredFeatures.Some? then desiredFeatures.value else [];
      if flightId !in repository then []
      else
        var availableSeats := AvailableSeats(repository[flightId]);
        if |availableSeats| < numSeatsRequired then []
        else FindBestSeatGroupIn(order, availableSeats, numSeatsRequired, features)
  }

  /** The request is feasible: a positive count, a known flight, and enough free seats. */
  ghost predicate Feasible(repository: FlightRepository, flightId: FlightId, numSeatsRequired: int) {
    numSeatsRequired >= 1 && flightId in repository
    && |AvailableSeats(repository[flightId])| >= numSeatsRequired
  }

  /**
   * Every failure yields no seats: a count below one, an unknown flight, or
   * fewer free seats than requested.
   */
  lemma InfeasibleRequestIsEmpty(
    order: seq<RowLabel>, repository: FlightRepository, flightId: FlightId,
    numSeatsRequired: int, desiredFeatures: Option<seq<Feature>>)
    requires !Feasible(repository, flightId, numSeatsRequired)
    ensures SeatRecommendationsIn(order, repository, flightId, numSeatsRequired, desiredFeatures) == []
  {
  }

  /** A null feature list behaves exactly like an empty one. */
  lemma NullFeaturesAreEmpty(
    order: seq<RowLabel>, repository: FlightRepository, flightId: FlightId, numSeatsRequired: int)
    ensures SeatRecommendationsIn(order, repository, flightId, numSeatsRequired, None) ==
      SeatRecommendationsIn(order, repository, flightId, numSeatsRequired, Some([]))
  {
  }

  /**
   * A feasible request always gets exactly the requested number of seats, all
   * of them seats of that flight and unoccupied.
   */
  lemma FeasibleRequestIsServed(
    order: seq<RowLabel>, repository: FlightRepository, flightId: FlightId,
    numSeatsRequired: int, desiredFeatures: Option<seq<Feature>>)
    requires Feasible(repository, flightId, numSeatsRequired)
    ensures |SeatRecommendationsIn(order, repository, flightId, numSeatsRequired, desiredFeatures)| == numSeatsRequired
    ensures forall s :: s in SeatRecommendationsIn(order, repository, flightId, numSeatsRequired, desiredFeatures) ==>
      s in repository[flightId] && !s.occupied
  {
    var features := if desiredFeatures.Some? then desiredFeatures.value else [];
    BestSeatGroupServes(order, AvailableSeats(repository[flightId]), numSeatsRequired, features);
  }

  /**
   * Only the set of desired features matters: repeating or reordering them
   * changes no recommendation.
   */
  lemma RecommendationsDependOnFeatureSet(
    order: seq<RowLabel>, repository: FlightRepository, flightId: FlightId,
    numSeatsRequired: int, d1: seq<Feature>, d2: seq<Feature>)
    requires forall f :: f in d1 <==> f in d2
    ensures SeatRecommendationsIn(order, repository, flightId, numSeatsRequired, Some(d1)) ==
      SeatRecommendationsIn(order, repository, flightId, numSeatsRequired, Some(d2))
  {
    if Feasible(repository, flightId, numSeatsRequired) {
      var availableSeats := AvailableSeats(repository[flightId]);
      ContiguousBestSameDesiredSet(order, availableSeats, numSeatsRequired, d1, d2);
      MixedBestSameDesiredSet(availableSeats, numSeatsRequired, d1, d2);
    }
  }

  /**
   * With distinct seat positions, the order in which the contiguous finder
   * visits rows (HashMap iteration order) cannot change the recommendation.
   */
  lemma RecommendationsIndependentOfRowOrder(
    order1: seq<RowLabel>, order2: seq<RowLabel>, repository: FlightRepository, flightId: FlightId,
    numSeatsRequired: int, desiredFeatures: Option<seq<Feature>>)
    requires flightId in repository && DistinctPositions(repository[flightId])
    requires IsEnumerationOf(order1, RowSet(AvailableSeats(repository[flightId])))
    requires IsEnumerationOf(order2, RowSet(AvailableSeats(repository[flightId])))
    ensures SeatRecommendationsIn(order1, repository, flightId, numSeatsRequired, desiredFeatures) ==
      SeatRecommendationsIn(order2, repository, flightId, numSeatsRequired, desiredFeatures)
  {
    if numSeatsRequired >= 1 {
      var features := if desiredFeatures.Some? then desiredFeatures.value else [];
      AvailableSeatsDistinct(repository[flightId]);
      ContiguousBestIndependentOfRowOrder(order1, order2, AvailableSeats(repository[flightId]), numSeatsRequired, features);
    }
  }

  /** getSeatRecommendations: validate, look the flight up, filter its free seats, find the best group. */
  method GetSeatRecommendations(
    repository: FlightRepository, flightId: FlightId, numSeatsRequired: int, desiredFeatures: Option<seq<Feature>>)
    returns (recommended: seq<Seat>, ghost order: seq<RowLabel>)
    ensures Feasible(repository, flightId, numSeatsRequired) ==>
      IsEnumerationOf(order, RowSet(AvailableSeats(repository[flightId])))
    ensures recommended == SeatRecommendationsIn(order, repository, flightId, numSeatsRequired, desiredFeatures)
  {
    order := [];
    if numSeatsRequired < 1 {
      return [], order;
    }
    var nonNullDesiredFeatures := if desiredFeatures.Some? then desiredFeatures.value else [];
    if flightId !in repository {
      return [], order;
    }
    var availableSeats := GetAvailableSeats(repository[flightId]);
    if |availableSeats| < numSeatsRequired {
      return [], order;
    }
    recommended, order := FindBestSeatGroup(availableSeats, numSeatsRequired, nonNullDesiredFeatures);
  }
}
