// The low-point score calculator: per-race points with the boats-plus-one
// penalty, uncompleted races, one discard per five races, totals and the final
// ranking.

module Scoring {
  import opened Sequences
  import opened Models
  import opened Discarding

  /** One row of the score table. */
  datatype Score = Score(
    skipperName: string,
    sailNumber: string,
    totalPoints: int,
    positionsPerRace: seq<int>,
    discardedRaceIndices: seq<int>,
    hasDNSorDNF: bool)

  /** The per-skipper accumulator `computeScores` fills race by race. */
  datatype Tally = Tally(points: seq<int>, sailNumber: string, hasDNSorDNF: bool)

  // ---------------------------------------------------------------------------
  // Points in one race
  // ---------------------------------------------------------------------------

  /** The score of a boat that did not start, did not finish or is missing: boats + 1. */
  function PenaltyPoints(context: ModelContext): int
  {
    |context.skippers| + 1
  }

  function Finishers(race: RaceRecord, context: ModelContext): seq<Skipper>
  {
    Resolve(race.finishingIds, context)
  }

  /** The position map of one race: each finisher's id mapped to its 1-based slot in
      the resolved order; a later slot of the same id overwrites an earlier one. */
  function PositionMap(finishers: seq<Skipper>, statuses: map<string, string>): map<string, int>
  {
    if finishers == [] then map[]
    else
      var last := finishers[|finishers| - 1];
      var earlier := PositionMap(finishers[..|finishers| - 1], statuses);
      if StatusOf(statuses, last.id) == Finished then earlier[last.id := |finishers|] else earlier
  }

  /** The skipper scores the penalty in this race (DNS, DNF, or no position). */
  predicate TakesPenalty(race: RaceRecord, context: ModelContext, id: string)
  {
    var status := StatusOf(race.statuses, id);
    status == Dns || status == Dnf || id !in PositionMap(Finishers(race, context), race.statuses)
  }

  /** The points a skipper scores in one race. */
  function RacePoints(race: RaceRecord, context: ModelContext, id: string): int
  {
    var status := StatusOf(race.statuses, id);
    var positionMap := PositionMap(Finishers(race, context), race.statuses);
    if status == Dns || status == Dnf then PenaltyPoints(context)
    else if id in positionMap then positionMap[id]
    else PenaltyPoints(context)
  }

  /** `p` is the 1-based slot of the last entry of `finishers` with this id. */
  ghost predicate IsLastSlot(finishers: seq<Skipper>, id: string, p: int)
  {
    && 1 <= p <= |finishers|
    && finishers[p - 1].id == id
    && forall k :: p <= k < |finishers| ==> finishers[k].id != id
  }

  /** The position map holds exactly the finishers whose status is Finished, each
      at the last slot its id occupies; DNS and DNF boats still take up slots. */
  lemma {:induction false} PositionMapSpec(finishers: seq<Skipper>, statuses: map<string, string>)
    ensures forall id :: id in PositionMap(finishers, statuses) <==> id in Ids(finishers) && StatusOf(statuses, id) == Finished
    ensures forall id :: id in PositionMap(finishers, statuses) ==> IsLastSlot(finishers, id, PositionMap(finishers, statuses)[id])
    decreases |finishers|
  {
    if finishers != [] {
      var n := |finishers|;
      var front := finishers[..n - 1];
      var last := finishers[n - 1];
      PositionMapSpec(front, statuses);
      assert Ids(finishers) == Ids(front) + [last.id];
      forall id | id in PositionMap(finishers, statuses)
        ensures IsLastSlot(finishers, id, PositionMap(finishers, statuses)[id])
      {
        if id != last.id || StatusOf(statuses, last.id) != Finished {
          assert PositionMap(finishers, statuses)[id] == PositionMap(front, statuses)[id];
          assert id != last.id;
          assert IsLastSlot(front, id, PositionMap(front, statuses)[id]);
        }
      }
    }
  }

  /** The points of one race: the penalty exactly when the skipper is DNS, DNF or
      not in the resolved order as a finisher, otherwise the last slot holding the
      skipper's id. */
  lemma RacePointsSpec(race: RaceRecord, context: ModelContext, id: string)
    ensures TakesPenalty(race, context, id)
      <==> StatusOf(race.statuses, id) != Finished || id !in Ids(Finishers(race, context))
    ensures TakesPenalty(race, context, id) ==> RacePoints(race, context, id) == PenaltyPoints(context)
    ensures !TakesPenalty(race, context, id) ==> IsLastSlot(Finishers(race, context), id, RacePoints(race, context, id))
  {
    PositionMapSpec(Finishers(race, context), race.statuses);
  }

  /** With no repeated stored id, the boat in slot j that finished scores j + 1. */
  lemma FinisherPoints(race: RaceRecord, context: ModelContext, j: int)
    requires Distinct(race.finishingIds)
    requires 0 <= j < |Finishers(race, context)|
    requires StatusOf(race.statuses, Finishers(race, context)[j].id) == Finished
    ensures RacePoints(race, context, Finishers(race, context)[j].id) == j + 1
  {
    var f := Finishers(race, context);
    var id := f[j].id;
    assert Ids(f)[j] == id;
    RacePointsSpec(race, context, id);
    ResolveDistinct(race.finishingIds, context);
    var p := RacePoints(race, context, id);
    assert Ids(f)[p - 1] == id;
  }

  /** A race whose resolved finishing order is empty gives every skipper the penalty. */
  lemma UncompletedRacePenalized(race: RaceRecord, context: ModelContext, id: string)
    requires Finishers(race, context) == []
    ensures TakesPenalty(race, context, id)
    ensures RacePoints(race, context, id) == PenaltyPoints(context)
  {
  }

  /** With no repeated stored id, the resolved order is no longer than the roster. */
  lemma FinishersFitRoster(race: RaceRecord, context: ModelContext)
    requires Distinct(race.finishingIds)
    ensures |Finishers(race, context)| <= |context.skippers|
  {
    var f := Finishers(race, context);
    ResolveDistinct(race.finishingIds, context);
    forall x | x in Ids(f) ensures x in Ids(context.skippers) {
      var k :| 0 <= k < |f| && Ids(f)[k] == x;
      assert f[k] in context.skippers;
      var m :| 0 <= m < |context.skippers| && context.skippers[m] == f[k];
      assert Ids(context.skippers)[m] == x;
    }
    DistinctWithin(Ids(f), Ids(context.skippers));
  }

  /** With no repeated stored id, a race scores between 1 and the penalty, and the
      penalty value is scored exactly when the skipper takes the penalty. */
  lemma PointsInRange(race: RaceRecord, context: ModelContext, id: string)
    requires Distinct(race.finishingIds)
    ensures 1 <= RacePoints(race, context, id) <= PenaltyPoints(context)
    ensures RacePoints(race, context, id) == PenaltyPoints(context) <==> TakesPenalty(race, context, id)
  {
    RacePointsSpec(race, context, id);
    FinishersFitRoster(race, context);
  }

  /** The points of one skipper, as a function of the race. */
  function PointsIn(context: ModelContext, id: string): RaceRecord -> int
  {
    race => RacePoints(race, context, id)
  }

  /** Whether one skipper takes the penalty, as a function of the race. */
  function PenaltyIn(context: ModelContext, id: string): RaceRecord -> bool
  {
    race => TakesPenalty(race, context, id)
  }

  /** A skipper's points race by race. */
  function PointsPerRace(races: seq<RaceRecord>, context: ModelContext, id: string): seq<int>
  {
    Mapped(races, PointsIn(context, id))
  }

  /** Some race gave the skipper the penalty. */
  predicate HasPenalty(races: seq<RaceRecord>, context: ModelContext, id: string)
  {
    Any(races, PenaltyIn(context, id))
  }

  /** The accumulator of one skipper after the given races. */
  function TallyAfter(races: seq<RaceRecord>, context: ModelContext, skipper: Skipper): Tally
  {
    Tally(
      PointsPerRace(races, context, skipper.id),
      if races == [] then "" else skipper.sailNumber,
      HasPenalty(races, context, skipper.id))
  }

  /** One more race appends its points to the accumulator and may set the penalty flag. */
  lemma TallyStep(races: seq<RaceRecord>, context: ModelContext, skipper: Skipper)
    requires races != []
    ensures TallyAfter(races, context, skipper)
      == var before := TallyAfter(races[..|races| - 1], context, skipper);
         var last := races[|races| - 1];
         Tally(before.points + [RacePoints(last, context, skipper.id)],
               skipper.sailNumber,
               before.hasDNSorDNF || TakesPenalty(last, context, skipper.id))
  {
    MappedStep(races, PointsIn(context, skipper.id));
    AnyStep(races, PenaltyIn(context, skipper.id));
  }

  /** `u` lists, in ascending order, exactly the races whose resolved order is empty. */
  ghost predicate IsUncompletedList(u: seq<int>, races: seq<RaceRecord>, context: ModelContext)
  {
    && (forall a, b :: 0 <= a < b < |u| ==> u[a] < u[b])
    && (forall x :: x in u <==> 0 <= x < |races| && Finishers(races[x], context) == [])
  }

  /** One more race extends the list of uncompleted races by its index exactly when
      its resolved order is empty. */
  lemma UncompletedStep(u: seq<int>, races: seq<RaceRecord>, context: ModelContext, completed: bool)
    requires races != []
    requires IsUncompletedList(u, races[..|races| - 1], context)
    requires forall a :: 0 <= a < |u| ==> u[a] < |races| - 1
    requires completed <==> Finishers(races[|races| - 1], context) != []
    ensures var next := if completed then u else u + [|races| - 1];
      IsUncompletedList(next, races, context) && forall a :: 0 <= a < |next| ==> next[a] < |races|
  {
    var front := races[..|races| - 1];
    assert forall x :: 0 <= x < |front| ==> front[x] == races[x];
  }

  // ---------------------------------------------------------------------------
  // The score table
  // ---------------------------------------------------------------------------

  /** The score of one skipper over all races. */
  function ScoreOf(skipper: Skipper, races: seq<RaceRecord>, context: ModelContext): Score
  {
    var points := PointsPerRace(races, context, skipper.id);
    var discarded := Discards(points, DiscardCount(|races|));
    Score(skipper.name, skipper.sailNumber, KeptTotal(points, discarded), points, discarded,
          HasPenalty(races, context, skipper.id))
  }

  /** One score per roster skipper, in roster order; none at all without races. */
  function Scoreboard(races: seq<RaceRecord>, context: ModelContext): seq<Score>
  {
    if races == [] then []
    else seq(|context.skippers|, j requires 0 <= j < |context.skippers| => ScoreOf(context.skippers[j], races, context))
  }

  function ByTotal(score: Score): int
  {
    score.totalPoints
  }

  /** The returned score list: the score table sorted by total, nothing when the
      roster cannot be fetched. */
  function RankedScores(races: seq<RaceRecord>, context: ModelContext): seq<Score>
  {
    if context.fetchFails then [] else SortBy(Scoreboard(races, context), ByTotal)
  }

  /** A skipper's score row is made from the accumulator the race loop leaves behind. */
  lemma ScoreFromTally(skipper: Skipper, races: seq<RaceRecord>, context: ModelContext, tally: Tally)
    requires tally == TallyAfter(races, context, skipper)
    ensures |tally.points| == |races|
    ensures races != [] ==>
      var discarded := Discards(tally.points, DiscardCount(|races|));
      ScoreOf(skipper, races, context)
        == Score(skipper.name, tally.sailNumber, KeptTotal(tally.points, discarded), tally.points, discarded, tally.hasDNSorDNF)
  {
  }

  /** The penalty flag is set exactly when some race scored the skipper the
      penalty value, provided no race stores an id twice. */
  lemma PenaltyFlagIff(races: seq<RaceRecord>, context: ModelContext, id: string)
    requires forall i :: 0 <= i < |races| ==> Distinct(races[i].finishingIds)
    ensures HasPenalty(races, context, id)
      <==> exists i :: 0 <= i < |races| && PointsPerRace(races, context, id)[i] == PenaltyPoints(context)
  {
    forall i | 0 <= i < |races|
      ensures PointsPerRace(races, context, id)[i] == PenaltyPoints(context) <==> TakesPenalty(races[i], context, id)
    {
      PointsInRange(races[i], context, id);
    }
  }

  /** A score row names the skipper, holds one entry per race in race order, and
      flags the penalty exactly when some race took a penalty branch. */
  lemma ScoreRowSpec(skipper: Skipper, races: seq<RaceRecord>, context: ModelContext)
    ensures var score := ScoreOf(skipper, races, context);
      && score.skipperName == skipper.name
      && score.sailNumber == skipper.sailNumber
      && |score.positionsPerRace| == |races|
      && (forall i :: 0 <= i < |races| ==> score.positionsPerRace[i] == RacePoints(races[i], context, skipper.id))
      && (score.hasDNSorDNF <==> exists i :: 0 <= i < |races| && TakesPenalty(races[i], context, skipper.id))
  {
  }

  /** A score row discards a valid choice of worst races and totals the rest. */
  lemma ScoreTotalSpec(skipper: Skipper, races: seq<RaceRecord>, context: ModelContext)
    ensures var score := ScoreOf(skipper, races, context);
      && IsDiscardSelection(score.positionsPerRace, DiscardCount(|races|), score.discardedRaceIndices)
      && score.totalPoints == Sum(score.positionsPerRace) - SumAt(score.positionsPerRace, score.discardedRaceIndices)
  {
    var points := PointsPerRace(races, context, skipper.id);
    var d := Discards(points, DiscardCount(|races|));
    DiscardsAreWorst(points, DiscardCount(|races|));
    KeptTotalIsSumMinusDiscarded(points, d);
  }

  /** Fewer than five races: nothing is discarded and the total is the plain sum. */
  lemma NoDiscardsInShortSeries(skipper: Skipper, races: seq<RaceRecord>, context: ModelContext)
    requires |races| < 5
    ensures ScoreOf(skipper, races, context).discardedRaceIndices == []
    ensures ScoreOf(skipper, races, context).totalPoints == Sum(PointsPerRace(races, context, skipper.id))
  {
    NoDiscardsBelowFiveRaces(PointsPerRace(races, context, skipper.id));
  }

  /** The returned list: empty when the roster cannot be fetched or there are no
      races; otherwise one score per roster skipper, rearranged into
      non-decreasing order of total. */
  lemma RankedScoresSpec(races: seq<RaceRecord>, context: ModelContext)
    ensures context.fetchFails || races == [] ==> RankedScores(races, context) == []
    ensures !context.fetchFails && races != [] ==>
      var ranked := RankedScores(races, context);
      && |ranked| == |context.skippers|
      && multiset(ranked) == multiset(Scoreboard(races, context))
      && (forall a, b :: 0 <= a < b < |ranked| ==> ranked[a].totalPoints <= ranked[b].totalPoints)
  {
    if !context.fetchFails && races != [] {
      var ranked := RankedScores(races, context);
      assert SortedBy(ranked, ByTotal);
    }
  }

  /** Every roster skipper appears in the returned list with their own score row. */
  lemma EverySkipperRanked(races: seq<RaceRecord>, context: ModelContext, j: int)
    requires !context.fetchFails && races != [] && 0 <= j < |context.skippers|
    ensures ScoreOf(context.skippers[j], races, context) in RankedScores(races, context)
  {
    var board := Scoreboard(races, context);
    assert board[j] == ScoreOf(context.skippers[j], races, context);
    assert board[j] in multiset(board);
    assert board[j] in multiset(RankedScores(races, context));
  }

  // ---------------------------------------------------------------------------
  // computeScores
  // ---------------------------------------------------------------------------

  /** The position map of one race, built slot by slot over its resolved order. */
  method MapPositions(race: Race, finishingPositions: seq<Skipper>) returns (positionMap: map<string, int>)
    ensures positionMap == PositionMap(finishingPositions, race.statuses)
  {
    positionMap := map[];
    for p := 0 to |finishingPositions|
      invariant positionMap == PositionMap(finishingPositions[..p], race.statuses)
    {
      assert finishingPositions[..p + 1][..p] == finishingPositions[..p];
      var skipper := finishingPositions[p];
      var status := race.GetStatus(skipper);
      if status == Finished {
        positionMap := positionMap[skipper.id := p + 1];
      }
    }
    assert finishingPositions[..|finishingPositions|] == finishingPositions;
  }

  /** The last pass over the roster: discards and totals for every skipper with
      at least one race. */
  method TotalScores(allSkippers: seq<Skipper>, scoresBySkipper: map<string, Tally>, numberOfDiscards: nat,
                     ghost records: seq<RaceRecord>, ghost context: ModelContext)
    returns (unsorted: seq<Score>)
    requires allSkippers == context.skippers
    requires numberOfDiscards == DiscardCount(|records|)
    requires forall k :: 0 <= k < |allSkippers| ==>
      allSkippers[k].id in scoresBySkipper && scoresBySkipper[allSkippers[k].id] == TallyAfter(records, context, allSkippers[k])
    ensures unsorted == Scoreboard(records, context)
  {
    unsorted := [];
    for j := 0 to |allSkippers|
      invariant records == [] ==> unsorted == []
      invariant records != [] ==> |unsorted| == j
      invariant records != [] ==> forall k :: 0 <= k < j ==> unsorted[k] == ScoreOf(allSkippers[k], records, context)
    {
      var skipper := allSkippers[j];
      // The entry is always present: every roster id was given one.
      var scoreData := scoresBySkipper[skipper.id];
      var points := scoreData.points;
      ScoreFromTally(skipper, records, context, scoreData);
      if |points| == 0 {
        continue;
      }
      var discardedIndices := Discards(points, numberOfDiscards);
      var totalPoints := KeptTotal(points, discardedIndices);
      var score := Score(skipper.name, scoreData.sailNumber, totalPoints, points, discardedIndices, scoreData.hasDNSorDNF);
      assert score == ScoreOf(skipper, records, context);
      ghost var before := unsorted;
      unsorted := unsorted + [score];
      forall k | 0 <= k < j + 1
        ensures unsorted[k] == ScoreOf(allSkippers[k], records, context)
      {
        if k < j {
          assert unsorted[k] == before[k];
        }
      }
    }
  }

  /** The inner pass over the roster for one race: every skipper's points for the
      race are appended to their accumulator, and the penalty flag is set. */
  method ScoreRace(race: Race, positionMap: map<string, int>, allSkippers: seq<Skipper>,
                   scoresBySkipper: map<string, Tally>, ghost records: seq<RaceRecord>, ghost context: ModelContext)
    returns (updated: map<string, Tally>)
    requires records != [] && records[|records| - 1] == race.Record()
    requires allSkippers == context.skippers && Distinct(Ids(allSkippers))
    requires positionMap == PositionMap(Finishers(race.Record(), context), race.statuses)
    requires forall k :: 0 <= k < |allSkippers| ==>
      allSkippers[k].id in scoresBySkipper
      && scoresBySkipper[allSkippers[k].id] == TallyAfter(records[..|records| - 1], context, allSkippers[k])
    ensures forall k :: 0 <= k < |allSkippers| ==>
      allSkippers[k].id in updated && updated[allSkippers[k].id] == TallyAfter(records, context, allSkippers[k])
  {
    var totalBoats := |allSkippers|;
    updated := scoresBySkipper;
    for j := 0 to |allSkippers|
      invariant forall k :: 0 <= k < j ==>
        allSkippers[k].id in updated && updated[allSkippers[k].id] == TallyAfter(records, context, allSkippers[k])
      invariant forall k :: j <= k < |allSkippers| ==>
        allSkippers[k].id in updated && updated[allSkippers[k].id] == TallyAfter(records[..|records| - 1], context, allSkippers[k])
    {
      var skipper := allSkippers[j];
      ghost var before := updated;
      TallyStep(records, context, skipper);
      var points: int;
      var status := race.GetStatus(skipper);
      if status == Dns || status == Dnf {
        points := totalBoats + 1;
        if skipper.id in updated {
          updated := updated[skipper.id := updated[skipper.id].(hasDNSorDNF := true)];
        }
      } else if skipper.id in positionMap {
        points := positionMap[skipper.id];
      } else {
        points := totalBoats + 1;
        if skipper.id in updated {
          updated := updated[skipper.id := updated[skipper.id].(hasDNSorDNF := true)];
        }
      }
      if skipper.id in updated {
        var entry := updated[skipper.id];
        updated := updated[skipper.id := entry.(points := entry.points + [points])];
      }
      if skipper.id in updated {
        updated := updated[skipper.id := updated[skipper.id].(sailNumber := skipper.sailNumber)];
      }
      assert points == RacePoints(records[|records| - 1], context, skipper.id);
      assert updated[skipper.id] == TallyAfter(records, context, skipper);
      assert forall id :: id != skipper.id && id in before ==> id in updated && updated[id] == before[id];
    }
  }

  /** The race loop: the accumulators after every race, and the indices of the
      races with an empty resolved order. */
  method TallyRaces(races: seq<Race>, allSkippers: seq<Skipper>, initial: map<string, Tally>, context: ModelContext)
    returns (scoresBySkipper: map<string, Tally>, uncompletedRaces: seq<int>)
    requires allSkippers == context.skippers && Distinct(Ids(allSkippers))
    requires forall k :: 0 <= k < |allSkippers| ==>
      allSkippers[k].id in initial && initial[allSkippers[k].id] == Tally([], "", false)
    ensures forall k :: 0 <= k < |allSkippers| ==>
      allSkippers[k].id in scoresBySkipper && scoresBySkipper[allSkippers[k].id] == TallyAfter(Records(races), context, allSkippers[k])
    ensures IsUncompletedList(uncompletedRaces, Records(races), context)
  {
    ghost var records := Records(races);
    scoresBySkipper := initial;
    uncompletedRaces := [];
    for i := 0 to |races|
      invariant forall k :: 0 <= k < |allSkippers| ==>
        allSkippers[k].id in scoresBySkipper && scoresBySkipper[allSkippers[k].id] == TallyAfter(records[..i], context, allSkippers[k])
      invariant IsUncompletedList(uncompletedRaces, records[..i], context)
      invariant forall a :: 0 <= a < |uncompletedRaces| ==> uncompletedRaces[a] < i
    {
      var race := races[i];
      assert records[..i + 1] == records[..i] + [race.Record()];
      assert records[..i + 1][..i] == records[..i];
      var finishingPositions := race.FetchFinishingPositions(context);

      UncompletedStep(uncompletedRaces, records[..i + 1], context, |finishingPositions| != 0);
      if |finishingPositions| == 0 {
        uncompletedRaces := uncompletedRaces + [i];
      }

      var positionMap := MapPositions(race, finishingPositions);
      scoresBySkipper := ScoreRace(race, positionMap, allSkippers, scoresBySkipper, records[..i + 1], context);
    }
    assert records[..|races|] == records;
  }

  method ComputeScores(races: seq<Race>, context: ModelContext) returns (scores: seq<Score>, uncompletedRaces: seq<int>)
    requires Distinct(Ids(context.skippers))
    ensures scores == RankedScores(Records(races), context)
    ensures context.fetchFails ==> uncompletedRaces == []
    ensures !context.fetchFails ==> IsUncompletedList(uncompletedRaces, Records(races), context)
  {
    if context.fetchFails {
      return [], [];
    }
    var allSkippers := context.skippers;

    var scoresBySkipper: map<string, Tally> := map[];
    for j := 0 to |allSkippers|
      invariant forall k :: 0 <= k < j ==>
        allSkippers[k].id in scoresBySkipper && scoresBySkipper[allSkippers[k].id] == Tally([], "", false)
    {
      scoresBySkipper := scoresBySkipper[allSkippers[j].id := Tally([], "", false)];
    }

    scoresBySkipper, uncompletedRaces := TallyRaces(races, allSkippers, scoresBySkipper, context);

    var numberOfDiscards := if |races| >= 5 then |races| / 5 else 0;
    var unsorted := TotalScores(allSkippers, scoresBySkipper, numberOfDiscards, Records(races), context);
    scores := SortBy(unsorted, ByTotal);
  }
}
