# Regatta scoring in Dafny

A model of the scoring engine of RegattaManager, an app for running a sailing
series. It covers the race-result record and the low-point score calculator:

- **`Race`** (module `Models`, `models.dfy`): a class holding a race's finishing
  order, as skipper ids, and a map from skipper id to a raw status string
  (`"finished"`, `"dns"`, `"dnf"`). It can replace the order while keeping the
  statuses of the boats still in it, set one status, read a status (defaulting
  to finished) and resolve the stored ids against the roster.
- **`computeScores`** (module `Scoring`, `scoring.dfy`): an imperative method
  with the source's loops and dictionary accumulator. It scores every roster
  skipper in every race: a finisher scores their 1-based slot, and a DNS, DNF
  or absent boat scores roster size + 1. It also lists the races whose
  resolved finishing order is empty, discards one worst result per five races, totals the rest and
  sorts the rows by total.
- **Discards and totals** (module `Discarding`, `discards.dfy`): the
  expression-style `sorted` / `prefix` / `reduce` step. It comes with a
  relational statement of what a valid discard choice is, and a proof that the
  total does not depend on how ties between equal results are broken.
- `Sequences` (`sequences.dfy`) holds facts about sequences without repeats,
  and the element-wise map `Mapped` and existence test `Any` with their step lemmas.

The persistence context is a value `ModelContext(skippers, fetchFails)`. It is
the roster, in fetch order, plus a flag saying whether fetching from the store
fails. A race's two stored fields are read as a `RaceRecord` value. `Records` builds
these snapshots for a sequence of races; `TallyRaces` and `ComputeScores` use
it only to read the races, and change none of them.
`computeScores` is proved equal to a functional description. That description
is: the score row of each roster skipper (`ScoreOf`), in roster order
(`Scoreboard`), sorted by total (`RankedScores`). The lemmas state what those
functions promise.

## Model

| member | source | states |
|---|---|---|
| Models.RawValue | RegattaManager/Models.swift:11-15 | Parsing the raw value of a status with the failable raw-value initialiser gives that status back (round trip) |
| Models.StatusOf | RegattaManager/Models.swift:89-95 | The stored status when the id has an entry that parses; Finished when the entry is absent or does not parse |
| Models.StatusAfterSet | RegattaManager/Models.swift:85-87 | Writing a status for one id makes that id read back as the status, and every other id reads as before |
| Models.Race.constructor | RegattaManager/Models.swift:52-56 | Stores exactly the given skippers' ids in order, with status finished for each; repeated ids are excluded, as the dictionary initialiser traps on them |
| Models.RetainStatuses | RegattaManager/Models.swift:60-65 | The rebuilt map's keys are exactly the ids of the new order |
| Models.RetainedStatus | RegattaManager/Models.swift:60-65 | After the rebuild an id in the new order reads its old status, and any other id reads Finished, so a stale DNS/DNF entry is dropped |
| Models.RetainStatusesKeepsEntry | RegattaManager/Models.swift:63 | An id present before and still in the order keeps its raw value |
| Models.Race.SetFinishingPositions | RegattaManager/Models.swift:58-66 | The new order is the ids of the given skippers in order, and the status map is RetainStatuses of the old one |
| Models.Race.GetStatus | RegattaManager/Models.swift:89-95 | The stored status when the skipper's id has an entry that parses; Finished when the entry is absent or does not parse |
| Models.Race.SetStatus | RegattaManager/Models.swift:85-87 | Only the entry of that skipper's id changes; the order is unchanged and every other id reads the same status |
| Models.ResaveKeepsStatus | RegattaManager/EditRaceView.swift:238-243 | Setting a status and then saving an order that contains the skipper keeps the status |
| Models.FirstWithId | RegattaManager/Models.swift:77 | `first` returns a roster entry with the id, and nothing exactly when no entry has it |
| Models.Resolve | RegattaManager/Models.swift:68-83 | A failing fetch gives the empty sequence; every resolved skipper is in the roster and has a stored id |
| Models.ResolveKeepsStoredOrder | RegattaManager/Models.swift:68-83 | The resolved ids are the stored ids minus those missing from the roster: a subsequence of the stored order, no longer than it, holding exactly the stored ids the roster knows |
| Models.Race.FetchFinishingPositions | RegattaManager/Models.swift:68-83 | Nothing when the fetch fails; otherwise the resolved ids are exactly the stored ids the roster knows, in stored order, and never more skippers than stored ids |
| Models.ResolveReincludes | RegattaManager/Models.swift:76-78 | A skipper that is in the roster and whose id is stored is resolved again |
| Models.ResolveDistinct | RegattaManager/Models.swift:76-78 | Distinct stored ids resolve to skippers with distinct ids |
| Discarding.SortBy | RegattaManager/SkipperScore.swift:110 | The result is sorted by the key and is a permutation of the input |
| Discarding.DiscardCount | RegattaManager/SkipperScore.swift:81 | No discards below five races; otherwise one per full five races, never more than the number of races |
| Discarding.RankWorstFirst | RegattaManager/SkipperScore.swift:92 | A permutation of the race indices with the highest points first |
| Discarding.Discards | RegattaManager/SkipperScore.swift:93 | The first `count` ranked indices, rearranged into ascending order |
| Discarding.DiscardsAscending | RegattaManager/SkipperScore.swift:92-93 | The discards are `count` strictly increasing indices, the same members as the ranking's prefix |
| Discarding.DiscardsAreWorst | RegattaManager/SkipperScore.swift:92-93 | The discards are a valid selection: `count` distinct ascending indices in range, each with at least the points of every kept race |
| Discarding.KeptTotalIsSumMinusDiscarded | RegattaManager/SkipperScore.swift:96-98 | The `reduce` that skips discarded offsets equals the sum of all points minus the points at the discarded indices |
| Discarding.NoDiscardsBelowFiveRaces | RegattaManager/SkipperScore.swift:81-98 | With fewer than five races nothing is discarded and the total is the plain sum |
| Discarding.TotalIgnoresTieBreak | RegattaManager/SkipperScore.swift:92-98 | Any two valid discard selections of the same size give the same total, so the tie-breaking of the sort does not matter |
| Discarding.OneBadRaceDiscarded | RegattaManager/SkipperScore.swift:81-93 | Six races with one bad result: one discard, and it is that race |
| Discarding.OneBadRaceTotal | RegattaManager/SkipperScore.swift:96-98 | The total of that series is the sum of the other five |
| Scoring.PositionMapSpec | RegattaManager/SkipperScore.swift:48-56 | The position map holds exactly the resolved ids whose status is finished, each at the last 1-based slot its id occupies; DNS/DNF boats still take slots |
| Scoring.RacePointsSpec | RegattaManager/SkipperScore.swift:59-73 | A skipper takes the penalty exactly when DNS, DNF or absent from the map, and then scores roster size + 1; otherwise they score their slot in the resolved order |
| Scoring.FinisherPoints | RegattaManager/SkipperScore.swift:51-56 | With distinct stored ids, the finished boat in slot j scores j + 1 |
| Scoring.UncompletedRacePenalized | RegattaManager/SkipperScore.swift:43-73 | In a race with an empty resolved order every skipper takes the penalty |
| Scoring.FinishersFitRoster | RegattaManager/SkipperScore.swift:51-56 | With distinct stored ids the resolved order is no longer than the roster |
| Scoring.PointsInRange | RegattaManager/SkipperScore.swift:59-75 | With distinct stored ids a race scores between 1 and roster size + 1, and the top value exactly for a penalty |
| Scoring.PenaltyFlagIff | RegattaManager/SkipperScore.swift:63-73 | With distinct stored ids, the DNS/DNF flag is set exactly when some race scored the penalty value |
| Scoring.TallyStep | RegattaManager/SkipperScore.swift:59-77 | One more race appends that race's points to the accumulator, sets the sail number and may set the flag |
| Scoring.UncompletedStep | RegattaManager/SkipperScore.swift:42-45 | One more race appends its index exactly when its resolved order is empty, keeping the list ascending |
| Scoring.ScoreFromTally | RegattaManager/SkipperScore.swift:85-107 | The score row is built from the accumulator the race loop leaves, whose points list has one entry per race |
| Scoring.ScoreRowSpec | RegattaManager/SkipperScore.swift:85-107 | A row carries the skipper's name and sail number, one entry per race in race order, and the flag set exactly when some race took a penalty branch |
| Scoring.ScoreTotalSpec | RegattaManager/SkipperScore.swift:91-98 | A row's discards are a valid choice of worst races, and its total is the sum minus the discarded points |
| Scoring.NoDiscardsInShortSeries | RegattaManager/SkipperScore.swift:81-98 | Fewer than five races: no discards and the total is the plain sum |
| Scoring.RankedScoresSpec | RegattaManager/SkipperScore.swift:22-25 | No rows when the fetch fails or there are no races; otherwise one row per roster skipper, a permutation of the table, non-decreasing in total (lines 85-89 and 110) |
| Scoring.EverySkipperRanked | RegattaManager/SkipperScore.swift:85-110 | Every roster skipper's own row is in the returned list |
| Scoring.MapPositions | RegattaManager/SkipperScore.swift:48-56 | The loop builds exactly the position map of the resolved order |
| Scoring.ScoreRace | RegattaManager/SkipperScore.swift:58-77 | After the inner roster loop, every skipper's accumulator is the one for the races so far including this one |
| Scoring.TallyRaces | RegattaManager/SkipperScore.swift:37-78 | After the race loop every skipper's accumulator holds their points race by race, their sail number and the penalty flag; the uncompleted list holds exactly the indices of races with an empty resolved order, ascending |
| Scoring.TotalScores | RegattaManager/SkipperScore.swift:84-108 | The final loop yields exactly the score table: one row per roster skipper, and none when there are no races |
| Scoring.ComputeScores | RegattaManager/SkipperScore.swift:20-111 | The scores are the score table sorted by total, and nothing when the fetch fails; the uncompleted list holds exactly the indices of the races with an empty resolved order, in ascending order |

## Left out

- SwiftUI views, accessibility strings and view state are not modelled. This includes the edit screen's list handling, apart from the Done action's call sequence in `ResaveKeepsStatus`.
- SwiftData persistence is not modelled: `ModelContext.fetch`, `#Predicate`, `save()` and the container setup. The context is a roster value plus one failure flag. That flag governs every fetch in a call, so the model does not cover a roster fetch that succeeds while a race's fetch fails.
- `fetchFinishingPositions` searches only the roster entries whose ids are stored. The model searches the whole roster. Both give the same first match.
- `Race.creationDate`, the `event` link, `RaceEvent` and the date sort of races are not modelled, because `Date` is a floating-point timestamp. `races` is taken as already in order.
- Test-data seeding (`shuffled()`, date formatting) and clearing all data are not modelled. They are randomness and setup.
- Models.Race.constructor: requires distinct ids, because the dictionary initialiser traps on a repeated id.
- Scoring.ComputeScores: requires distinct roster ids. Two roster skippers with one id would share one dictionary entry, and that case is not modelled.
- Discarding.SortBy: its contract states sortedness and permutation, not stability. Swift's `sorted(by:)` is stable, and so is the model's insertion sort, so the order is the source's: among races with equal points the earlier one is ranked first and discarded, and rows with equal totals stay in roster order. `TotalIgnoresTieBreak` shows the total does not depend on which tied race is discarded.
- Swift's `Int` overflow (a trap) is not modelled. Integers are unbounded.
- The `print` of a fetch error is not modelled. It is I/O.
