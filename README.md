# Race leaderboard engine

A Dafny model of the leaderboard engine of a race-timing backend
(`routes/leaderboard.js`). The engine takes the transponder passings stored
for an event and turns them into a ranked, lap-aware leaderboard for one race.
Each passing is one crossing of the timing line. The pipeline is:

1. **Transponder resolution.** The race's entries are resolved to riders and
   then to transponders.
2. **Passing query.** It keeps the event's passings from the race start onwards,
   from entered transponders only.
3. **Grouping.** The passings are sorted by date and grouped by transponder.
4. **`resultsForLap(n)`.** Each group gives one standing, capped at lap `n`.
   The standings are ranked by the lodash idiom
   `sortBy(date).reverse().sortBy(lapCount).reverse()`.
5. **Backfill.** Missing rider ids are filled in.
6. **Gaps.** Each row gets its gap in seconds to the leader of the lap it last
   completed.
7. **Assembly.** The engine adds the finish flag and the leader's finish time,
   and stamps the race id on each row.

The source is pure computation over lodash chains, so the model is pure too:
datatypes, functions and lemmas. The database reads become inputs:

- the race, or `None` when `findOne` finds none;
- the race's entries;
- the rider collection, in the order the store returns it;
- the stored passings.

Dates are whole milliseconds. `moment(d).unix()` is `d / 1000`, rounded down.

Modules, in file order:

- `Collections`: `Option`/`Result`.
  - lodash's stable `sortBy`, modelled as an insertion sort.
  - `reverse` and a plain sequence filter.
  - Stability, stated generically: a sort by key keeps the relation that the
    input pairs already had.
- `Records`: the stored records, a standing, and a leaderboard row.
- `Transponders`: `transpondersByRaceId`.
- `Grouping`: the passing query, `groupBy`, and the key order a JavaScript
  object enumerates its keys in.
- `Ranking`: `resultsForLap`.
- `Engine`: the backfill, the gaps and `leaderboardByRaceId`.
- `Leaderboard`: the properties of the whole board, stated over the stored
  records.
- `Scenario`: a worked two-rider race, taken through `leaderboardByRaceId`.

**Group iteration order.** `_.map` over the object built by `groupBy`
enumerates keys in JavaScript's own-property order:

- keys that are array indices come first, in ascending numeric order;
- the other keys follow, in the order they were first added.

`Grouping.JsKeyOrder` models this order. Every ranking property is proved for
any key order that lists each transponder once. The third sort key is
therefore "position in the key order". The first two keys are lap count
descending, then crossing date ascending.

**The reference gap.** `Engine.Gap` is the promise: the difference of the
whole-second Unix timestamps of a row's crossing of its last lap and of the
earliest crossing of that lap by anyone. `Engine.GapFor` follows the code: it re-ranks at the row's lap count
and reads the leader's passing at that lap. It is proved equal to `Gap`. So the
leader's passing is always in bounds, and the gap is never negative.

Behaviour of the code that the model follows exactly:

- Transponders are not de-duplicated. A transponder carried by two entered
  riders appears twice in the `$or` list, and that changes nothing downstream.
- `leaderFinishTime` is the leader's date whenever there is a leader, not
  only once the race is finished (`routes/leaderboard.js:113`).
- The leader's own `secondsDiff` is never absent past lap one. A leader with
  more than one lap gets `secondsDiff` 0
  (`Leaderboard.LeaderGapIsZero`). No gap is ever negative
  (`Leaderboard.BoardGaps`).
- The rows are returned under the key `passings`.
- No row keeps an absent `riderId` for want of a rider owning the
  transponder. The passing query admits
  only transponders of entered riders, so the backfill lookup always finds a
  rider (`Leaderboard.BoardRiderIdsPresent`). This relies on both reads seeing the
  same rider collection.
- `isFinished` is a JavaScript value (`undefined`, `0`, `false` or `true`).
  The model gives its truth value.

## Model

| member | source | states |
|---|---|---|
| Transponders.EnteredRiders | routes/leaderboard.js:21-23 | a rider is returned exactly when it is in the store and its id is one of the entries' rider ids |
| Transponders.CompactTransponders | routes/leaderboard.js:25-26 | `_.compact(_.map(riders, 'transponder'))` yields a transponder exactly when some rider carries it and it is not empty; it is never longer than the riders |
| Transponders.TranspondersByRace | routes/leaderboard.js:14-27 | no entries gives `[]`; otherwise a transponder is listed exactly when it is non-empty and carried by an entered rider |
| Grouping.RacePassings | routes/leaderboard.js:51-57 | the query returns each stored passing as often as it is stored if it is of the race's event, not before `actualStart` (or epoch 0) and from an entered transponder; it returns no other passings |
| Grouping.PassesOf | routes/leaderboard.js:62 | one transponder's passings: every one has that transponder and each of them occurs as often as in the input |
| Grouping.PassesOfSorted | routes/leaderboard.js:61-62 | taking one transponder's passings out of a date-sorted list leaves them date-sorted |
| Grouping.GroupBy | routes/leaderboard.js:62 | `groupBy` gives each transponder one non-empty group; each group holds exactly that transponder's passings, every passing lands in its own group, and a sorted input gives sorted groups |
| Grouping.Since | routes/leaderboard.js:54 | the query's lower date bound is `actualStart` when the race has one, else epoch 0 |
| Grouping.Admits | routes/leaderboard.js:51-56 | a passing is admitted exactly when it is of the race's event, from an entered transponder, and not before `actualStart` (epoch 0 when there is none) |
| Grouping.FirstSeen | routes/leaderboard.js:62 | the transponders, each once, exactly those that occur, and ordered so that of any two, the earlier one passed before any passing of the later one |
| Grouping.JsKeyOrder | routes/leaderboard.js:62-67 | the object's key order lists every transponder once, with array-index keys first in ascending numeric order |
| Grouping.JsKeyOrderNamed | routes/leaderboard.js:62-67 | in the object's key order, of two keys that are not array indices, the earlier one's transponder passed before any passing of the later one |
| Grouping.Grouped | routes/leaderboard.js:60-63 | `passingsByTransponder` has a key exactly for each transponder in the passings, in the JavaScript key order of the date-sorted passings; each group is that transponder's complete history, date-sorted, with as many entries as it has passings |
| Collections.SortBy | routes/leaderboard.js:61 | lodash `sortBy` only reorders: the output is a permutation of the input |
| Collections.SortBySorted | routes/leaderboard.js:61 | the output of `sortBy` is ascending by the key |
| Collections.SortByStable | routes/leaderboard.js:77-80 | `sortBy` is stable: ties keep any order relation the input pairs already had |
| Collections.Reverse | routes/leaderboard.js:78-80 | lodash `reverse` keeps the length and puts element k at position `length - 1 - k` |
| Collections.ReverseSortedThen | routes/leaderboard.js:78-80 | reversing an ascending, tie-ordered list gives a descending list with the tie order reversed |
| Ranking.AtLap | routes/leaderboard.js:68-76 | a group's standing is its passing at index `min(passCount, n) - 1` with `1 <= lapCount <= passCount`, `lapCount <= n`, `lapCount = passCount` when unbounded or short of n, and `lapCount = n` otherwise |
| Ranking.PerGroup | routes/leaderboard.js:67-76 | one standing per key, in key order, each its group's standing at threshold n |
| Ranking.Tagged | routes/leaderboard.js:72-75 | `{...passes[passIndex], lapCount}` keeps every field of the passing, sets `lapCount`, and carries no `secondsDiff` |
| Ranking.RankOrder | routes/leaderboard.js:77-80 | the `sortBy`/`reverse` chain only reorders: same length, same elements with the same multiplicities |
| Ranking.RankOrderRanks | routes/leaderboard.js:77-81 | the sort chain ranks by lap count descending, then date ascending, then key order, and is a permutation of its input |
| Ranking.ResultsForLap | routes/leaderboard.js:66-81 | `resultsForLap(n)` has one row per group, and its rows are the per-group standings with the same multiplicities |
| Ranking.ResultsForLapSpec | routes/leaderboard.js:66-81 | `resultsForLap(n)` is a ranked permutation of the per-group standings: one row per group, no transponder twice, each row its own group's standing, and the first row has the most laps |
| Ranking.IndexOfDistinct | routes/leaderboard.js:67 | a key's position is its index in the key order |
| Engine.OwnerOf | routes/leaderboard.js:88-93 | `Rider.findOne({transponder})` finds nothing exactly when no rider carries the transponder; what it finds is the id of a rider carrying it |
| Engine.BackfillOne | routes/leaderboard.js:86-93 | a row with a rider id is returned as is; one without gets the lookup's result as `riderId`, and no other field changes |
| Engine.Backfill | routes/leaderboard.js:85-95 | the rows keep their length and order; only `riderId` changes, and only when it was absent, to the lookup's result |
| Engine.EarliestNone | routes/leaderboard.js:96-103 | the earliest k-th crossing is absent exactly when no transponder did k laps |
| Engine.EarliestWitness | routes/leaderboard.js:96-103 | when present, the earliest k-th crossing is some transponder's own k-th crossing |
| Engine.EarliestBelow | routes/leaderboard.js:96-103 | any transponder that did k laps makes the earliest k-th crossing present and no later than its own k-th crossing |
| Engine.Gap | routes/leaderboard.js:96-108 | the reference gap is absent exactly when the row has at most one lap, and is otherwise non-negative |
| Engine.RankedTopCrossing | routes/leaderboard.js:98-101 | the first row of a ranking has crossed its own lap count earliest of all |
| Engine.RankedTopFinished | routes/leaderboard.js:98-101 | at threshold k, the first row shows k laps exactly when some transponder did k laps |
| Engine.LapLeaderCrossing | routes/leaderboard.js:98-101 | the lap-k leader has at least k passings, so `passingsByTransponder[leaderTransponder][k - 1]` is in bounds, and that passing is the earliest k-th crossing |
| Engine.GapIsToLapLeader | routes/leaderboard.js:98-103 | measuring a row against the lap leader's passing gives the reference gap |
| Engine.GapFor | routes/leaderboard.js:96-108 | a row with at most one lap is unchanged; any other row changes only by gaining `secondsDiff`, equal to the reference gap |
| Engine.WithGaps | routes/leaderboard.js:96-108 | the rows keep their length and order; only `secondsDiff` is added, to rows past their first lap, equal to the reference gap |
| Engine.FinalThreshold | routes/leaderboard.js:83 | an absent or zero `race.lapCount` falls back to `Number.MAX_VALUE`: a cap exactly when the lap count is set and non-zero, and then the cap is that count |
| Records.Unix | routes/leaderboard.js:103 | `moment(d).unix()` is the whole-second timestamp s with `1000 * s <= d < 1000 * s + 1000`, rounded down also for dates before epoch |
| Engine.WindowContents | routes/leaderboard.js:45-57 | the passings the engine works from are the stored passings the query admits for the race's entered transponders, each as often as it is stored, and no others |
| Engine.RaceGroupsContents | routes/leaderboard.js:60-63 | `passingsByTransponder` has a key exactly for each transponder in the window, in the JavaScript key order of the date-sorted window; each group is that transponder's window passings, date-sorted |
| Engine.Results | routes/leaderboard.js:83 | each final standing names a transponder that has a group, shows between 1 and that group's passing count laps, and carries the date of that group's crossing of its last counted lap |
| Engine.Standings | routes/leaderboard.js:85-108 | `finalResults` keeps each result's place and order, fills the rider id as the lookup says, and adds the reference gap exactly to rows past lap one |
| Engine.Finished | routes/leaderboard.js:111-112 | `isFinished` holds exactly when the race has a non-zero lap count, there is a leader, and the leader shows at least that many laps |
| Engine.LeaderFinishTime | routes/leaderboard.js:113 | a finish time is given exactly when there is a leader, and it is the leader's date |
| Engine.Stamp | routes/leaderboard.js:114-116 | a leaderboard row is its standing with `raceId` added and every other field unchanged |
| Engine.StampAll | routes/leaderboard.js:114-117 | each row is the standing with `raceId` stamped on it, in the same order |
| Engine.GetLeaderboard | routes/leaderboard.js:44-119 | fails exactly when the race is not found; otherwise the rows are the stamped final standings, with `isFinished` and `leaderFinishTime` computed from them |
| Leaderboard.ResultsRanked | routes/leaderboard.js:83 | the final ranking holds each group once, is ranked, and carries no `secondsDiff` yet |
| Engine.FinishRows | routes/leaderboard.js:85-108 | on any rows consistent with their groups, backfill then gaps keep each row's place and order, fill the rider id as the lookup says, and add the reference gap exactly to rows past lap one |
| Leaderboard.StagesHold | routes/leaderboard.js:51-108 | the window, its grouping, the final ranking and the final rows fit together: one group per transponder in the window holding all its passings, a ranking of every group's standing with no transponder twice, and rows that finish it |
| Leaderboard.BoardRanked | routes/leaderboard.js:77-83 | the board is ranked by lap count descending, then crossing date ascending, then key order |
| Leaderboard.WindowAdmitted | routes/leaderboard.js:51-57 | every passing considered is stored, of the race's event, not before its start, and of an entered transponder |
| Leaderboard.BoardRows | routes/leaderboard.js:60-83 | the board has one row for each transponder with a passing in the race window, and no other rows |
| Leaderboard.BoardLapCounts | routes/leaderboard.js:66-83 | each row shows its transponder's passings in the window, capped at the race's lap count, and the date of the passing that completed its last counted lap |
| Leaderboard.BoardGaps | routes/leaderboard.js:96-108 | a row has `secondsDiff` exactly when it is past lap one, and then the value is the reference gap and is `>= 0` |
| Leaderboard.BoardRiderIds | routes/leaderboard.js:85-95 | a row keeps its passing's rider id; failing that, it gets the id of a rider carrying its transponder, or stays without one only when no rider carries it |
| Leaderboard.BoardRiderIdsPresent | routes/leaderboard.js:85-95 | every row ends up with a rider id, because only entered transponders are in the window |
| Leaderboard.LeaderGapIsZero | routes/leaderboard.js:96-108 | the leader, once past lap one, has `secondsDiff` 0 |
| Leaderboard.BoardNonEmpty | routes/leaderboard.js:109-113 | the board has rows exactly when the race window has a passing |
| Leaderboard.FinishedIff | routes/leaderboard.js:109-112 | `isFinished` holds exactly when the race has a non-zero lap count k and some transponder crossed at least k times in the window |
| Leaderboard.FinishTime | routes/leaderboard.js:109-113 | `leaderFinishTime` is the leader's date exactly when there is a leader; once finished, the leader shows exactly k laps and the finish time is the earliest k-th crossing |
| Leaderboard.EmptyWithoutEntries | routes/leaderboard.js:14-27 | a race with no entries gives an empty, unfinished board without a finish time |
| Scenario.TwoRiderBoard | routes/leaderboard.js:44-119 | with A crossing at 0 s and 60 s and B at 5 s and 70 s in a race without a lap count, the board is A then B, both at lap 2, A with `secondsDiff` 0 and B with 10, unfinished, with A's 60 s as the finish time |

## Left out

- The HTTP route, `asyncExpress` and `res.json` (`routes/leaderboard.js:10-12` and `32-34`) are transport, not engine logic.
- The Mongo queries become inputs:
  - `Race.findOne` is `Option<Race>`.
  - `Entry.find` is the entry sequence.
  - `Rider.find` and `Rider.findOne` are read over one rider sequence.
  - `Passing.find` is the passing sequence, shown by `Grouping.RacePassings`.
- `ObjectId` conversion and `.lean().exec()` are not modelled.
- MongoDB's handling of an empty `$or` list is not modelled. The model treats an empty list as matching nothing.
- `Engine.OwnerOf`: `findOne` returns whichever matching rider the store yields. The model takes the first in store order. The contracts only state that some rider carrying the transponder is found.
- The `rider = {}` default does not cover a `null` result from `findOne`. The model does not reproduce that throw. `Leaderboard.BoardRiderIdsPresent` shows the lookup always finds a rider when both reads see the same rider collection.
- The `Promise.all` concurrency is modelled as a sequential map over the same snapshot, with no interleaving with writes.
- `moment` date parsing and `Date` objects. Dates are integer milliseconds.
- `Number.MAX_VALUE` becomes the `Unbounded` threshold. Lap counts are naturals, so a negative or fractional `race.lapCount` cannot be expressed.
- A race that is not found makes the code throw on `race.eventId`. The model returns `Failure(RaceNotFound)` instead.
- Fields the engine only copies, such as a passing's `_id` and other stored attributes, are left out of the records.
- `Engine.LeaderFinishTime`: a stored date is a `Date` object, truthy even at epoch 0, so the finish time is the leader's date whenever there is a leader.
