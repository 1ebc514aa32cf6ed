/**
 * The records the leaderboard reads and builds. Mongo documents become
 * datatypes holding the fields the leaderboard looks at; dates are whole
 * milliseconds since the Unix epoch.
 */
module Records {
  import opened Collections

  type Id = string
  type Transponder = string
  type Millis = int

  /** A beacon read at the timing line; one passing is one lap crossing. */
  datatype Passing = Passing(eventId: Id, transponder: Transponder, date: Millis, riderId: Option<Id>)

  /** The race record: `actualStart` and `lapCount` may be absent. */
  datatype Race = Race(eventId: Id, actualStart: Option<Millis>, lapCount: Option<nat>)

  /** A registration of a rider for the race. */
  datatype Entry = Entry(riderId: Id)

  /** A rider; `transponder` absent stands for undefined or null. */
  datatype Rider = Rider(id: Id, transponder: Option<Transponder>)

  type PosInt = k: int | k >= 1 witness 1

  /** The lap number `resultsForLap` is asked about; `Unbounded` is `Number.MAX_VALUE`. */
  datatype Threshold = Unbounded | UpTo(laps: PosInt)

  /**
   * One rider's row in a ranking: the fields of the passing it was taken
   * from, the `lapCount` it was tagged with, and `secondsDiff` once the gap
   * step has added it.
   */
  datatype Standing = Standing(
    eventId: Id, transponder: Transponder, date: Millis, riderId: Option<Id>,
    lapCount: nat, secondsDiff: Option<int>)

  /** A row of the returned leaderboard: a standing stamped with the requested race id. */
  datatype LeaderboardEntry = LeaderboardEntry(
    raceId: Id, eventId: Id, transponder: Transponder, date: Millis, riderId: Option<Id>,
    lapCount: nat, secondsDiff: Option<int>)

  function PassingDate(p: Passing): int { p.date }

  function StandingDate(s: Standing): int { s.date }

  function StandingLaps(s: Standing): int { s.lapCount }

  /** `moment(date).unix()`: the whole-second Unix timestamp, the milliseconds divided by 1000 and rounded down. */
  function Unix(ms: Millis): (s: int)
    ensures 1000 * s <= ms < 1000 * s + 1000
  {
    ms / 1000
  }

  lemma UnixMonotonic(a: Millis, b: Millis)
    requires a <= b
    ensures Unix(a) <= Unix(b)
  {
  }
}
