/**
 * `leaderboardByRaceId`: the final ranking, the rider-id backfill, the gap
 * of each rider to the leader of the lap it last completed, and the finish
 * flag. The database reads are inputs: the race (absent when `findOne`
 * finds none), its entries, the rider collection and the stored passings.
 */
module Engine {
  import opened Collections
  import opened Records
  import opened Transponders
  import opened Grouping
  import opened Ranking

  // ---------------------------------------------------------------------------
  // Backfill of rider ids
  // ---------------------------------------------------------------------------

  /** `Rider.findOne({transponder})`: a rider carrying t, if there is one. */
  function OwnerOf(riders: seq<Rider>, t: Transponder): (r: Option<Id>)
    ensures r.None? <==> forall i :: 0 <= i < |riders| ==> riders[i].transponder != Some(t)
    ensures r.Some? ==> exists i :: 0 <= i < |riders| && riders[i].transponder == Some(t) && riders[i].id == r.value
  {
    if riders == [] then None
    else if riders[0].transponder == Some(t) then Some(riders[0].id)
    else
      var r := OwnerOf(riders[1..], t);
      assert forall i :: 1 <= i < |riders| ==> riders[i] == riders[1..][i - 1];
      r
  }

  /** A standing without a rider id gets the id of its transponder's rider, or stays without one. */
  function BackfillOne(riders: seq<Rider>, s: Standing): (r: Standing)
    ensures r == s.(riderId := r.riderId)
    ensures s.riderId.Some? ==> r == s
    ensures s.riderId.None? ==> r.riderId == OwnerOf(riders, s.transponder)
  {
    if s.riderId.Some? then s else s.(riderId := OwnerOf(riders, s.transponder))
  }

  /** `results.map(...)` of the backfill: same rows in the same order, only missing rider ids filled in. */
  function Backfill(riders: seq<Rider>, results: seq<Standing>): (r: seq<Standing>)
    ensures |r| == |results|
    ensures forall i :: 0 <= i < |r| ==> r[i] == results[i].(riderId := r[i].riderId)
    ensures forall i :: 0 <= i < |r| && results[i].riderId.Some? ==> r[i].riderId == results[i].riderId
    ensures forall i :: 0 <= i < |r| && results[i].riderId.None? ==>
      r[i].riderId == OwnerOf(riders, results[i].transponder)
  {
    seq(|results|, i requires 0 <= i < |results| => BackfillOne(riders, results[i]))
  }

  // ---------------------------------------------------------------------------
  // Gaps to the leader
  // ---------------------------------------------------------------------------

  /**
   * The earliest date at which any transponder in ks crossed the line for
   * the k-th time; none when no transponder in ks completed k laps.
   */
  function EarliestCrossing(g: Grouping, ks: seq<Transponder>, k: PosInt): Option<Millis>
    requires forall t :: t in ks ==> t in g.groups
  {
    if ks == [] then None
    else
      var rest := EarliestCrossing(g, ks[1..], k);
      var group := g.groups[ks[0]];
      if |group| < k then rest
      else if rest.None? || group[k - 1].date <= rest.value then Some(group[k - 1].date)
      else rest
  }

  /** There is no earliest k-th crossing exactly when no transponder in ks did k laps. */
  lemma {:induction false} EarliestNone(g: Grouping, ks: seq<Transponder>, k: PosInt)
    requires forall t :: t in ks ==> t in g.groups
    ensures EarliestCrossing(g, ks, k).None? <==> forall t :: t in ks ==> |g.groups[t]| < k
  {
    if ks != [] {
      assert forall t :: t in ks <==> t == ks[0] || t in ks[1..];
      EarliestNone(g, ks[1..], k);
    }
  }

  /** The earliest k-th crossing is some transponder's k-th crossing. */
  lemma {:induction false} EarliestWitness(g: Grouping, ks: seq<Transponder>, k: PosInt)
    requires forall t :: t in ks ==> t in g.groups
    requires EarliestCrossing(g, ks, k).Some?
    ensures exists t :: t in ks && |g.groups[t]| >= k && g.groups[t][k - 1].date == EarliestCrossing(g, ks, k).value
  {
    var rest := EarliestCrossing(g, ks[1..], k);
    var group := g.groups[ks[0]];
    if |group| < k || (rest.Some? && group[k - 1].date > rest.value) {
      EarliestWitness(g, ks[1..], k);
      var t :| t in ks[1..] && |g.groups[t]| >= k && g.groups[t][k - 1].date == rest.value;
      assert t in ks;
    } else {
      assert ks[0] in ks;
    }
  }

  /** The earliest k-th crossing is no later than that of any transponder in ks that did k laps. */
  lemma {:induction false} EarliestBelow(g: Grouping, ks: seq<Transponder>, k: PosInt, t: Transponder)
    requires forall u :: u in ks ==> u in g.groups
    requires t in ks && |g.groups[t]| >= k
    ensures EarliestCrossing(g, ks, k).Some?
    ensures EarliestCrossing(g, ks, k).value <= g.groups[t][k - 1].date
  {
    if ks[0] != t {
      assert t in ks[1..];
      EarliestBelow(g, ks[1..], k, t);
    }
  }

  /** s is the standing of its group at lap `s.lapCount`: its date is that crossing's. */
  ghost predicate Consistent(g: Grouping, s: Standing) {
    && s.transponder in g.groups
    && 1 <= s.lapCount <= |g.groups[s.transponder]|
    && s.date == g.groups[s.transponder][s.lapCount - 1].date
  }

  lemma AtLapConsistent(g: Grouping, t: Transponder, n: Threshold)
    requires WellFormed(g) && t in g.groups
    ensures Consistent(g, AtLap(g.groups[t], n))
  {
    var e := AtLap(g.groups[t], n);
    assert e.transponder == g.groups[t][e.lapCount - 1].transponder;
  }

  /**
   * The gap the leaderboard promises: with more than one lap done, the
   * difference of the whole-second Unix timestamps of this rider's crossing
   * of its last lap and of the earliest crossing of that lap by anyone. It
   * is never negative.
   */
  function Gap(g: Grouping, s: Standing): (r: Option<int>)
    requires WellFormed(g) && Consistent(g, s)
    ensures r.None? <==> s.lapCount <= 1
    ensures r.Some? ==> r.value >= 0
  {
    if s.lapCount <= 1 then None
    else
      var d := EarliestCrossing(g, g.keys, s.lapCount);
      assert s.transponder in g.keys;
      EarliestBelow(g, g.keys, s.lapCount, s.transponder);
      UnixMonotonic(d.value, s.date);
      Some(Unix(s.date) - Unix(d.value))
  }

  // ---------------------------------------------------------------------------
  // The head of a ranking of the standings of every group
  // ---------------------------------------------------------------------------

  /**
   * What the head of a ranking is: no one has more laps, and no one with as
   * many laps crossed earlier.
   */
  ghost predicate HeadsRanking(lap: seq<Standing>) {
    && (forall i :: 0 <= i < |lap| ==> lap[0].lapCount >= lap[i].lapCount)
    && (forall i :: 0 <= i < |lap| && lap[i].lapCount == lap[0].lapCount ==> lap[0].date <= lap[i].date)
  }

  lemma RankedHeads(keys: seq<Transponder>, lap: seq<Standing>)
    requires Ranked(keys, lap)
    ensures HeadsRanking(lap)
  {
    RankedLeader(keys, lap);
    forall i | 0 <= i < |lap| && lap[i].lapCount == lap[0].lapCount ensures lap[0].date <= lap[i].date {
      RankedByDate(keys, lap, i);
    }
  }

  /** A ranking holding the standing of every group at threshold n and nothing else. */
  ghost predicate RanksAll(g: Grouping, n: Threshold, lap: seq<Standing>) {
    && WellFormed(g)
    && HeadsRanking(lap)
    && (forall i :: 0 <= i < |lap| ==>
          lap[i].transponder in g.groups && lap[i] == AtLap(g.groups[lap[i].transponder], n))
    && (forall u :: u in g.groups ==> exists i :: 0 <= i < |lap| && lap[i].transponder == u)
  }

  lemma ResultsForLapRanksAll(g: Grouping, n: Threshold)
    requires WellFormed(g)
    ensures RanksAll(g, n, ResultsForLap(g, n))
  {
    ResultsForLapSpec(g, n);
    RankedHeads(g.keys, ResultsForLap(g, n));
  }

  /** A group that did at least L laps stands at threshold n with at least L, when n allows L. */
  lemma AtLapReaches(group: seq<Passing>, n: Threshold, laps: nat)
    requires 1 <= laps <= |group|
    requires n.UpTo? ==> laps <= n.laps
    ensures AtLap(group, n).lapCount >= laps
  {
  }

  lemma AtLapDate(group: seq<Passing>, n: Threshold)
    requires |group| > 0
    ensures AtLap(group, n).date == group[AtLap(group, n).lapCount - 1].date
  {
  }

  /** The head of the ranking is no later than any group's crossing of the head's lap. */
  lemma HeadNoLater(g: Grouping, n: Threshold, lap: seq<Standing>, u: Transponder)
    requires RanksAll(g, n, lap) && |lap| > 0
    requires u in g.groups && 1 <= lap[0].lapCount <= |g.groups[u]|
    ensures lap[0].date <= g.groups[u][lap[0].lapCount - 1].date
  {
    var m :| 0 <= m < |lap| && lap[m].transponder == u;
    assert lap[m] == AtLap(g.groups[u], n);
    assert n.UpTo? ==> lap[0].lapCount <= n.laps by {
      assert lap[0] == AtLap(g.groups[lap[0].transponder], n);
    }
    AtLapReaches(g.groups[u], n, lap[0].lapCount);
    AtLapDate(g.groups[u], n);
  }

  /** The earliest crossing of a consistent standing's lap exists and is no later than it. */
  lemma EarliestOfConsistent(g: Grouping, s: Standing)
    requires WellFormed(g) && Consistent(g, s)
    ensures EarliestCrossing(g, g.keys, s.lapCount).Some?
    ensures EarliestCrossing(g, g.keys, s.lapCount).value <= s.date
  {
    assert s.transponder in g.keys;
    EarliestBelow(g, g.keys, s.lapCount, s.transponder);
  }

  /**
   * The first of such a ranking crossed the line for its lap count's time
   * before anyone else did: its date is the earliest crossing of that lap.
   */
  lemma RankedTopCrossing(g: Grouping, n: Threshold, lap: seq<Standing>)
    requires RanksAll(g, n, lap) && |lap| > 0
    ensures Consistent(g, lap[0])
    ensures EarliestCrossing(g, g.keys, lap[0].lapCount).Some?
    ensures EarliestCrossing(g, g.keys, lap[0].lapCount).value == lap[0].date
  {
    assert lap[0] == AtLap(g.groups[lap[0].transponder], n);
    AtLapConsistent(g, lap[0].transponder, n);
    EarliestOfConsistent(g, lap[0]);
    var d := EarliestCrossing(g, g.keys, lap[0].lapCount);
    EarliestWitness(g, g.keys, lap[0].lapCount);
    var u :| u in g.keys && |g.groups[u]| >= lap[0].lapCount && g.groups[u][lap[0].lapCount - 1].date == d.value;
    HeadNoLater(g, n, lap, u);
  }

  /** At threshold k, the first of the ranking did k laps exactly when some group did. */
  lemma {:induction false} RankedTopFinished(g: Grouping, k: PosInt, lap: seq<Standing>)
    requires RanksAll(g, UpTo(k), lap)
    ensures (|lap| > 0 && lap[0].lapCount == k) <==> exists u :: u in g.groups && |g.groups[u]| >= k
  {
    if u :| u in g.groups && |g.groups[u]| >= k {
      var mine := AtLap(g.groups[u], UpTo(k));
      AtLapReaches(g.groups[u], UpTo(k), k);
      var j :| 0 <= j < |lap| && lap[j].transponder == u;
      assert lap[j] == mine;
      assert lap[0] == AtLap(g.groups[lap[0].transponder], UpTo(k));
    }
    if |lap| > 0 && lap[0].lapCount == k {
      var lg := g.groups[lap[0].transponder];
      assert lap[0] == AtLap(lg, UpTo(k));
      assert lap[0].transponder in g.groups && |lg| >= k;
    }
  }
  /**
   * The lap-k leader has done at least k laps, so its k-th crossing exists,
   * and that crossing is the earliest k-th crossing of all.
   */
  lemma LapLeaderCrossing(g: Grouping, k: PosInt, t: Transponder)
    requires WellFormed(g) && t in g.groups && |g.groups[t]| >= k
    ensures var lap := ResultsForLap(g, UpTo(k));
      && |lap| > 0
      && lap[0].transponder in g.groups
      && |g.groups[lap[0].transponder]| >= k
      && EarliestCrossing(g, g.keys, k).Some?
      && EarliestCrossing(g, g.keys, k).value == g.groups[lap[0].transponder][k - 1].date
  {
    ResultsForLapRanksAll(g, UpTo(k));
    RankedLapLeader(g, k, t, ResultsForLap(g, UpTo(k)));
  }

  /** The same, for any ranking of the lap-k standings of every group. */
  lemma RankedLapLeader(g: Grouping, k: PosInt, t: Transponder, lap: seq<Standing>)
    requires RanksAll(g, UpTo(k), lap) && t in g.groups && |g.groups[t]| >= k
    ensures |lap| > 0 && lap[0].transponder in g.groups && |g.groups[lap[0].transponder]| >= k
    ensures EarliestCrossing(g, g.keys, k).Some?
    ensures EarliestCrossing(g, g.keys, k).value == g.groups[lap[0].transponder][k - 1].date
  {
    RankedTopFinished(g, k, lap);
    assert |lap| > 0 && lap[0].lapCount == k;
    RankedTopCrossing(g, UpTo(k), lap);
  }

  /** In a ranking, the first crossed no later than anyone with as many laps. */
  lemma RankedByDate(keys: seq<Transponder>, lap: seq<Standing>, m: nat)
    requires Ranked(keys, lap) && m < |lap| && lap[0].lapCount == lap[m].lapCount
    ensures lap[0].date <= lap[m].date
  {
    if m > 0 {
      assert Outranks(keys, lap[0], lap[m]);
    }
  }

  /** Measuring against the lap leader's own crossing gives the promised gap. */
  lemma GapIsToLapLeader(g: Grouping, s: Standing)
    requires WellFormed(g) && Consistent(g, s) && s.lapCount > 1
    ensures |ResultsForLap(g, UpTo(s.lapCount))| > 0
    ensures ResultsForLap(g, UpTo(s.lapCount))[0].transponder in g.groups
    ensures |g.groups[ResultsForLap(g, UpTo(s.lapCount))[0].transponder]| >= s.lapCount
    ensures Gap(g, s).Some?
    ensures Gap(g, s).value == Unix(s.date) - Unix(g.groups[ResultsForLap(g, UpTo(s.lapCount))[0].transponder][s.lapCount - 1].date)
  {
    LapLeaderCrossing(g, s.lapCount, s.transponder);
    var first := g.groups[ResultsForLap(g, UpTo(s.lapCount))[0].transponder][s.lapCount - 1].date;
    GapFromCrossing(g, s, first);
  }

  /** With the earliest k-th crossing known, the gap is measured from it. */
  lemma GapFromCrossing(g: Grouping, s: Standing, first: Millis)
    requires WellFormed(g) && Consistent(g, s) && s.lapCount > 1
    requires EarliestCrossing(g, g.keys, s.lapCount).Some?
    requires EarliestCrossing(g, g.keys, s.lapCount).value == first
    ensures Gap(g, s).Some? && Gap(g, s).value == Unix(s.date) - Unix(first)
  {
  }

  /** The gap step of one row: rows past their first lap get `secondsDiff`, the others stay as they are. */
  function GapFor(g: Grouping, s: Standing): (r: Standing)
    requires WellFormed(g) && Consistent(g, s)
    ensures s.lapCount <= 1 ==> r == s
    ensures s.lapCount > 1 ==> r == s.(secondsDiff := r.secondsDiff) && r.secondsDiff.Some?
    ensures s.lapCount > 1 ==> r.secondsDiff.value == Gap(g, s).value
  {
    if s.lapCount <= 1 then s
    else
      var lapLeaderboard := ResultsForLap(g, UpTo(s.lapCount));
      GapIsToLapLeader(g, s);
      var leaderTransponder := lapLeaderboard[0].transponder;
      var leaderPass := g.groups[leaderTransponder][s.lapCount - 1];
      s.(secondsDiff := Some(Unix(s.date) - Unix(leaderPass.date)))
  }

  /** `_.map(resultPasses, ...)` of the gap step: same rows in the same order, only `secondsDiff` added. */
  function WithGaps(g: Grouping, results: seq<Standing>): (r: seq<Standing>)
    requires WellFormed(g)
    requires forall i :: 0 <= i < |results| ==> Consistent(g, results[i])
    ensures |r| == |results|
    ensures forall i :: 0 <= i < |r| ==> r[i] == results[i].(secondsDiff := r[i].secondsDiff)
    ensures forall i :: 0 <= i < |r| && results[i].lapCount <= 1 ==> r[i].secondsDiff == results[i].secondsDiff
    ensures forall i :: 0 <= i < |r| && results[i].lapCount > 1 ==>
      r[i].secondsDiff.Some? && r[i].secondsDiff.value == Gap(g, results[i]).value
  {
    seq(|results|, i requires 0 <= i < |results| => GapFor(g, results[i]))
  }

  // ---------------------------------------------------------------------------
  // Assembly
  // ---------------------------------------------------------------------------

  /** `race.lapCount || Number.MAX_VALUE`: an absent or zero lap count ranks without a cap. */
  function FinalThreshold(race: Race): (n: Threshold)
    ensures n.UpTo? <==> race.lapCount.Some? && race.lapCount.value > 0
    ensures n.UpTo? ==> n.laps == race.lapCount.value
  {
    match race.lapCount
    case Some(k) => if k > 0 then UpTo(k) else Unbounded
    case None => Unbounded
  }

  /** The passings the leaderboard is computed from. */
  function Window(race: Race, entries: seq<Entry>, riders: seq<Rider>, passings: seq<Passing>): (w: seq<Passing>)
  {
    RacePassings(race, TranspondersByRace(entries, riders), passings)
  }

  /** `passingsByTransponder`. */
  function RaceGroups(race: Race, entries: seq<Entry>, riders: seq<Rider>, passings: seq<Passing>): (g: Grouping)
    ensures WellFormed(g)
  {
    Grouped(Window(race, entries, riders, passings))
  }

  /** The window holds each stored passing the query admits, as often as it is stored, and nothing else. */
  lemma WindowContents(race: Race, entries: seq<Entry>, riders: seq<Rider>, passings: seq<Passing>)
    ensures var w := Window(race, entries, riders, passings);
      var entered := TranspondersByRace(entries, riders);
      forall p :: multiset(w)[p] == if Admits(race, entered, p) then multiset(passings)[p] else 0
  {
  }

  /**
   * `passingsByTransponder` has a key for each transponder in the window, in
   * the JavaScript key order of the date-sorted window; each group is that
   * transponder's window passings, in date order.
   */
  lemma RaceGroupsContents(race: Race, entries: seq<Entry>, riders: seq<Rider>, passings: seq<Passing>)
    ensures var w := Window(race, entries, riders, passings);
      var g := RaceGroups(race, entries, riders, passings);
      && WellFormed(g)
      && g.keys == JsKeyOrder(SortBy(w, PassingDate))
      && (forall t :: t in g.groups <==> Carries(w, t))
      && (forall t :: t in g.groups ==> SortedBy(g.groups[t], PassingDate) && |g.groups[t]| == |PassesOf(w, t)|)
      && (forall t, p :: t in g.groups ==>
            multiset(g.groups[t])[p] == if p.transponder == t then multiset(w)[p] else 0)
  {
  }

  /** `results`, before backfill and gaps. */
  function Results(race: Race, entries: seq<Entry>, riders: seq<Rider>, passings: seq<Passing>): (r: seq<Standing>)
    ensures forall i :: 0 <= i < |r| ==> Consistent(RaceGroups(race, entries, riders, passings), r[i])
  {
    var g := RaceGroups(race, entries, riders, passings);
    var r := ResultsForLap(g, FinalThreshold(race));
    assert forall i :: 0 <= i < |r| ==> Consistent(g, r[i]) by {
      forall i | 0 <= i < |r| ensures Consistent(g, r[i]) {
        ResultsForLapSpec(g, FinalThreshold(race));
        AtLapConsistent(g, r[i].transponder, FinalThreshold(race));
      }
    }
    r
  }

  /** Filling in rider ids keeps every row consistent with its group. */
  lemma BackfillConsistent(g: Grouping, riders: seq<Rider>, results: seq<Standing>)
    requires forall i :: 0 <= i < |results| ==> Consistent(g, results[i])
    ensures forall i :: 0 <= i < |results| ==> Consistent(g, Backfill(riders, results)[i])
  {
    var r := Backfill(riders, results);
    forall i | 0 <= i < |results| ensures Consistent(g, r[i]) {
      assert r[i] == results[i].(riderId := r[i].riderId);
    }
  }

  /** Two rows in the same place: same transponder, event, crossing and lap count. */
  predicate SamePlace(x: Standing, y: Standing) {
    x.transponder == y.transponder && x.eventId == y.eventId && x.date == y.date && x.lapCount == y.lapCount
  }

  /** The gap depends only on a row's place. */
  lemma GapSamePlace(g: Grouping, x: Standing, y: Standing)
    requires WellFormed(g) && Consistent(g, x) && Consistent(g, y) && SamePlace(x, y)
    ensures Gap(g, x).Some? == Gap(g, y).Some?
    ensures Gap(g, x).Some? ==> Gap(g, x).value == Gap(g, y).value
  {
  }

  lemma ConsistentSamePlace(g: Grouping, x: Standing, y: Standing)
    requires Consistent(g, x) && SamePlace(x, y)
    ensures Consistent(g, y)
  {
  }

  /**
   * Rows b finish results res: same order and places, each still consistent
   * with its group, the rider id filled in from the rider list when the
   * passing had none, and a gap past the first lap.
   */
  ghost predicate Finishes(g: Grouping, riders: seq<Rider>, res: seq<Standing>, b: seq<Standing>) {
    && WellFormed(g)
    && |b| == |res|
    && (forall i :: 0 <= i < |b| ==> SamePlace(res[i], b[i]) && Consistent(g, b[i]))
    && (forall i :: 0 <= i < |b| ==>
          b[i].riderId == if res[i].riderId.Some? then res[i].riderId else OwnerOf(riders, res[i].transponder))
    && (forall i :: 0 <= i < |b| && b[i].lapCount <= 1 ==> b[i].secondsDiff == res[i].secondsDiff)
    && (forall i :: 0 <= i < |b| && b[i].lapCount > 1 ==>
          b[i].secondsDiff.Some? && b[i].secondsDiff.value == Gap(g, b[i]).value)
  }

  /** Backfill then gaps, on any consistent rows. */
  lemma FinishRows(g: Grouping, riders: seq<Rider>, res: seq<Standing>)
    requires WellFormed(g)
    requires forall i :: 0 <= i < |res| ==> Consistent(g, res[i])
    ensures forall i :: 0 <= i < |res| ==> Consistent(g, Backfill(riders, res)[i])
    ensures Finishes(g, riders, res, WithGaps(g, Backfill(riders, res)))
  {
    var bf := Backfill(riders, res);
    BackfillConsistent(g, riders, res);
    var b := WithGaps(g, bf);
    forall i | 0 <= i < |b| ensures SamePlace(res[i], b[i]) && Consistent(g, b[i]) {
      assert b[i] == bf[i].(secondsDiff := b[i].secondsDiff);
      assert bf[i] == res[i].(riderId := bf[i].riderId);
      ConsistentSamePlace(g, res[i], b[i]);
    }
    forall i | 0 <= i < |b| && b[i].lapCount > 1
      ensures b[i].secondsDiff.Some? && b[i].secondsDiff.value == Gap(g, b[i]).value
    {
      GapSamePlace(g, bf[i], b[i]);
    }
  }

  /** `finalResults`: the results after backfill and gaps, each finished as above. */
  function Standings(race: Race, entries: seq<Entry>, riders: seq<Rider>, passings: seq<Passing>): (r: seq<Standing>)
    ensures Finishes(RaceGroups(race, entries, riders, passings), riders, Results(race, entries, riders, passings), r)
  {
    var g := RaceGroups(race, entries, riders, passings);
    var results := Results(race, entries, riders, passings);
    var resultPasses := Backfill(riders, results);
    FinishRows(g, riders, results);
    WithGaps(g, resultPasses)
  }

  /** `race.lapCount && leaderPass && race.lapCount <= leaderPass.lapCount`, as a truth value. */
  function Finished(race: Race, board: seq<Standing>): (r: bool)
    ensures r <==> FinalThreshold(race).UpTo? && |board| > 0 && board[0].lapCount >= FinalThreshold(race).laps
  {
    race.lapCount.Some? && race.lapCount.value > 0 && |board| > 0 && race.lapCount.value <= board[0].lapCount
  }

  /** `(leaderPass && leaderPass.date) || undefined`. */
  function LeaderFinishTime(board: seq<Standing>): (r: Option<Millis>)
    ensures r.Some? <==> |board| > 0
    ensures r.Some? ==> r.value == board[0].date
  {
    if |board| > 0 then Some(board[0].date) else None
  }

  /** `{raceId, ...passing}`. */
  function Stamp(raceId: Id, s: Standing): (r: LeaderboardEntry)
    ensures r.raceId == raceId
    ensures Standing(r.eventId, r.transponder, r.date, r.riderId, r.lapCount, r.secondsDiff) == s
  {
    LeaderboardEntry(raceId, s.eventId, s.transponder, s.date, s.riderId, s.lapCount, s.secondsDiff)
  }

  datatype Board = Board(isFinished: bool, leaderFinishTime: Option<Millis>, passings: seq<LeaderboardEntry>)

  /** Reading `race.eventId` of a race `findOne` did not find throws. */
  datatype LeaderboardError = RaceNotFound

  /** `finalResults.map(passing => ({raceId, ...passing}))`. */
  function StampAll(raceId: Id, board: seq<Standing>): (r: seq<LeaderboardEntry>)
    ensures |r| == |board|
    ensures forall i :: 0 <= i < |r| ==> r[i] == Stamp(raceId, board[i]) && r[i].raceId == raceId
  {
    seq(|board|, i requires 0 <= i < |board| => Stamp(raceId, board[i]))
  }

  /** `leaderboardByRaceId(raceId)`, with the race found by id given as `race`. */
  function GetLeaderboard(raceId: Id, race: Option<Race>, entries: seq<Entry>, riders: seq<Rider>, passings: seq<Passing>)
    : (r: Result<Board, LeaderboardError>)
    ensures r.Failure? <==> race.None?
    ensures r.Success? ==>
      var b := Standings(race.value, entries, riders, passings);
      && r.value.passings == StampAll(raceId, b)
      && r.value.isFinished == Finished(race.value, b)
      && r.value.leaderFinishTime == LeaderFinishTime(b)
  {
    match race
    case None => Failure(RaceNotFound)
    case Some(rc) =>
      var board := Standings(rc, entries, riders, passings);
      Success(Board(Finished(rc, board), LeaderFinishTime(board), StampAll(raceId, board)))
  }
}
