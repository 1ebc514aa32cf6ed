/**
 * What the leaderboard promises, stated over the stored records: one row per
 * transponder that crossed the line in the race window, ranked by laps done
 * (capped at the race's lap count) and then by crossing date; each row's gap
 * to the first rider through the same lap; the finish flag; and the empty
 * cases.
 */
module Leaderboard {
  import opened Collections
  import opened Records
  import opened Transponders
  import opened Grouping
  import opened Ranking
  import opened Engine

  /** The lap count a transponder with c passings is ranked with at threshold n. */
  function Capped(c: nat, n: Threshold): nat {
    match n
    case Unbounded => c
    case UpTo(k) => Min(c, k)
  }

  lemma AtLapCapped(group: seq<Passing>, n: Threshold)
    requires |group| > 0
    ensures AtLap(group, n).lapCount == Capped(|group|, n)
  {
  }

  lemma RankedSamePlace(keys: seq<Transponder>, a: seq<Standing>, b: seq<Standing>)
    requires Ranked(keys, a) && |a| == |b|
    requires forall i :: 0 <= i < |a| ==> SamePlace(a[i], b[i])
    ensures Ranked(keys, b)
  {
    forall i, j | 0 <= i < j < |b| ensures Outranks(keys, b[i], b[j]) {
      assert Outranks(keys, a[i], a[j]);
    }
  }

  // ---------------------------------------------------------------------------
  // From the results to the final rows
  // ---------------------------------------------------------------------------

  /** The ranking `resultsForLap(race.lapCount || Number.MAX_VALUE)` holds every group and is ranked. */
  lemma ResultsRanked(race: Race, entries: seq<Entry>, riders: seq<Rider>, passings: seq<Passing>)
    ensures var g := RaceGroups(race, entries, riders, passings);
      var res := Results(race, entries, riders, passings);
      && RanksAll(g, FinalThreshold(race), res)
      && Ranked(g.keys, res)
      && (forall i, j :: 0 <= i < j < |res| ==> res[i].transponder != res[j].transponder)
      && (forall i :: 0 <= i < |res| ==> res[i].secondsDiff.None?)
  {
    var g := RaceGroups(race, entries, riders, passings);
    var n := FinalThreshold(race);
    ResultsForLapRanksAll(g, n);
    ResultsForLapSpec(g, n);
    var res := ResultsForLap(g, n);
    forall i | 0 <= i < |res| ensures res[i].secondsDiff.None? {
      assert res[i] == AtLap(g.groups[res[i].transponder], n);
    }
  }
  /**
   * What the stages of the leaderboard hand each other: the window w is
   * grouped into g, one group per transponder in w holding all its passings;
   * res ranks every group's standing at threshold n; b finishes res.
   */
  ghost predicate Stages(w: seq<Passing>, g: Grouping, n: Threshold, riders: seq<Rider>, res: seq<Standing>, b: seq<Standing>) {
    && WellFormed(g)
    && (forall t :: t in g.groups <==> Carries(w, t))
    && (forall t :: t in g.groups ==> |g.groups[t]| == |PassesOf(w, t)|)
    && RanksAll(g, n, res)
    && Ranked(g.keys, res)
    && (forall i, j :: 0 <= i < j < |res| ==> res[i].transponder != res[j].transponder)
    && (forall i :: 0 <= i < |res| ==> res[i].secondsDiff.None?)
    && Finishes(g, riders, res, b)
  }

  lemma StagesHold(race: Race, entries: seq<Entry>, riders: seq<Rider>, passings: seq<Passing>)
    ensures Stages(Window(race, entries, riders, passings), RaceGroups(race, entries, riders, passings),
      FinalThreshold(race), riders, Results(race, entries, riders, passings), Standings(race, entries, riders, passings))
  {
    ResultsRanked(race, entries, riders, passings);
  }

  // ---------------------------------------------------------------------------
  // The promises, for any rows the stages produce
  // ---------------------------------------------------------------------------

  lemma RowsRanked(w: seq<Passing>, g: Grouping, n: Threshold, riders: seq<Rider>, res: seq<Standing>, b: seq<Standing>)
    requires Stages(w, g, n, riders, res, b)
    ensures Ranked(g.keys, b)
  {
    RankedSamePlace(g.keys, res, b);
  }

  lemma RowsCover(w: seq<Passing>, g: Grouping, n: Threshold, riders: seq<Rider>, res: seq<Standing>, b: seq<Standing>)
    requires Stages(w, g, n, riders, res, b)
    ensures forall t :: Carries(w, t) <==> exists i :: 0 <= i < |b| && b[i].transponder == t
    ensures forall i, j :: 0 <= i < j < |b| ==> b[i].transponder != b[j].transponder
  {
    forall t | Carries(w, t) ensures exists i :: 0 <= i < |b| && b[i].transponder == t {
      var i :| 0 <= i < |res| && res[i].transponder == t;
      assert SamePlace(res[i], b[i]);
    }
    forall t | exists i :: 0 <= i < |b| && b[i].transponder == t ensures Carries(w, t) {
      var i :| 0 <= i < |b| && b[i].transponder == t;
      assert SamePlace(res[i], b[i]);
    }
    forall i, j | 0 <= i < j < |b| ensures b[i].transponder != b[j].transponder {
      assert SamePlace(res[i], b[i]) && SamePlace(res[j], b[j]);
    }
  }

  lemma RowLaps(w: seq<Passing>, g: Grouping, n: Threshold, riders: seq<Rider>, res: seq<Standing>, b: seq<Standing>)
    requires Stages(w, g, n, riders, res, b)
    ensures forall i :: 0 <= i < |b| ==>
      Consistent(g, b[i]) && b[i].lapCount == Capped(|PassesOf(w, b[i].transponder)|, n)
  {
    forall i | 0 <= i < |b| ensures b[i].lapCount == Capped(|PassesOf(w, b[i].transponder)|, n) {
      assert SamePlace(res[i], b[i]);
      assert res[i] == AtLap(g.groups[res[i].transponder], n);
      AtLapCapped(g.groups[res[i].transponder], n);
    }
  }

  lemma RowGaps(w: seq<Passing>, g: Grouping, n: Threshold, riders: seq<Rider>, res: seq<Standing>, b: seq<Standing>)
    requires Stages(w, g, n, riders, res, b)
    ensures forall i :: 0 <= i < |b| ==>
      && Consistent(g, b[i])
      && (b[i].secondsDiff.None? <==> b[i].lapCount <= 1)
      && (b[i].secondsDiff.Some? ==> b[i].secondsDiff.value == Gap(g, b[i]).value >= 0)
  {
  }

  lemma RowRiderIds(g: Grouping, riders: seq<Rider>, res: seq<Standing>, b: seq<Standing>)
    requires Finishes(g, riders, res, b)
    ensures forall i :: 0 <= i < |b| ==>
      && (res[i].riderId.Some? ==> b[i].riderId == res[i].riderId)
      && (res[i].riderId.None? && b[i].riderId.Some? ==>
            exists x :: x in riders && x.transponder == Some(b[i].transponder) && x.id == b[i].riderId.value)
      && (res[i].riderId.None? && b[i].riderId.None? ==>
            forall x :: x in riders ==> x.transponder != Some(b[i].transponder))
  {
    forall i | 0 <= i < |b| && res[i].riderId.None?
      ensures b[i].riderId.Some? ==>
        exists x :: x in riders && x.transponder == Some(b[i].transponder) && x.id == b[i].riderId.value
      ensures b[i].riderId.None? ==> forall x :: x in riders ==> x.transponder != Some(b[i].transponder)
    {
      assert SamePlace(res[i], b[i]);
      var o := OwnerOf(riders, res[i].transponder);
      if o.Some? {
        var k :| 0 <= k < |riders| && riders[k].transponder == Some(res[i].transponder) && riders[k].id == o.value;
        assert riders[k] in riders;
      } else {
        forall x | x in riders ensures x.transponder != Some(b[i].transponder) {
          var k :| 0 <= k < |riders| && riders[k] == x;
        }
      }
    }
  }

  lemma RowIdsPresent(w: seq<Passing>, g: Grouping, n: Threshold, riders: seq<Rider>, res: seq<Standing>, b: seq<Standing>)
    requires Stages(w, g, n, riders, res, b)
    requires forall t :: Carries(w, t) ==> OwnerOf(riders, t).Some?
    ensures forall i :: 0 <= i < |b| ==> b[i].riderId.Some?
  {
    forall i | 0 <= i < |b| ensures b[i].riderId.Some? {
      assert Carries(w, res[i].transponder);
    }
  }

  lemma RowLeaderGap(w: seq<Passing>, g: Grouping, n: Threshold, riders: seq<Rider>, res: seq<Standing>, b: seq<Standing>)
    requires Stages(w, g, n, riders, res, b)
    ensures |b| > 0 && b[0].lapCount > 1 ==> b[0].secondsDiff == Some(0)
  {
    if |b| > 0 && b[0].lapCount > 1 {
      HeadGap(g, n, res, b[0]);
    }
  }

  /** A row in the place of the head of the ranking is at gap zero. */
  lemma HeadGap(g: Grouping, n: Threshold, res: seq<Standing>, x: Standing)
    requires RanksAll(g, n, res) && |res| > 0 && SamePlace(res[0], x) && x.lapCount > 1
    ensures Gap(g, x).Some? && Gap(g, x).value == 0
  {
    RankedTopCrossing(g, n, res);
    ConsistentSamePlace(g, res[0], x);
    GapFromCrossing(g, x, x.date);
  }

  lemma RowsNonEmpty(w: seq<Passing>, g: Grouping, n: Threshold, riders: seq<Rider>, res: seq<Standing>, b: seq<Standing>)
    requires Stages(w, g, n, riders, res, b)
    ensures |b| > 0 <==> |w| > 0
  {
    RowsCover(w, g, n, riders, res, b);
    if |w| > 0 {
      assert Carries(w, w[0].transponder);
    }
    if |b| > 0 {
      assert Carries(w, b[0].transponder);
    }
  }

  /** Some transponder did at least k passings in the window. */
  ghost predicate SomeoneDid(w: seq<Passing>, k: nat) {
    exists t :: Carries(w, t) && |PassesOf(w, t)| >= k
  }

  /** At threshold k, the first row has k laps exactly when some transponder did k passings. */
  lemma RowsFinished(w: seq<Passing>, g: Grouping, k: PosInt, riders: seq<Rider>, res: seq<Standing>, b: seq<Standing>)
    requires Stages(w, g, UpTo(k), riders, res, b)
    ensures (|b| > 0 && k <= b[0].lapCount) <==> SomeoneDid(w, k)
  {
    RankedTopFinished(g, k, res);
    if |res| > 0 {
      assert SamePlace(res[0], b[0]);
      assert res[0] == AtLap(g.groups[res[0].transponder], UpTo(k));
    }
    if SomeoneDid(w, k) {
      var t :| Carries(w, t) && |PassesOf(w, t)| >= k;
      assert t in g.groups && |g.groups[t]| >= k;
    }
    if exists u :: u in g.groups && |g.groups[u]| >= k {
      var u :| u in g.groups && |g.groups[u]| >= k;
      assert Carries(w, u) && |PassesOf(w, u)| >= k;
    }
  }

  /** The first row crossed first: its date is the earliest crossing of its lap, which the threshold caps. */
  lemma RowsHead(w: seq<Passing>, g: Grouping, n: Threshold, riders: seq<Rider>, res: seq<Standing>, b: seq<Standing>)
    requires Stages(w, g, n, riders, res, b) && |b| > 0
    ensures n.UpTo? ==> b[0].lapCount <= n.laps
    ensures EarliestCrossing(g, g.keys, b[0].lapCount).Some?
    ensures EarliestCrossing(g, g.keys, b[0].lapCount).value == b[0].date
  {
    RankedTopCrossing(g, n, res);
    assert SamePlace(res[0], b[0]);
    assert res[0] == AtLap(g.groups[res[0].transponder], n);
  }

  // ---------------------------------------------------------------------------
  // The leaderboard's promises
  // ---------------------------------------------------------------------------

  /** Rows are ranked: more laps first, then earlier crossing, then group order. */
  lemma BoardRanked(race: Race, entries: seq<Entry>, riders: seq<Rider>, passings: seq<Passing>)
    ensures Ranked(RaceGroups(race, entries, riders, passings).keys, Standings(race, entries, riders, passings))
  {
    StagesHold(race, entries, riders, passings);
    RowsRanked(Window(race, entries, riders, passings), RaceGroups(race, entries, riders, passings),
      FinalThreshold(race), riders, Results(race, entries, riders, passings), Standings(race, entries, riders, passings));
  }

  /** Every passing the race query returns is of the race's event, not before its start, and of an entered rider. */
  lemma WindowAdmitted(race: Race, entries: seq<Entry>, riders: seq<Rider>, passings: seq<Passing>)
    ensures var w := Window(race, entries, riders, passings);
      forall j :: 0 <= j < |w| ==> Admits(race, TranspondersByRace(entries, riders), w[j]) && w[j] in passings
  {
    var w := Window(race, entries, riders, passings);
    forall j | 0 <= j < |w| ensures Admits(race, TranspondersByRace(entries, riders), w[j]) && w[j] in passings {
      assert multiset(w)[w[j]] > 0;
    }
  }

  /** One row per transponder with a passing in the race window, and no other. */
  lemma BoardRows(race: Race, entries: seq<Entry>, riders: seq<Rider>, passings: seq<Passing>)
    ensures var w := Window(race, entries, riders, passings);
      var b := Standings(race, entries, riders, passings);
      && (forall t :: Carries(w, t) <==> exists i :: 0 <= i < |b| && b[i].transponder == t)
      && (forall i, j :: 0 <= i < j < |b| ==> b[i].transponder != b[j].transponder)
  {
    StagesHold(race, entries, riders, passings);
    RowsCover(Window(race, entries, riders, passings), RaceGroups(race, entries, riders, passings),
      FinalThreshold(race), riders, Results(race, entries, riders, passings), Standings(race, entries, riders, passings));
  }

  /**
   * Each row reports the laps its transponder did in the window, capped at
   * the race's lap count, and the crossing that completed the last of them.
   */
  lemma BoardLapCounts(race: Race, entries: seq<Entry>, riders: seq<Rider>, passings: seq<Passing>)
    ensures var w := Window(race, entries, riders, passings);
      var g := RaceGroups(race, entries, riders, passings);
      var b := Standings(race, entries, riders, passings);
      forall i :: 0 <= i < |b| ==>
        && Consistent(g, b[i])
        && b[i].lapCount == Capped(|PassesOf(w, b[i].transponder)|, FinalThreshold(race))
  {
    StagesHold(race, entries, riders, passings);
    RowLaps(Window(race, entries, riders, passings), RaceGroups(race, entries, riders, passings),
      FinalThreshold(race), riders, Results(race, entries, riders, passings), Standings(race, entries, riders, passings));
  }

  /**
   * A row gets `secondsDiff` exactly when it is past its first lap; the gap
   * is the reference gap to the earliest crossing of that lap, never negative.
   */
  lemma BoardGaps(race: Race, entries: seq<Entry>, riders: seq<Rider>, passings: seq<Passing>)
    ensures var g := RaceGroups(race, entries, riders, passings);
      var b := Standings(race, entries, riders, passings);
      forall i :: 0 <= i < |b| ==>
        && Consistent(g, b[i])
        && (b[i].secondsDiff.None? <==> b[i].lapCount <= 1)
        && (b[i].secondsDiff.Some? ==> b[i].secondsDiff.value == Gap(g, b[i]).value >= 0)
  {
    StagesHold(race, entries, riders, passings);
    RowGaps(Window(race, entries, riders, passings), RaceGroups(race, entries, riders, passings),
      FinalThreshold(race), riders, Results(race, entries, riders, passings), Standings(race, entries, riders, passings));
  }

  /** The rider id of a row: the passing's own if it has one, else the id of a rider carrying the transponder. */
  lemma BoardRiderIds(race: Race, entries: seq<Entry>, riders: seq<Rider>, passings: seq<Passing>)
    ensures var res := Results(race, entries, riders, passings);
      var b := Standings(race, entries, riders, passings);
      && |b| == |res|
      && forall i :: 0 <= i < |b| ==>
        && (res[i].riderId.Some? ==> b[i].riderId == res[i].riderId)
        && (res[i].riderId.None? && b[i].riderId.Some? ==>
              exists x :: x in riders && x.transponder == Some(b[i].transponder) && x.id == b[i].riderId.value)
        && (res[i].riderId.None? && b[i].riderId.None? ==>
              forall x :: x in riders ==> x.transponder != Some(b[i].transponder))
  {
    RowRiderIds(RaceGroups(race, entries, riders, passings), riders,
      Results(race, entries, riders, passings), Standings(race, entries, riders, passings));
  }

  /** An entered transponder is carried by some rider, so the lookup finds one. */
  lemma OwnerOfEntered(entries: seq<Entry>, riders: seq<Rider>, t: Transponder)
    requires t in TranspondersByRace(entries, riders)
    ensures OwnerOf(riders, t).Some?
  {
    var x :| x in riders && IsEntered(entries, x.id) && x.transponder == Some(t);
    var k :| 0 <= k < |riders| && riders[k] == x;
  }

  /** Only entered transponders appear in the race window. */
  lemma WindowEntered(race: Race, entries: seq<Entry>, riders: seq<Rider>, passings: seq<Passing>, t: Transponder)
    requires Carries(Window(race, entries, riders, passings), t)
    ensures t in TranspondersByRace(entries, riders)
  {
    var w := Window(race, entries, riders, passings);
    WindowAdmitted(race, entries, riders, passings);
    var j :| 0 <= j < |w| && w[j].transponder == t;
    assert Admits(race, TranspondersByRace(entries, riders), w[j]);
  }

  /**
   * Every row of the board carries a rider id: a transponder in the race
   * window belongs to an entered rider, so the backfill lookup always finds one.
   */
  lemma BoardRiderIdsPresent(race: Race, entries: seq<Entry>, riders: seq<Rider>, passings: seq<Passing>)
    ensures var b := Standings(race, entries, riders, passings);
      forall i :: 0 <= i < |b| ==> b[i].riderId.Some?
  {
    var w := Window(race, entries, riders, passings);
    forall t | Carries(w, t) ensures OwnerOf(riders, t).Some? {
      WindowEntered(race, entries, riders, passings, t);
      OwnerOfEntered(entries, riders, t);
    }
    StagesHold(race, entries, riders, passings);
    RowIdsPresent(w, RaceGroups(race, entries, riders, passings),
      FinalThreshold(race), riders, Results(race, entries, riders, passings), Standings(race, entries, riders, passings));
  }

  /** The leader, once past the first lap, is zero seconds behind itself. */
  lemma LeaderGapIsZero(race: Race, entries: seq<Entry>, riders: seq<Rider>, passings: seq<Passing>)
    ensures var b := Standings(race, entries, riders, passings);
      |b| > 0 && b[0].lapCount > 1 ==> b[0].secondsDiff == Some(0)
  {
    StagesHold(race, entries, riders, passings);
    RowLeaderGap(Window(race, entries, riders, passings), RaceGroups(race, entries, riders, passings),
      FinalThreshold(race), riders, Results(race, entries, riders, passings), Standings(race, entries, riders, passings));
  }

  /** The board has rows exactly when the race window holds a passing. */
  lemma BoardNonEmpty(race: Race, entries: seq<Entry>, riders: seq<Rider>, passings: seq<Passing>)
    ensures (|Standings(race, entries, riders, passings)| > 0) <==> |Window(race, entries, riders, passings)| > 0
  {
    StagesHold(race, entries, riders, passings);
    RowsNonEmpty(Window(race, entries, riders, passings), RaceGroups(race, entries, riders, passings),
      FinalThreshold(race), riders, Results(race, entries, riders, passings), Standings(race, entries, riders, passings));
  }

  /**
   * The race is finished exactly when it has a lap count k and some
   * transponder crossed the line at least k times in the window.
   */
  lemma FinishedIff(raceId: Id, race: Race, entries: seq<Entry>, riders: seq<Rider>, passings: seq<Passing>)
    ensures var r := GetLeaderboard(raceId, Some(race), entries, riders, passings);
      var w := Window(race, entries, riders, passings);
      && r.Success?
      && (r.value.isFinished <==>
            race.lapCount.Some? && race.lapCount.value > 0 && SomeoneDid(w, race.lapCount.value))
  {
    StagesHold(race, entries, riders, passings);
    if race.lapCount.Some? && race.lapCount.value > 0 {
      var k: PosInt := race.lapCount.value;
      assert FinalThreshold(race) == UpTo(k);
      RowsFinished(Window(race, entries, riders, passings), RaceGroups(race, entries, riders, passings),
        k, riders, Results(race, entries, riders, passings), Standings(race, entries, riders, passings));
    }
  }

  /** When the race is finished, the leader did the k laps and the finish time is the first k-th crossing. */
  lemma FinishTime(raceId: Id, race: Race, entries: seq<Entry>, riders: seq<Rider>, passings: seq<Passing>)
    ensures var r := GetLeaderboard(raceId, Some(race), entries, riders, passings);
      var g := RaceGroups(race, entries, riders, passings);
      var b := Standings(race, entries, riders, passings);
      && r.Success?
      && (r.value.leaderFinishTime.Some? <==> |b| > 0)
      && (|b| > 0 ==> r.value.leaderFinishTime.value == b[0].date)
      && (r.value.isFinished ==>
            && |b| > 0 && race.lapCount.Some? && b[0].lapCount == race.lapCount.value >= 1
            && EarliestCrossing(g, g.keys, b[0].lapCount).Some?
            && r.value.leaderFinishTime.value == EarliestCrossing(g, g.keys, b[0].lapCount).value)
  {
    StagesHold(race, entries, riders, passings);
    if |Standings(race, entries, riders, passings)| > 0 {
      RowsHead(Window(race, entries, riders, passings), RaceGroups(race, entries, riders, passings),
        FinalThreshold(race), riders, Results(race, entries, riders, passings), Standings(race, entries, riders, passings));
    }
  }

  /** A race nobody entered has an empty, unfinished board. */
  lemma EmptyWithoutEntries(raceId: Id, race: Race, riders: seq<Rider>, passings: seq<Passing>)
    ensures GetLeaderboard(raceId, Some(race), [], riders, passings) == Success(Board(false, None, []))
  {
    var w := Window(race, [], riders, passings);
    assert TranspondersByRace([], riders) == [];
    assert w == [];
    BoardNonEmpty(race, [], riders, passings);
    var b := Standings(race, [], riders, passings);
    assert |StampAll(raceId, b)| == 0;
  }
}
