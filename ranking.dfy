/**
 * `resultsForLap(lapNumber)`: one standing per transponder group, capped at
 * the lap threshold, ordered by lap count (most first), then by crossing
 * date (earliest first), then by the order in which the groups are
 * enumerated.
 */
module Ranking {
  import opened Collections
  import opened Records
  import opened Grouping

  /** Position of t in keys; `|keys|` when absent. */
  function IndexOf(keys: seq<Transponder>, t: Transponder): (i: nat)
    ensures i <= |keys|
    ensures i < |keys| ==> keys[i] == t
    ensures i == |keys| <==> t !in keys
  {
    if keys == [] then 0
    else if keys[0] == t then 0
    else 1 + IndexOf(keys[1..], t)
  }

  lemma {:induction false} IndexOfDistinct(keys: seq<Transponder>, i: nat)
    requires Distinct(keys) && i < |keys|
    ensures IndexOf(keys, keys[i]) == i
  {
    if i > 0 {
      assert keys[0] != keys[i];
      assert Distinct(keys[1..]) by {
        forall a, b | 0 <= a < b < |keys[1..]| ensures keys[1..][a] != keys[1..][b] {
          assert keys[1..][a] == keys[a + 1] && keys[1..][b] == keys[b + 1];
        }
      }
      IndexOfDistinct(keys[1..], i - 1);
    }
  }

  /** The standing built from passing p tagged with `laps` laps. */
  function Tagged(p: Passing, laps: nat): (s: Standing)
    ensures Passing(s.eventId, s.transponder, s.date, s.riderId) == p
    ensures s.lapCount == laps && s.secondsDiff.None?
  {
    Standing(p.eventId, p.transponder, p.date, p.riderId, laps, None)
  }

  /**
   * The standing of one group at threshold n: the passing at index
   * `min(passCount - 1, n - 1)`, tagged with `lapCount = min(passCount, n)`.
   * A rider short of n reports every lap done; one past n reports n.
   */
  function AtLap(group: seq<Passing>, n: Threshold): (e: Standing)
    requires |group| > 0
    ensures 1 <= e.lapCount <= |group|
    ensures n.UpTo? ==> e.lapCount <= n.laps
    ensures n.Unbounded? || |group| <= n.laps ==> e.lapCount == |group|
    ensures n.UpTo? && n.laps <= |group| ==> e.lapCount == n.laps
    ensures e == Tagged(group[e.lapCount - 1], e.lapCount)
    ensures e.date == group[e.lapCount - 1].date && e.transponder == group[e.lapCount - 1].transponder
  {
    var passCount := |group|;
    match n
    case Unbounded => Tagged(group[passCount - 1], passCount)
    case UpTo(k) => Tagged(group[Min(passCount - 1, k - 1)], Min(passCount, k))
  }

  /** `_.map(passingsByTransponder, ...)`: the standings in group order. */
  function PerGroup(g: Grouping, n: Threshold): (r: seq<Standing>)
    requires WellFormed(g)
    ensures |r| == |g.keys|
    ensures forall i :: 0 <= i < |r| ==> r[i] == AtLap(g.groups[g.keys[i]], n)
    ensures forall i :: 0 <= i < |r| ==> r[i].transponder == g.keys[i]
  {
    seq(|g.keys|, i requires 0 <= i < |g.keys| => AtLap(g.groups[g.keys[i]], n))
  }

  /**
   * x ranks ahead of y: more laps; or as many, crossed earlier; or both
   * equal and x's group is enumerated first.
   */
  predicate Outranks(keys: seq<Transponder>, x: Standing, y: Standing) {
    || x.lapCount > y.lapCount
    || (x.lapCount == y.lapCount && x.date < y.date)
    || (x.lapCount == y.lapCount && x.date == y.date && IndexOf(keys, x.transponder) < IndexOf(keys, y.transponder))
  }

  ghost predicate Ranked(keys: seq<Transponder>, s: seq<Standing>) {
    forall i, j :: 0 <= i < j < |s| ==> Outranks(keys, s[i], s[j])
  }

  /** The chain `sortBy('date').reverse().sortBy('lapCount').reverse()`. */
  function RankOrder(s: seq<Standing>): (r: seq<Standing>)
    ensures multiset(r) == multiset(s)
    ensures |r| == |s|
  {
    var byDate := SortBy(s, StandingDate);
    ReverseMultiset(byDate);
    var byLaps := SortBy(Reverse(byDate), StandingLaps);
    ReverseMultiset(byLaps);
    assert |multiset(Reverse(byLaps))| == |multiset(s)|;
    Reverse(byLaps)
  }

  /**
   * Because lodash sorts stably, the chain ranks by lap count descending,
   * then date ascending, then by the order the standings came in; and it
   * only reorders them.
   */
  lemma RankOrderRanks(keys: seq<Transponder>, s: seq<Standing>)
    requires Distinct(keys) && |s| == |keys|
    requires forall i :: 0 <= i < |s| ==> s[i].transponder == keys[i]
    ensures Ranked(keys, RankOrder(s))
    ensures multiset(RankOrder(s)) == multiset(s)
  {
    var pos := (x: Standing) => IndexOf(keys, x.transponder);
    var byGroup := (x: Standing, y: Standing) => pos(x) < pos(y);
    assert Pairwise(s, byGroup) by {
      forall i, j | 0 <= i < j < |s| ensures pos(s[i]) < pos(s[j]) {
        IndexOfDistinct(keys, i);
        IndexOfDistinct(keys, j);
      }
    }
    var a := SortBy(s, StandingDate);
    SortByStable(s, StandingDate, byGroup);
    var b := Reverse(a);
    ReverseSortedThen(a, StandingDate, byGroup);
    var later := (x: Standing, y: Standing) => x.date > y.date || (x.date == y.date && pos(x) > pos(y));
    assert Pairwise(b, later);
    var c := SortBy(b, StandingLaps);
    SortByStable(b, StandingLaps, later);
    var d := Reverse(c);
    ReverseSortedThen(c, StandingLaps, later);
    assert Ranked(keys, d);
    ReverseMultiset(a);
    ReverseMultiset(c);
  }

  /** `resultsForLap(n)`: the per-group standings, reordered by the ranking chain. */
  function ResultsForLap(g: Grouping, n: Threshold): (r: seq<Standing>)
    requires WellFormed(g)
    ensures |r| == |g.keys|
    ensures multiset(r) == multiset(PerGroup(g, n))
  {
    var e := PerGroup(g, n);
    RankOrderRanks(g.keys, e);
    RankOrder(e)
  }

  /**
   * What `resultsForLap(n)` returns: a permutation of the per-group
   * standings, so exactly one standing per group, each that group's
   * standing at threshold n; ranked; the first has the most laps.
   */
  lemma ResultsForLapSpec(g: Grouping, n: Threshold)
    requires WellFormed(g)
    ensures var r := ResultsForLap(g, n);
      && multiset(r) == multiset(PerGroup(g, n))
      && Ranked(g.keys, r)
      && (forall i :: 0 <= i < |r| ==>
            r[i].transponder in g.groups && r[i] == AtLap(g.groups[r[i].transponder], n))
      && (forall t :: t in g.groups ==> exists i :: 0 <= i < |r| && r[i].transponder == t)
      && (forall i, j :: 0 <= i < j < |r| ==> r[i].transponder != r[j].transponder)
      && (forall i :: 0 <= i < |r| ==> r[0].lapCount >= r[i].lapCount)
  {
    var e := PerGroup(g, n);
    RankOrderRanks(g.keys, e);
    var r := RankOrder(e);
    OnePerGroup(g, n, r);
    RankedLeader(g.keys, r);
  }

  /** The first of a ranking has at least as many laps as any other. */
  lemma RankedLeader(keys: seq<Transponder>, r: seq<Standing>)
    requires Ranked(keys, r)
    ensures forall i :: 0 <= i < |r| ==> r[0].lapCount >= r[i].lapCount
  {
    forall i | 0 < i < |r| ensures r[0].lapCount >= r[i].lapCount {
      assert Outranks(keys, r[0], r[i]);
    }
  }

  /** Every standing in a permutation of the per-group standings is its own group's. */
  lemma OnePerGroup(g: Grouping, n: Threshold, r: seq<Standing>)
    requires WellFormed(g)
    requires multiset(r) == multiset(PerGroup(g, n))
    ensures forall i :: 0 <= i < |r| ==>
      r[i].transponder in g.groups && r[i] == AtLap(g.groups[r[i].transponder], n)
    ensures forall t :: t in g.groups ==> exists i :: 0 <= i < |r| && r[i].transponder == t
    ensures forall i, j :: 0 <= i < j < |r| ==> r[i].transponder != r[j].transponder
  {
    forall i | 0 <= i < |r|
      ensures r[i].transponder in g.groups && r[i] == AtLap(g.groups[r[i].transponder], n)
    {
      InPerGroup(g, n, r, i);
    }
    forall t | t in g.groups ensures exists i :: 0 <= i < |r| && r[i].transponder == t {
      GroupInPermutation(g, n, r, t);
    }
    DistinctTransponders(g.keys, PerGroup(g, n), r);
  }

  lemma InPerGroup(g: Grouping, n: Threshold, r: seq<Standing>, i: nat)
    requires WellFormed(g) && i < |r|
    requires multiset(r) == multiset(PerGroup(g, n))
    ensures r[i].transponder in g.groups && r[i] == AtLap(g.groups[r[i].transponder], n)
  {
    var e := PerGroup(g, n);
    assert r[i] in multiset(e);
    var k :| 0 <= k < |e| && e[k] == r[i];
  }

  lemma GroupInPermutation(g: Grouping, n: Threshold, r: seq<Standing>, t: Transponder)
    requires WellFormed(g) && t in g.groups
    requires multiset(r) == multiset(PerGroup(g, n))
    ensures exists i :: 0 <= i < |r| && r[i].transponder == t
  {
    var e := PerGroup(g, n);
    var k :| 0 <= k < |g.keys| && g.keys[k] == t;
    assert e[k] in multiset(r);
    var i :| 0 <= i < |r| && r[i] == e[k];
    assert r[i].transponder == t;
  }

  /** A reordering of standings whose transponders are the distinct keys, in turn, repeats no transponder. */
  lemma DistinctTransponders(keys: seq<Transponder>, e: seq<Standing>, r: seq<Standing>)
    requires Distinct(keys) && |e| == |keys|
    requires forall i :: 0 <= i < |e| ==> e[i].transponder == keys[i]
    requires multiset(r) == multiset(e)
    ensures forall i, j :: 0 <= i < j < |r| ==> r[i].transponder != r[j].transponder
  {
    assert Distinct(e) by {
      forall a, b | 0 <= a < b < |e| ensures e[a] != e[b] {
        assert e[a].transponder == keys[a] && e[b].transponder == keys[b];
      }
    }
    PermutationDistinct(e, r);
    forall i, j | 0 <= i < j < |r| ensures r[i].transponder != r[j].transponder {
      assert r[i] in multiset(e) && r[j] in multiset(e);
      var a :| 0 <= a < |e| && e[a] == r[i];
      var b :| 0 <= b < |e| && e[b] == r[j];
      assert a != b;
    }
  }
}
