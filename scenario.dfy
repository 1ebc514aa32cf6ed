/**
 * A worked two-rider race, taken through `GetLeaderboard`: A crosses
 * the line at 0 s and 60 s, B at 5 s and 70 s, and the race has no lap
 * count. Both stand at lap 2, A leads for crossing first, and B is 10
 * seconds behind.
 */
module Scenario {
  import opened Collections
  import opened Records
  import opened Transponders
  import opened Grouping
  import opened Ranking
  import opened Engine
  import opened Leaderboard

  const A1 := Passing("e", "A", 0, None)
  const B1 := Passing("e", "B", 5000, None)
  const A2 := Passing("e", "A", 60000, None)
  const B2 := Passing("e", "B", 70000, None)

  const TwoRiderRace := Race("e", None, None)
  const TwoRiderEntries := [Entry("a"), Entry("b")]
  const TwoRiderRiders := [Rider("a", Some("A")), Rider("b", Some("B"))]
  const TwoRiderPassings := [A1, B1, A2, B2]

  /** When the query admits every stored passing, it returns them all, in order. */
  lemma {:induction false} AllAdmitted(race: Race, entered: seq<Transponder>, ps: seq<Passing>)
    requires forall i :: 0 <= i < |ps| ==> Admits(race, entered, ps[i])
    ensures RacePassings(race, entered, ps) == ps
  {
    if ps != [] {
      AllAdmitted(race, entered, ps[1..]);
      assert ps == [ps[0]] + ps[1..];
    }
  }

  lemma TwoRiderWindow()
    ensures Window(TwoRiderRace, TwoRiderEntries, TwoRiderRiders, TwoRiderPassings) == TwoRiderPassings
  {
    var entered := TranspondersByRace(TwoRiderEntries, TwoRiderRiders);
    assert Entry("a") in TwoRiderEntries && Entry("b") in TwoRiderEntries;
    assert Rider("a", Some("A")) in TwoRiderRiders && Rider("b", Some("B")) in TwoRiderRiders;
    assert "A" in entered && "B" in entered;
    AllAdmitted(TwoRiderRace, entered, TwoRiderPassings);
  }

  /** A date-sorted sequence of two passings at different dates is the two in date order. */
  lemma TwoSorted(s: seq<Passing>, x: Passing, y: Passing)
    requires SortedBy(s, PassingDate) && multiset(s) == multiset{x, y} && x.date < y.date
    ensures s == [x, y]
  {
    assert |s| == 2;
    assert s[0] in multiset(s) && s[1] in multiset(s);
    assert PassingDate(s[0]) <= PassingDate(s[1]);
  }

  /**
   * What the rest of the proof needs of the four passings: their
   * transponders are A and B, each of A1, A2, B1, B2 occurs once, and every
   * other passing of A or B is absent.
   */
  ghost predicate FourPassings(ps: seq<Passing>) {
    && (forall t :: Carries(ps, t) <==> t == "A" || t == "B")
    && multiset(ps)[A1] == 1 && multiset(ps)[A2] == 1 && multiset(ps)[B1] == 1 && multiset(ps)[B2] == 1
    && (forall p :: p in ps && p.transponder == "A" ==> p == A1 || p == A2)
    && (forall p :: p in ps && p.transponder == "B" ==> p == B1 || p == B2)
  }

  lemma FourPassingsHold()
    ensures FourPassings(TwoRiderPassings)
  {
    KeysOfFour();
    OnlyTwoEach();
    assert multiset(TwoRiderPassings) == multiset{A1, B1, A2, B2};
  }

  /** One transponder's group, given the passings of that transponder among the four. */
  lemma GroupOf(r: seq<Passing>, ps: seq<Passing>, t: Transponder, x: Passing, y: Passing)
    requires FourPassings(ps)
    requires SortedBy(r, PassingDate)
    requires forall p :: multiset(r)[p] == if p.transponder == t then multiset(ps)[p] else 0
    requires (t == "A" && x == A1 && y == A2) || (t == "B" && x == B1 && y == B2)
    ensures r == [x, y]
  {
    TwoOf(r, ps, t, x, y);
    TwoSorted(r, x, y);
  }

  /** A's two passings grouped under A, B's under B, each in date order, and no other group. */
  ghost predicate FourGroups(g: Grouping) {
    && (forall t :: t in g.groups <==> t == "A" || t == "B")
    && "A" in g.groups && g.groups["A"] == [A1, A2]
    && "B" in g.groups && g.groups["B"] == [B1, B2]
  }

  /** Any grouping with the guarantees of `Grouped` on the four passings. */
  lemma GroupsOfFour(g: Grouping, ps: seq<Passing>)
    requires FourPassings(ps)
    requires forall t :: t in g.groups <==> Carries(ps, t)
    requires forall t :: t in g.groups ==> SortedBy(g.groups[t], PassingDate)
    requires forall t, p :: t in g.groups ==>
      multiset(g.groups[t])[p] == if p.transponder == t then multiset(ps)[p] else 0
    ensures FourGroups(g)
  {
    assert "A" in g.groups && "B" in g.groups;
    GroupOf(g.groups["A"], ps, "A", A1, A2);
    GroupOf(g.groups["B"], ps, "B", B1, B2);
  }

  lemma KeysOfFour()
    ensures forall t :: Carries(TwoRiderPassings, t) <==> t == "A" || t == "B"
  {
    var ps := TwoRiderPassings;
    forall t | Carries(ps, t) ensures t == "A" || t == "B" {
      var j :| 0 <= j < |ps| && ps[j].transponder == t;
    }
    assert ps[0].transponder == "A" && ps[1].transponder == "B";
  }

  lemma OnlyTwoEach()
    ensures forall p :: p in TwoRiderPassings && p.transponder == "A" ==> p == A1 || p == A2
    ensures forall p :: p in TwoRiderPassings && p.transponder == "B" ==> p == B1 || p == B2
  {
  }

  /** What the board lemmas say of any rows over the two groups. */
  lemma TwoRows(g: Grouping, b: seq<Standing>)
    requires WellFormed(g)
    requires forall t :: t in g.groups <==> t == "A" || t == "B"
    requires "A" in g.groups && g.groups["A"] == [A1, A2]
    requires "B" in g.groups && g.groups["B"] == [B1, B2]
    requires forall i :: 0 <= i < |b| ==> b[i].transponder == "A" || b[i].transponder == "B"
    requires exists i :: 0 <= i < |b| && b[i].transponder == "A"
    requires exists i :: 0 <= i < |b| && b[i].transponder == "B"
    requires forall i, j :: 0 <= i < j < |b| ==> b[i].transponder != b[j].transponder
    requires forall i :: 0 <= i < |b| ==> Consistent(g, b[i]) && b[i].lapCount == 2
    requires Ranked(g.keys, b)
    requires forall i :: 0 <= i < |b| ==> b[i].secondsDiff.Some? && b[i].secondsDiff.value == Gap(g, b[i]).value
    ensures |b| == 2
    ensures b[0].transponder == "A" && b[0].lapCount == 2 && b[0].date == 60000 && b[0].secondsDiff == Some(0)
    ensures b[1].transponder == "B" && b[1].lapCount == 2 && b[1].date == 70000 && b[1].secondsDiff == Some(10)
  {
    var ia :| 0 <= ia < |b| && b[ia].transponder == "A";
    var ib :| 0 <= ib < |b| && b[ib].transponder == "B";
    RowIndex(b, 0, ia, ib);
    RowIndex(b, |b| - 1, ia, ib);
    if |b| > 1 {
      RowIndex(b, 1, ia, ib);
    }
    assert b[ia].date == 60000 && b[ib].date == 70000;
    assert "A" in g.keys && "B" in g.keys;
    EarliestBelow(g, g.keys, 2, "A");
    EarliestWitness(g, g.keys, 2);
    assert EarliestCrossing(g, g.keys, 2).value == 60000;
  }

  /** With distinct transponders, each A or B, a row sits at the index of A's row or of B's. */
  lemma RowIndex(b: seq<Standing>, k: int, ia: int, ib: int)
    requires forall i :: 0 <= i < |b| ==> b[i].transponder == "A" || b[i].transponder == "B"
    requires forall i, j :: 0 <= i < j < |b| ==> b[i].transponder != b[j].transponder
    requires 0 <= ia < |b| && b[ia].transponder == "A"
    requires 0 <= ib < |b| && b[ib].transponder == "B"
    requires 0 <= k < |b|
    ensures k == ia || k == ib
  {
    assert b[k].transponder == "A" || b[k].transponder == "B";
  }

  /** A sequence holding, with multiplicity, exactly the passings of `t` among the four. */
  lemma TwoOf(r: seq<Passing>, ps: seq<Passing>, t: Transponder, x: Passing, y: Passing)
    requires FourPassings(ps)
    requires forall p :: multiset(r)[p] == if p.transponder == t then multiset(ps)[p] else 0
    requires (t == "A" && x == A1 && y == A2) || (t == "B" && x == B1 && y == B2)
    ensures multiset(r) == multiset{x, y}
  {
    forall p ensures multiset(r)[p] == multiset{x, y}[p] {
      if p.transponder != t {
        assert p != x && p != y;
      } else if p != x && p != y {
        assert p !in ps;
      }
    }
  }

  /** A then B, both at lap 2, A crossing at 60 s and B ten seconds behind. */
  ghost predicate TwoRiderRows(b: seq<Standing>) {
    && |b| == 2
    && b[0].transponder == "A" && b[0].lapCount == 2 && b[0].date == 60000 && b[0].secondsDiff == Some(0)
    && b[1].transponder == "B" && b[1].lapCount == 2 && b[1].date == 70000 && b[1].secondsDiff == Some(10)
  }

  lemma TwoPasses(ps: seq<Passing>)
    requires FourPassings(ps)
    ensures |PassesOf(ps, "A")| == 2 && |PassesOf(ps, "B")| == 2
  {
    TwoOf(PassesOf(ps, "A"), ps, "A", A1, A2);
    TwoOf(PassesOf(ps, "B"), ps, "B", B1, B2);
    assert |multiset(PassesOf(ps, "A"))| == 2;
    assert |multiset(PassesOf(ps, "B"))| == 2;
  }

  /** The leaderboard of the two-rider race: A then B, both at lap 2, B ten seconds behind, not finished. */
  lemma TwoRiderBoard()
    ensures var r := GetLeaderboard("r", Some(TwoRiderRace), TwoRiderEntries, TwoRiderRiders, TwoRiderPassings);
      && r.Success? && !r.value.isFinished && r.value.leaderFinishTime == Some(60000)
      && |r.value.passings| == 2
      && r.value.passings[0].transponder == "A" && r.value.passings[0].lapCount == 2
      && r.value.passings[0].secondsDiff == Some(0)
      && r.value.passings[1].transponder == "B" && r.value.passings[1].lapCount == 2
      && r.value.passings[1].secondsDiff == Some(10)
  {
    TwoRiderWindow();
    BoardOfFour(TwoRiderRace, TwoRiderEntries, TwoRiderRiders, TwoRiderPassings);
  }

  /** The standings of any race whose window is the four passings and which has no lap count. */
  lemma BoardOfFour(race: Race, entries: seq<Entry>, riders: seq<Rider>, passings: seq<Passing>)
    requires Window(race, entries, riders, passings) == TwoRiderPassings
    requires race.lapCount.None?
    ensures TwoRiderRows(Standings(race, entries, riders, passings))
  {
    StagesHold(race, entries, riders, passings);
    StagesOfFour(Window(race, entries, riders, passings), RaceGroups(race, entries, riders, passings),
      FinalThreshold(race), riders, Results(race, entries, riders, passings), Standings(race, entries, riders, passings));
  }

  /** What the stages of the leaderboard produce from the four passings. */
  lemma StagesOfFour(w: seq<Passing>, g: Grouping, n: Threshold, riders: seq<Rider>, res: seq<Standing>, b: seq<Standing>)
    requires w == TwoRiderPassings && n == Unbounded
    requires Stages(w, g, n, riders, res, b)
    requires forall t :: t in g.groups ==> SortedBy(g.groups[t], PassingDate)
    requires forall t, p :: t in g.groups ==>
      multiset(g.groups[t])[p] == if p.transponder == t then multiset(w)[p] else 0
    ensures TwoRiderRows(b)
  {
    FourPassingsHold();
    GroupsOfFour(g, w);
    FourRows(w, g, n, riders, res, b);
  }

  /** The rows the stages make of the four passings, once their grouping is known. */
  lemma FourRows(w: seq<Passing>, g: Grouping, n: Threshold, riders: seq<Rider>, res: seq<Standing>, b: seq<Standing>)
    requires FourPassings(w) && n == Unbounded
    requires Stages(w, g, n, riders, res, b) && FourGroups(g)
    ensures TwoRiderRows(b)
  {
    RowsCover(w, g, n, riders, res, b);
    RowLaps(w, g, n, riders, res, b);
    RowsRanked(w, g, n, riders, res, b);
    RowGaps(w, g, n, riders, res, b);
    TwoPasses(w);
    forall i | 0 <= i < |b| ensures b[i].transponder == "A" || b[i].transponder == "B" {
      assert Carries(w, b[i].transponder);
    }
    forall i | 0 <= i < |b| ensures b[i].lapCount == 2 && b[i].secondsDiff.Some? {
      assert b[i].transponder == "A" || b[i].transponder == "B";
    }
    TwoRows(g, b);
  }
}
