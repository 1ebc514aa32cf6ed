/**
 * The passing query of `leaderboardByRaceId` and the chain
 * `_.chain(passings).sortBy('date').groupBy('transponder')`, which turns the
 * race's passings into one date-ordered lap history per transponder.
 */
module Grouping {
  import opened Collections
  import opened Records

  // ---------------------------------------------------------------------------
  // The passing query
  // ---------------------------------------------------------------------------

  /** `race.actualStart || new Date(0)`. */
  function Since(race: Race): (m: Millis)
    ensures race.actualStart.None? ==> m == 0
    ensures race.actualStart.Some? ==> m == race.actualStart.value
  {
    match race.actualStart
    case Some(t) => t
    case None => 0
  }

  /** The three conditions of `Passing.find`: same event, not before the start, an entered transponder. */
  predicate Admits(race: Race, entered: seq<Transponder>, p: Passing)
    ensures Admits(race, entered, p) <==>
      && p.eventId == race.eventId
      && p.transponder in entered
      && (race.actualStart.None? ==> p.date >= 0)
      && (race.actualStart.Some? ==> p.date >= race.actualStart.value)
  {
    p.eventId == race.eventId && p.date >= Since(race) && p.transponder in entered
  }

  /** The passings the query returns: every admitted passing, as often as it is stored. */
  function RacePassings(race: Race, entered: seq<Transponder>, ps: seq<Passing>): (r: seq<Passing>)
    ensures forall p :: multiset(r)[p] == if Admits(race, entered, p) then multiset(ps)[p] else 0
  {
    if ps == [] then []
    else
      assert ps == [ps[0]] + ps[1..];
      var rest := RacePassings(race, entered, ps[1..]);
      if Admits(race, entered, ps[0]) then [ps[0]] + rest else rest
  }

  // ---------------------------------------------------------------------------
  // One transponder's passings
  // ---------------------------------------------------------------------------

  /** The passings of transponder t, in the order they come. */
  function PassesOf(ps: seq<Passing>, t: Transponder): (r: seq<Passing>)
    ensures forall i :: 0 <= i < |r| ==> r[i].transponder == t
    ensures forall p :: multiset(r)[p] == if p.transponder == t then multiset(ps)[p] else 0
  {
    if ps == [] then []
    else
      assert ps == [ps[0]] + ps[1..];
      var rest := PassesOf(ps[1..], t);
      if ps[0].transponder == t then [ps[0]] + rest else rest
  }

  /** A transponder's passings keep the date order of the passings they come from. */
  lemma {:induction false} PassesOfSorted(ps: seq<Passing>, t: Transponder)
    requires SortedBy(ps, PassingDate)
    ensures SortedBy(PassesOf(ps, t), PassingDate)
  {
    if ps != [] {
      assert SortedBy(ps[1..], PassingDate) by {
        forall i, j | 0 <= i < j < |ps[1..]| ensures ps[1..][i].date <= ps[1..][j].date {
          assert ps[1..][i] == ps[i + 1] && ps[1..][j] == ps[j + 1];
        }
      }
      PassesOfSorted(ps[1..], t);
      var rest := PassesOf(ps[1..], t);
      forall k | 0 <= k < |rest| ensures ps[0].date <= rest[k].date {
        assert multiset(rest)[rest[k]] > 0;
        assert rest[k] in ps[1..];
        var m :| 0 <= m < |ps[1..]| && ps[1..][m] == rest[k];
        assert ps[m + 1] == rest[k];
      }
    }
  }

  /** How many passings t has depends only on which passings there are, not on their order. */
  lemma PassesOfCount(ps: seq<Passing>, qs: seq<Passing>, t: Transponder)
    requires multiset(ps) == multiset(qs)
    ensures |PassesOf(ps, t)| == |PassesOf(qs, t)|
  {
    assert multiset(PassesOf(ps, t)) == multiset(PassesOf(qs, t));
    assert |multiset(PassesOf(ps, t))| == |PassesOf(ps, t)|;
    assert |multiset(PassesOf(qs, t))| == |PassesOf(qs, t)|;
  }

  lemma PassesOfNonEmpty(ps: seq<Passing>, j: nat)
    requires j < |ps|
    ensures ps[j] in PassesOf(ps, ps[j].transponder)
  {
    assert multiset(ps)[ps[j]] > 0;
    assert multiset(PassesOf(ps, ps[j].transponder))[ps[j]] > 0;
  }

  // ---------------------------------------------------------------------------
  // The result of groupBy: an object with ordered keys
  // ---------------------------------------------------------------------------

  /**
   * `passingsByTransponder`: the keys in the order the object enumerates
   * them, and the passings under each key.
   */
  datatype Grouping = Grouping(keys: seq<Transponder>, groups: map<Transponder, seq<Passing>>)

  /** What groupBy guarantees of its object: one non-empty group per key, holding only that key's passings. */
  ghost predicate WellFormed(g: Grouping) {
    && Distinct(g.keys)
    && (forall t :: t in g.groups <==> t in g.keys)
    && (forall t :: t in g.groups ==>
          |g.groups[t]| > 0 && forall i :: 0 <= i < |g.groups[t]| ==> g.groups[t][i].transponder == t)
  }

  /** Some passing of ps is from transponder t. */
  ghost predicate Carries(ps: seq<Passing>, t: Transponder) {
    exists j :: 0 <= j < |ps| && ps[j].transponder == t
  }

  lemma CarriesBoth(ps: seq<Passing>, qs: seq<Passing>)
    requires multiset(ps) == multiset(qs)
    ensures forall t :: Carries(ps, t) <==> Carries(qs, t)
  {
    forall t | Carries(ps, t) ensures Carries(qs, t) {
      var j :| 0 <= j < |ps| && ps[j].transponder == t;
      assert ps[j] in multiset(qs);
      var k :| 0 <= k < |qs| && qs[k] == ps[j];
    }
    forall t | Carries(qs, t) ensures Carries(ps, t) {
      var j :| 0 <= j < |qs| && qs[j].transponder == t;
      assert qs[j] in multiset(ps);
      var k :| 0 <= k < |ps| && ps[k] == qs[j];
    }
  }

  /** keys lists every transponder of ps exactly once. */
  ghost predicate IsKeyOrder(keys: seq<Transponder>, ps: seq<Passing>) {
    && Distinct(keys)
    && (forall t :: t in keys <==> Carries(ps, t))
  }

  /** What one group of groupBy holds. */
  lemma GroupFacts(ps: seq<Passing>, t: Transponder)
    requires Carries(ps, t)
    ensures |PassesOf(ps, t)| > 0
    ensures SortedBy(ps, PassingDate) ==> SortedBy(PassesOf(ps, t), PassingDate)
  {
    var j :| 0 <= j < |ps| && ps[j].transponder == t;
    PassesOfNonEmpty(ps, j);
    if SortedBy(ps, PassingDate) { PassesOfSorted(ps, t); }
  }

  /**
   * `_.groupBy(ps, 'transponder')`, with the object's key order given. The
   * groups split ps: each passing lands in its transponder's group, each
   * group holds exactly that transponder's passings, and none is empty.
   */
  function GroupBy(ps: seq<Passing>, keys: seq<Transponder>): (g: Grouping)
    requires IsKeyOrder(keys, ps)
    ensures WellFormed(g) && g.keys == keys
    ensures forall t, p :: t in g.groups ==>
      multiset(g.groups[t])[p] == if p.transponder == t then multiset(ps)[p] else 0
    ensures forall j :: 0 <= j < |ps| ==> ps[j].transponder in g.groups && ps[j] in g.groups[ps[j].transponder]
    ensures SortedBy(ps, PassingDate) ==> forall t :: t in g.groups ==> SortedBy(g.groups[t], PassingDate)
  {
    var g := Grouping(keys, map t | t in keys :: PassesOf(ps, t));
    assert forall t :: t in g.groups ==> g.groups[t] == PassesOf(ps, t);
    assert forall t :: t in g.groups ==>
      |g.groups[t]| > 0 && (SortedBy(ps, PassingDate) ==> SortedBy(g.groups[t], PassingDate)) by {
      forall t | t in g.groups
        ensures |PassesOf(ps, t)| > 0 && (SortedBy(ps, PassingDate) ==> SortedBy(PassesOf(ps, t), PassingDate))
      {
        GroupFacts(ps, t);
      }
    }
    assert forall j :: 0 <= j < |ps| ==> ps[j].transponder in g.groups && ps[j] in g.groups[ps[j].transponder] by {
      forall j | 0 <= j < |ps| ensures ps[j].transponder in keys && ps[j] in PassesOf(ps, ps[j].transponder) {
        assert Carries(ps, ps[j].transponder);
        PassesOfNonEmpty(ps, j);
      }
    }
    g
  }

  // ---------------------------------------------------------------------------
  // The order in which a JavaScript object enumerates its keys
  // ---------------------------------------------------------------------------

  /** Every transponder listed before t in r has passed before any passing of t. */
  ghost predicate FirstSeenOrder(ps: seq<Passing>, r: seq<Transponder>) {
    forall i, j, b :: 0 <= i < j < |r| && 0 <= b < |ps| && ps[b].transponder == r[j] ==>
      exists a :: 0 <= a < b && ps[a].transponder == r[i]
  }

  /** Transponders in the order of their first passing. */
  function FirstSeen(ps: seq<Passing>): (r: seq<Transponder>)
    ensures Distinct(r)
    ensures forall t :: t in r <==> Carries(ps, t)
    ensures FirstSeenOrder(ps, r)
  {
    if ps == [] then []
    else
      var front := ps[..|ps| - 1];
      var rest := FirstSeen(front);
      var t := ps[|ps| - 1].transponder;
      FrontCarries(ps);
      FirstSeenStep(ps, rest);
      if t in rest then rest else rest + [t]
  }

  /** Adding the last passing's transponder, when new, at the end keeps first-seen order. */
  lemma FirstSeenStep(ps: seq<Passing>, rest: seq<Transponder>)
    requires ps != []
    requires forall t :: t in rest <==> Carries(ps[..|ps| - 1], t)
    requires FirstSeenOrder(ps[..|ps| - 1], rest)
    ensures var t := ps[|ps| - 1].transponder;
      FirstSeenOrder(ps, if t in rest then rest else rest + [t])
  {
    var front := ps[..|ps| - 1];
    var t := ps[|ps| - 1].transponder;
    var r := if t in rest then rest else rest + [t];
    forall i, j, b | 0 <= i < j < |r| && 0 <= b < |ps| && ps[b].transponder == r[j]
      ensures exists a :: 0 <= a < b && ps[a].transponder == r[i]
    {
      assert r[i] == rest[i] && rest[i] in rest;
      if j < |rest| {
        assert r[j] == rest[j] && rest[j] in rest;
        var b' := b;
        if b == |ps| - 1 {
          assert Carries(front, rest[j]);
          b' :| 0 <= b' < |front| && front[b'].transponder == rest[j];
        }
        assert front[b'].transponder == rest[j];
        var a :| 0 <= a < b' && front[a].transponder == rest[i];
        assert ps[a] == front[a];
      } else {
        assert r[j] == t && t !in rest;
        assert Carries(front, rest[i]);
        var a :| 0 <= a < |front| && front[a].transponder == rest[i];
        assert ps[a] == front[a];
      }
    }
    assert FirstSeenOrder(ps, r);
  }

  lemma FrontCarries(ps: seq<Passing>)
    requires ps != []
    ensures forall t :: Carries(ps, t) <==> Carries(ps[..|ps| - 1], t) || t == ps[|ps| - 1].transponder
  {
    var front := ps[..|ps| - 1];
    forall t | Carries(front, t) ensures Carries(ps, t) {
      var j :| 0 <= j < |front| && front[j].transponder == t;
      assert ps[j] == front[j];
    }
    forall t | Carries(ps, t) && t != ps[|ps| - 1].transponder ensures Carries(front, t) {
      var j :| 0 <= j < |ps| && ps[j].transponder == t;
      assert front[j] == ps[j];
    }
    assert Carries(ps, ps[|ps| - 1].transponder);
  }

  predicate IsDigit(c: char) { '0' <= c <= '9' }

  /** The number a string of decimal digits denotes. */
  function DigitsValue(s: string): nat {
    if s == [] then 0
    else
      var c := s[|s| - 1];
      DigitsValue(s[..|s| - 1]) * 10 + (if IsDigit(c) then (c as int - '0' as int) else 0)
  }

  /** The largest array index: 2^32 - 2. */
  const MaxArrayIndex: nat := 4294967294

  /** An array index: the canonical decimal form of an integer from 0 to 2^32 - 2. */
  predicate IsArrayIndex(s: string) {
    && |s| > 0
    && (forall i :: 0 <= i < |s| ==> IsDigit(s[i]))
    && (s[0] != '0' || |s| == 1)
    && DigitsValue(s) <= MaxArrayIndex
  }

  predicate IsNamedKey(s: string) { !IsArrayIndex(s) }

  function KeyNumber(s: string): int { DigitsValue(s) }

  /** Array-index keys in ascending numeric order, then the others in their given order. */
  function IndicesThenNamed(seen: seq<Transponder>): seq<Transponder> {
    SortBy(Filter(seen, IsArrayIndex), KeyNumber) + Filter(seen, IsNamedKey)
  }

  lemma IndicesThenNamedMembers(seen: seq<Transponder>)
    ensures forall t :: t in IndicesThenNamed(seen) <==> t in seen
  {
    var indices := Filter(seen, IsArrayIndex);
    var front := SortBy(indices, KeyNumber);
    forall t ensures t in front <==> t in indices {
      assert t in front <==> t in multiset(indices);
    }
  }

  lemma IndicesThenNamedDistinct(seen: seq<Transponder>)
    requires Distinct(seen)
    ensures Distinct(IndicesThenNamed(seen))
  {
    var indices := Filter(seen, IsArrayIndex);
    var named := Filter(seen, IsNamedKey);
    var front := SortBy(indices, KeyNumber);
    FilterDistinct(seen, IsArrayIndex);
    FilterDistinct(seen, IsNamedKey);
    PermutationDistinct(indices, front);
    var r := front + named;
    forall i, j | 0 <= i < j < |r| ensures r[i] != r[j] {
      if j >= |front| && i < |front| {
        assert r[i] == front[i] && r[j] == named[j - |front|];
        assert r[i] in multiset(indices);
        assert r[j] in named;
      } else if i >= |front| {
        assert r[i] == named[i - |front|] && r[j] == named[j - |front|];
      } else {
        assert r[i] == front[i] && r[j] == front[j];
      }
    }
  }

  lemma IndicesThenNamedOrder(seen: seq<Transponder>)
    ensures var r := IndicesThenNamed(seen);
      forall i, j :: 0 <= i < j < |r| && IsArrayIndex(r[j]) ==>
        IsArrayIndex(r[i]) && KeyNumber(r[i]) <= KeyNumber(r[j])
  {
    var indices := Filter(seen, IsArrayIndex);
    var named := Filter(seen, IsNamedKey);
    var front := SortBy(indices, KeyNumber);
    SortBySorted(indices, KeyNumber);
    var r := front + named;
    forall i, j | 0 <= i < j < |r| && IsArrayIndex(r[j])
      ensures IsArrayIndex(r[i]) && KeyNumber(r[i]) <= KeyNumber(r[j])
    {
      if j < |front| {
        assert r[i] == front[i] && r[j] == front[j];
        assert r[i] in multiset(indices);
      }
    }
  }

  /**
   * The key order of the object groupBy builds while it walks the
   * date-sorted passings: keys that are array indices first in ascending
   * numeric order, then the other keys in the order they were first added.
   */
  function JsKeyOrder(ps: seq<Passing>): (r: seq<Transponder>)
    ensures IsKeyOrder(r, ps)
    ensures forall i, j :: 0 <= i < j < |r| && IsArrayIndex(r[j]) ==>
      IsArrayIndex(r[i]) && KeyNumber(r[i]) <= KeyNumber(r[j])
  {
    var seen := FirstSeen(ps);
    IndicesThenNamedMembers(seen);
    IndicesThenNamedDistinct(seen);
    IndicesThenNamedOrder(seen);
    IndicesThenNamed(seen)
  }

  /**
   * The keys that are not array indices keep the order in which their
   * transponders first passed: of two such keys, the earlier one's
   * transponder passed before any passing of the later one.
   */
  lemma JsKeyOrderNamed(ps: seq<Passing>)
    ensures var r := JsKeyOrder(ps);
      forall i, j, b ::
        (0 <= i < j < |r| && IsNamedKey(r[i]) && IsNamedKey(r[j]) && 0 <= b < |ps| && ps[b].transponder == r[j]) ==>
        exists a :: 0 <= a < b && ps[a].transponder == r[i]
  {
    var seen := FirstSeen(ps);
    var indices := Filter(seen, IsArrayIndex);
    var front := SortBy(indices, KeyNumber);
    forall x | x in front ensures IsArrayIndex(x) {
      assert x in multiset(indices);
    }
    var named := Filter(seen, IsNamedKey);
    FilterKeepsOrder(seen, IsNamedKey);
    NamedAfterIndices(ps, seen, front, named);
  }

  lemma NamedAfterIndices(ps: seq<Passing>, seen: seq<Transponder>, front: seq<Transponder>, named: seq<Transponder>)
    requires FirstSeenOrder(ps, seen)
    requires forall x :: x in front ==> IsArrayIndex(x)
    requires KeepsOrder(seen, named)
    ensures var r := front + named;
      forall i, j, b ::
        (0 <= i < j < |r| && IsNamedKey(r[i]) && IsNamedKey(r[j]) && 0 <= b < |ps| && ps[b].transponder == r[j]) ==>
        exists a :: 0 <= a < b && ps[a].transponder == r[i]
  {
    var r := front + named;
    forall i, j, b | 0 <= i < j < |r| && IsNamedKey(r[i]) && IsNamedKey(r[j]) && 0 <= b < |ps| &&
        ps[b].transponder == r[j]
      ensures exists a :: 0 <= a < b && ps[a].transponder == r[i]
    {
      assert r[i] == named[i - |front|] && r[j] == named[j - |front|];
      var x, y :| 0 <= x < y < |seen| && seen[x] == named[i - |front|] && seen[y] == named[j - |front|];
    }
  }

  /**
   * `_.chain(passings).sortBy('date').groupBy('transponder')`: every group a
   * transponder's complete lap history in date order, its length the number
   * of that transponder's passings.
   */
  function Grouped(ps: seq<Passing>): (g: Grouping)
    ensures WellFormed(g)
    ensures forall t :: t in g.groups <==> Carries(ps, t)
    ensures forall t :: t in g.groups ==>
      SortedBy(g.groups[t], PassingDate) && |g.groups[t]| == |PassesOf(ps, t)|
    ensures forall t, p :: t in g.groups ==>
      multiset(g.groups[t])[p] == if p.transponder == t then multiset(ps)[p] else 0
    ensures g.keys == JsKeyOrder(SortBy(ps, PassingDate))
  {
    var sorted := SortBy(ps, PassingDate);
    SortBySorted(ps, PassingDate);
    var keys := JsKeyOrder(sorted);
    var g := GroupBy(sorted, keys);
    CarriesBoth(sorted, ps);
    assert forall t :: t in g.groups ==> |g.groups[t]| == |PassesOf(ps, t)| by {
      forall t | t in g.groups ensures |g.groups[t]| == |PassesOf(ps, t)| {
        assert multiset(g.groups[t]) == multiset(PassesOf(sorted, t));
        assert |multiset(g.groups[t])| == |g.groups[t]|;
        PassesOfCount(sorted, ps, t);
        assert |multiset(PassesOf(sorted, t))| == |PassesOf(sorted, t)|;
      }
    }
    g
  }
}
