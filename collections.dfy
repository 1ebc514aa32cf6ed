/**
 * Generic sequence helpers that stand for the lodash combinators the
 * leaderboard is written with: `_.sortBy` (a stable sort on one key),
 * `reverse`, a plain sequence filter, and the small records they need.
 */
module Collections {

  datatype Option<+T> = None | Some(value: T)

  datatype Result<+T, +E> = Success(value: T) | Failure(error: E)

  function Min(a: int, b: int): int { if a <= b then a else b }

  /** "s is ordered by key", ascending, ties allowed. */
  ghost predicate SortedBy<T>(s: seq<T>, key: T -> int) {
    forall i, j :: 0 <= i < j < |s| ==> key(s[i]) <= key(s[j])
  }

  /** Every earlier element is related by R to every later one. */
  ghost predicate Pairwise<T>(s: seq<T>, R: (T, T) -> bool) {
    forall i, j :: 0 <= i < j < |s| ==> R(s[i], s[j])
  }

  /** Ordered by key ascending, and elements with equal keys are related by R. */
  ghost predicate SortedThen<T>(s: seq<T>, key: T -> int, R: (T, T) -> bool) {
    forall i, j :: 0 <= i < j < |s| ==>
      key(s[i]) < key(s[j]) || (key(s[i]) == key(s[j]) && R(s[i], s[j]))
  }

  ghost predicate Distinct<T>(s: seq<T>) {
    forall i, j :: 0 <= i < j < |s| ==> s[i] != s[j]
  }

  /** Places x in front of the first element whose key is not smaller than its own. */
  function Insert<T>(x: T, s: seq<T>, key: T -> int): (r: seq<T>)
    ensures multiset(r) == multiset(s) + multiset{x}
  {
    if s == [] || key(x) <= key(s[0]) then [x] + s
    else
      assert s == [s[0]] + s[1..];
      [s[0]] + Insert(x, s[1..], key)
  }

  /**
   * lodash `_.sortBy(s, key)`: ascending by key, and stable, because each
   * element is inserted in front of the equal keys of the elements after it.
   */
  function SortBy<T>(s: seq<T>, key: T -> int): (r: seq<T>)
    ensures multiset(r) == multiset(s)
  {
    if s == [] then []
    else
      assert s == [s[0]] + s[1..];
      Insert(s[0], SortBy(s[1..], key), key)
  }

  lemma {:induction false} InsertKeepsOrder<T>(x: T, s: seq<T>, key: T -> int, R: (T, T) -> bool)
    requires SortedThen(s, key, R)
    requires forall i :: 0 <= i < |s| ==> R(x, s[i])
    ensures SortedThen(Insert(x, s, key), key, R)
  {
    if s == [] || key(x) <= key(s[0]) {
      forall i | 0 <= i < |s| ensures key(x) < key(s[i]) || (key(x) == key(s[i]) && R(x, s[i])) {
        if i > 0 { assert key(s[0]) <= key(s[i]); }
      }
      ConsKeepsOrder(x, s, key, R);
    } else {
      var t := Insert(x, s[1..], key);
      InsertKeepsOrder(x, s[1..], key, R);
      forall i | 0 <= i < |t| ensures key(s[0]) < key(t[i]) || (key(s[0]) == key(t[i]) && R(s[0], t[i])) {
        assert t[i] in multiset(t);
        if t[i] != x {
          assert t[i] in s[1..];
          var k :| 0 <= k < |s[1..]| && s[1..][k] == t[i];
          assert s[k + 1] == t[i];
        }
      }
      ConsKeepsOrder(s[0], t, key, R);
    }
  }

  /** Putting y in front keeps the order when y belongs before every element. */
  lemma ConsKeepsOrder<T>(y: T, t: seq<T>, key: T -> int, R: (T, T) -> bool)
    requires SortedThen(t, key, R)
    requires forall i :: 0 <= i < |t| ==> key(y) < key(t[i]) || (key(y) == key(t[i]) && R(y, t[i]))
    ensures SortedThen([y] + t, key, R)
  {
    var r := [y] + t;
    forall i, j | 0 <= i < j < |r|
      ensures key(r[i]) < key(r[j]) || (key(r[i]) == key(r[j]) && R(r[i], r[j]))
    {
      if i == 0 {
        assert r[j] == t[j - 1];
      } else {
        assert r[i] == t[i - 1] && r[j] == t[j - 1];
      }
    }
  }

  /** Stability of SortBy: what held between earlier and later inputs still holds between equal keys. */
  lemma {:induction false} SortByStable<T>(s: seq<T>, key: T -> int, R: (T, T) -> bool)
    requires Pairwise(s, R)
    ensures SortedThen(SortBy(s, key), key, R)
  {
    if s != [] {
      var t := SortBy(s[1..], key);
      assert Pairwise(s[1..], R) by {
        forall i, j | 0 <= i < j < |s[1..]| ensures R(s[1..][i], s[1..][j]) {
          assert s[1..][i] == s[i + 1] && s[1..][j] == s[j + 1];
        }
      }
      SortByStable(s[1..], key, R);
      forall i | 0 <= i < |t| ensures R(s[0], t[i]) {
        assert t[i] in multiset(s[1..]);
        var k :| 0 <= k < |s[1..]| && s[1..][k] == t[i];
        assert s[k + 1] == t[i];
      }
      InsertKeepsOrder(s[0], t, key, R);
    }
  }

  lemma SortBySorted<T>(s: seq<T>, key: T -> int)
    ensures SortedBy(SortBy(s, key), key)
  {
    var any := (x: T, y: T) => true;
    SortByStable(s, key, any);
  }

  /** lodash `reverse`. */
  function Reverse<T>(s: seq<T>): (r: seq<T>)
    ensures |r| == |s|
    ensures forall k :: 0 <= k < |s| ==> r[k] == s[|s| - 1 - k]
  {
    if s == [] then [] else Reverse(s[1..]) + [s[0]]
  }

  /** Ordered by key descending, and elements with equal keys are related by R taken backwards. */
  ghost predicate SortedThenDesc<T>(s: seq<T>, key: T -> int, R: (T, T) -> bool) {
    forall i, j :: 0 <= i < j < |s| ==>
      key(s[i]) > key(s[j]) || (key(s[i]) == key(s[j]) && R(s[j], s[i]))
  }

  lemma ReverseSortedThen<T>(s: seq<T>, key: T -> int, R: (T, T) -> bool)
    requires SortedThen(s, key, R)
    ensures SortedThenDesc(Reverse(s), key, R)
  {
    var r := Reverse(s);
    forall i, j | 0 <= i < j < |r|
      ensures key(r[i]) > key(r[j]) || (key(r[i]) == key(r[j]) && R(r[j], r[i]))
    {
      assert r[i] == s[|s| - 1 - i] && r[j] == s[|s| - 1 - j];
    }
  }

  lemma {:induction false} ReverseMultiset<T>(s: seq<T>)
    ensures multiset(Reverse(s)) == multiset(s)
  {
    if s != [] {
      ReverseMultiset(s[1..]);
      assert s == [s[0]] + s[1..];
    }
  }

  /** The elements of s satisfying f, in their order. */
  function Filter<T(!new)>(s: seq<T>, f: T -> bool): (r: seq<T>)
    ensures |r| <= |s|
    ensures forall x :: x in r <==> x in s && f(x)
  {
    if s == [] then []
    else if f(s[0]) then [s[0]] + Filter(s[1..], f)
    else Filter(s[1..], f)
  }

  /** Filter keeps the relative order of what it keeps. */
  ghost predicate KeepsOrder<T>(s: seq<T>, r: seq<T>) {
    forall i, j :: 0 <= i < j < |r| ==> exists a, b :: 0 <= a < b < |s| && s[a] == r[i] && s[b] == r[j]
  }

  lemma {:induction false} FilterKeepsOrder<T(!new)>(s: seq<T>, f: T -> bool)
    ensures KeepsOrder(s, Filter(s, f))
  {
    if s != [] {
      var r := Filter(s, f);
      var s' := s[1..];
      var t := Filter(s', f);
      FilterKeepsOrder(s', f);
      forall i, j | 0 <= i < j < |r| ensures exists a, b :: 0 <= a < b < |s| && s[a] == r[i] && s[b] == r[j] {
        if f(s[0]) {
          assert r == [s[0]] + t;
          if i == 0 {
            assert r[j] == t[j - 1] && t[j - 1] in s';
            var b :| 0 <= b < |s'| && s'[b] == r[j];
            assert s[0] == r[i] && s[b + 1] == r[j];
          } else {
            assert r[i] == t[i - 1] && r[j] == t[j - 1];
            var a, b :| 0 <= a < b < |s'| && s'[a] == t[i - 1] && s'[b] == t[j - 1];
            assert s[a + 1] == r[i] && s[b + 1] == r[j];
          }
        } else {
          assert r == t;
          var a, b :| 0 <= a < b < |s'| && s'[a] == t[i] && s'[b] == t[j];
          assert s[a + 1] == r[i] && s[b + 1] == r[j];
        }
      }
    }
  }

  lemma {:induction false} FilterDistinct<T(!new)>(s: seq<T>, f: T -> bool)
    requires Distinct(s)
    ensures Distinct(Filter(s, f))
  {
    if s != [] {
      assert Distinct(s[1..]) by {
        forall i, j | 0 <= i < j < |s[1..]| ensures s[1..][i] != s[1..][j] {
          assert s[1..][i] == s[i + 1] && s[1..][j] == s[j + 1];
        }
      }
      FilterDistinct(s[1..], f);
      assert s[0] !in s[1..];
    }
  }

  /** A sequence has no repeated element exactly when every multiplicity is at most one. */
  lemma {:induction false} DistinctCounts<T>(s: seq<T>)
    ensures Distinct(s) <==> forall x :: multiset(s)[x] <= 1
  {
    if s != [] {
      var t := s[1..];
      assert s == [s[0]] + t;
      DistinctCounts(t);
      if Distinct(s) {
        assert Distinct(t) by {
          forall i, j | 0 <= i < j < |t| ensures t[i] != t[j] {
            assert t[i] == s[i + 1] && t[j] == s[j + 1];
          }
        }
        assert s[0] !in t;
      } else {
        var i, j :| 0 <= i < j < |s| && s[i] == s[j];
        if i == 0 {
          assert s[j] in t;
          assert multiset(s)[s[0]] == 1 + multiset(t)[s[0]];
        } else {
          assert t[i - 1] == t[j - 1];
          assert !Distinct(t);
          var x :| multiset(t)[x] > 1;
          assert multiset(s)[x] >= multiset(t)[x];
        }
      }
    }
  }

  /** Reordering keeps a sequence free of repetitions. */
  lemma PermutationDistinct<T>(s: seq<T>, t: seq<T>)
    requires multiset(s) == multiset(t)
    requires Distinct(s)
    ensures Distinct(t)
  {
    DistinctCounts(s);
    DistinctCounts(t);
  }
}
