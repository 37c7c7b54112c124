// The discard and total step of the score calculator: the expression-style
// `sorted` / `prefix` / `reduce` pipeline that picks each skipper's worst races
// and totals what remains, with the sort it relies on.

module Discarding {
  import opened Sequences

  // ---------------------------------------------------------------------------
  // Stable insertion sort by an integer key (the model of Swift's `sorted`)
  // ---------------------------------------------------------------------------

  ghost predicate SortedBy<T>(s: seq<T>, key: T -> int)
  {
    forall i, j :: 0 <= i < j < |s| ==> key(s[i]) <= key(s[j])
  }

  /** Inserts `x` after every element whose key is not greater than its own. */
  function InsertBy<T>(x: T, s: seq<T>, key: T -> int): (r: seq<T>)
    requires SortedBy(s, key)
    ensures SortedBy(r, key)
    ensures multiset(r) == multiset(s) + multiset{x}
    ensures |r| == |s| + 1
  {
    if s == [] then [x]
    else if key(x) < key(s[0]) then [x] + s
    else
      var rest := InsertBy(x, s[1..], key);
      assert s == [s[0]] + s[1..];
      HeadBelowAll(x, s, key, rest);
      var r := [s[0]] + rest;
      assert SortedBy(r, key) by {
        forall i, j | 0 <= i < j < |r| ensures key(r[i]) <= key(r[j]) {
          if i > 0 {
            assert r[i] == rest[i - 1] && r[j] == rest[j - 1];
          }
        }
      }
      r
  }

  /** The first element of a sorted sequence has a key no greater than the key of
      anything it is rearranged with, when the added element's key is not smaller. */
  lemma HeadBelowAll<T>(x: T, s: seq<T>, key: T -> int, rest: seq<T>)
    requires SortedBy(s, key) && s != [] && key(s[0]) <= key(x)
    requires multiset(rest) == multiset(s[1..]) + multiset{x}
    ensures forall j :: 0 <= j < |rest| ==> key(s[0]) <= key(rest[j])
  {
    forall j | 0 <= j < |rest| ensures key(s[0]) <= key(rest[j]) {
      assert rest[j] in multiset(rest);
      if rest[j] != x {
        assert rest[j] in s[1..];
        var k :| 0 <= k < |s| - 1 && s[1..][k] == rest[j];
        assert s[k + 1] == rest[j];
      }
    }
  }

  /** `sorted(by:)` on a key: inserting the elements left to right keeps equal keys
      in their original order. */
  function SortBy<T>(s: seq<T>, key: T -> int): (r: seq<T>)
    ensures SortedBy(r, key)
    ensures multiset(r) == multiset(s)
    ensures |r| == |s|
  {
    if s == [] then []
    else
      assert s == s[..|s| - 1] + [s[|s| - 1]];
      InsertBy(s[|s| - 1], SortBy(s[..|s| - 1], key), key)
  }

  // ---------------------------------------------------------------------------
  // Discard selection
  // ---------------------------------------------------------------------------

  /** `races.count >= 5 ? races.count / 5 : 0` */
  function DiscardCount(raceCount: nat): (r: nat)
    ensures r <= raceCount
    ensures raceCount < 5 ==> r == 0
    ensures raceCount >= 5 ==> 5 * r <= raceCount < 5 * r + 5
  {
    if raceCount >= 5 then raceCount / 5 else 0
  }

  /** `points.indices` */
  function Indices(n: nat): (r: seq<int>)
    ensures |r| == n
    ensures forall i :: 0 <= i < n ==> r[i] == i
  {
    seq(n, i => i)
  }

  /** `prefix(k)`: at most the first k elements. */
  function Prefix<T>(s: seq<T>, k: nat): (r: seq<T>)
    ensures |r| == if k <= |s| then k else |s|
    ensures r <= s
  {
    if k <= |s| then s[..k] else s
  }

  /** The sort key for "highest points first". */
  function WorseFirst(points: seq<int>, i: int): int
  {
    if 0 <= i < |points| then -points[i] else 0
  }

  /** The race indices ordered worst result first (`sorted { points[$0] > points[$1] }`). */
  function RankWorstFirst(points: seq<int>): (r: seq<int>)
    ensures multiset(r) == multiset(Indices(|points|))
    ensures forall u, v :: 0 <= u < v < |r| ==> WorseFirst(points, r[u]) <= WorseFirst(points, r[v])
  {
    SortBy(Indices(|points|), i => WorseFirst(points, i))
  }

  /** `sortedIndices.prefix(numberOfDiscards).sorted()` */
  function Discards(points: seq<int>, count: nat): (r: seq<int>)
    ensures multiset(r) == multiset(Prefix(RankWorstFirst(points), count))
    ensures forall a, b :: 0 <= a < b < |r| ==> r[a] <= r[b]
  {
    SortBy(Prefix(RankWorstFirst(points), count), i => i)
  }

  /** `d` is a valid choice of `count` discarded races: distinct indices in
      ascending order, each with at least the points of every kept race. */
  ghost predicate IsDiscardSelection(points: seq<int>, count: nat, d: seq<int>)
  {
    && |d| == count
    && (forall a, b :: 0 <= a < b < |d| ==> d[a] < d[b])
    && (forall a :: 0 <= a < |d| ==> 0 <= d[a] < |points|)
    && (forall a, i :: 0 <= a < |d| && 0 <= i < |points| && i !in d ==> points[i] <= points[d[a]])
  }

  // ---------------------------------------------------------------------------
  // Totals
  // ---------------------------------------------------------------------------

  function Sum(points: seq<int>): int
  {
    if points == [] then 0 else Sum(points[..|points| - 1]) + points[|points| - 1]
  }

  /** The points at the given indices. */
  function SumAt(points: seq<int>, d: seq<int>): int
    requires forall a :: 0 <= a < |d| ==> 0 <= d[a] < |points|
  {
    if d == [] then 0 else SumAt(points, d[..|d| - 1]) + points[d[|d| - 1]]
  }

  /** The `reduce` over `points.enumerated()` that skips discarded offsets. */
  function KeptTotal(points: seq<int>, discarded: seq<int>): int
  {
    if points == [] then 0
    else
      var last := |points| - 1;
      KeptTotal(points[..last], discarded) + (if last in discarded then 0 else points[last])
  }

  // ---------------------------------------------------------------------------
  // The chosen discards are the worst results
  // ---------------------------------------------------------------------------

  lemma {:induction false} IndicesMultiplicity(n: nat, x: int)
    ensures multiset(Indices(n))[x] == if 0 <= x < n then 1 else 0
  {
    if n > 0 {
      IndicesMultiplicity(n - 1, x);
      assert Indices(n) == Indices(n - 1) + [n - 1];
    }
  }

  lemma RepeatedElementMultiplicity(s: seq<int>, a: int, b: int)
    requires 0 <= a < b < |s|
    ensures s[a] == s[b] ==> multiset(s)[s[a]] >= 2
  {
    assert s == s[..a] + [s[a]] + s[a + 1..b] + [s[b]] + s[b + 1..];
  }

  /** A sequence whose multiset holds every value at most once has no repeated element. */
  lemma DistinctFromMultiplicity(s: seq<int>)
    requires forall x :: multiset(s)[x] <= 1
    ensures forall a, b :: 0 <= a < b < |s| ==> s[a] != s[b]
  {
    forall a, b | 0 <= a < b < |s| ensures s[a] != s[b] {
      RepeatedElementMultiplicity(s, a, b);
    }
  }

  /** The ranking lists every race index exactly once. */
  lemma RankWorstFirstPermutes(points: seq<int>)
    ensures |RankWorstFirst(points)| == |points|
    ensures forall x :: multiset(RankWorstFirst(points))[x] == if 0 <= x < |points| then 1 else 0
    ensures forall u :: 0 <= u < |points| ==> 0 <= RankWorstFirst(points)[u] < |points|
  {
    var n := |points|;
    var ranked := RankWorstFirst(points);
    assert |ranked| == n by {
      assert |multiset(ranked)| == |multiset(Indices(n))|;
    }
    forall x ensures multiset(ranked)[x] == if 0 <= x < n then 1 else 0 {
      IndicesMultiplicity(n, x);
    }
    forall u | 0 <= u < n ensures 0 <= ranked[u] < n {
      assert ranked[u] in multiset(ranked);
    }
  }

  /** The ranking puts the worst result first. */
  lemma RankWorstFirstOrders(points: seq<int>)
    ensures forall u, v :: 0 <= u < v < |points| ==>
      && 0 <= RankWorstFirst(points)[u] < |points|
      && 0 <= RankWorstFirst(points)[v] < |points|
      && points[RankWorstFirst(points)[v]] <= points[RankWorstFirst(points)[u]]
  {
    var n := |points|;
    var ranked := RankWorstFirst(points);
    RankWorstFirstPermutes(points);
    forall u, v | 0 <= u < v < n
      ensures 0 <= ranked[u] < n && 0 <= ranked[v] < n && points[ranked[v]] <= points[ranked[u]]
    {
      assert ranked[u] in multiset(ranked) && ranked[v] in multiset(ranked);
      assert WorseFirst(points, ranked[u]) <= WorseFirst(points, ranked[v]);
    }
  }

  /** The discarded indices are the first `count` ranked ones, distinct and ascending. */
  lemma DiscardsAscending(points: seq<int>, count: nat)
    requires count <= |points|
    ensures |Discards(points, count)| == count
    ensures forall a, b :: 0 <= a < b < |Discards(points, count)| ==>
      Discards(points, count)[a] < Discards(points, count)[b]
    ensures multiset(Discards(points, count)) == multiset(RankWorstFirst(points)[..count])
  {
    var ranked := RankWorstFirst(points);
    RankWorstFirstPermutes(points);
    var chosen := ranked[..count];
    assert ranked == chosen + ranked[count..];
    assert multiset(ranked) == multiset(chosen) + multiset(ranked[count..]);
    var d := Discards(points, count);
    assert |d| == count by {
      assert |multiset(d)| == |multiset(chosen)|;
    }
    assert forall x :: multiset(d)[x] <= 1 by {
      forall x ensures multiset(d)[x] <= 1 {
        assert multiset(d)[x] <= multiset(ranked)[x];
      }
    }
    DistinctFromMultiplicity(d);
  }

  /** A race index outside the discards is ranked after every discarded one. */
  lemma KeptRankedAfter(points: seq<int>, count: nat, i: int)
    requires count <= |points| && 0 <= i < |points| && i !in Discards(points, count)
    ensures exists v :: count <= v < |points| && RankWorstFirst(points)[v] == i
  {
    var ranked := RankWorstFirst(points);
    RankWorstFirstPermutes(points);
    var front := ranked[..count];
    forall w | 0 <= w < count ensures ranked[w] != i {
      assert ranked[w] == front[w];
      assert ranked[w] in multiset(front);
    }
    assert i in multiset(ranked);
    var v :| 0 <= v < |ranked| && ranked[v] == i;
  }

  /** A discarded race index is among the first `count` ranked ones. */
  lemma DiscardRankedBefore(points: seq<int>, count: nat, a: int)
    requires count <= |points| && 0 <= a < |Discards(points, count)|
    ensures exists u :: 0 <= u < count && RankWorstFirst(points)[u] == Discards(points, count)[a]
  {
    var ranked := RankWorstFirst(points);
    RankWorstFirstPermutes(points);
    var d := Discards(points, count);
    assert d[a] in multiset(d);
    assert d[a] in ranked[..count];
    var u :| 0 <= u < count && ranked[..count][u] == d[a];
    assert ranked[u] == d[a];
  }

  /** Every valid count of races is dropped, and what is dropped are the worst
      results: `Discards` picks `count` distinct race indices, in ascending order,
      none of them beaten by a kept race. */
  lemma DiscardsAreWorst(points: seq<int>, count: nat)
    requires count <= |points|
    ensures IsDiscardSelection(points, count, Discards(points, count))
  {
    var n := |points|;
    var ranked := RankWorstFirst(points);
    RankWorstFirstOrders(points);
    RankWorstFirstPermutes(points);
    DiscardsAscending(points, count);
    var d := Discards(points, count);
    forall a | 0 <= a < |d| ensures 0 <= d[a] < n {
      DiscardRankedBefore(points, count, a);
      var u :| 0 <= u < count && ranked[u] == d[a];
    }
    forall a, i | 0 <= a < |d| && 0 <= i < n && i !in d ensures points[i] <= points[d[a]] {
      DiscardRankedBefore(points, count, a);
      KeptRankedAfter(points, count, i);
      var u :| 0 <= u < count && ranked[u] == d[a];
      var v :| count <= v < n && ranked[v] == i;
    }
  }

  // ---------------------------------------------------------------------------
  // The total is the sum minus the discarded points
  // ---------------------------------------------------------------------------

  lemma {:induction false} KeptTotalMembership(points: seq<int>, d1: seq<int>, d2: seq<int>)
    requires forall i :: 0 <= i < |points| ==> (i in d1 <==> i in d2)
    ensures KeptTotal(points, d1) == KeptTotal(points, d2)
    decreases |points|
  {
    if points != [] {
      KeptTotalMembership(points[..|points| - 1], d1, d2);
    }
  }

  lemma {:induction false} SumAtPrefix(points: seq<int>, m: nat, d: seq<int>)
    requires m <= |points|
    requires forall a :: 0 <= a < |d| ==> 0 <= d[a] < m
    ensures SumAt(points, d) == SumAt(points[..m], d)
    decreases |d|
  {
    if d != [] {
      SumAtPrefix(points, m, d[..|d| - 1]);
    }
  }

  /** `totalPoints` is the sum of all race points minus the points of the
      discarded races. */
  lemma {:induction false} KeptTotalIsSumMinusDiscarded(points: seq<int>, d: seq<int>)
    requires forall a, b :: 0 <= a < b < |d| ==> d[a] < d[b]
    requires forall a :: 0 <= a < |d| ==> 0 <= d[a] < |points|
    ensures KeptTotal(points, d) == Sum(points) - SumAt(points, d)
    decreases |points|
  {
    if points != [] {
      var m := |points| - 1;
      var front := points[..m];
      if m in d {
        var dFront := d[..|d| - 1];
        assert d[|d| - 1] == m by {
          var t :| 0 <= t < |d| && d[t] == m;
          assert d[t] <= d[|d| - 1];
        }
        assert forall a :: 0 <= a < |dFront| ==> 0 <= dFront[a] < m by {
          forall a | 0 <= a < |dFront| ensures 0 <= dFront[a] < m {
            assert d[a] < d[|d| - 1];
          }
        }
        KeptTotalMembership(front, d, dFront);
        KeptTotalIsSumMinusDiscarded(front, dFront);
        SumAtPrefix(points, m, dFront);
      } else {
        KeptTotalIsSumMinusDiscarded(front, d);
        SumAtPrefix(points, m, d);
      }
    }
  }

  /** With fewer than five races nothing is discarded and the total is the plain sum. */
  lemma NoDiscardsBelowFiveRaces(points: seq<int>)
    requires |points| < 5
    ensures Discards(points, DiscardCount(|points|)) == []
    ensures KeptTotal(points, Discards(points, DiscardCount(|points|))) == Sum(points)
  {
    KeptTotalIsSumMinusDiscarded(points, []);
  }

  // ---------------------------------------------------------------------------
  // The total does not depend on how ties between equal results are broken
  // ---------------------------------------------------------------------------

  /** `d` is some set of worst results, in any order. */
  ghost predicate IsWorstChoice(points: seq<int>, d: seq<int>)
  {
    && Distinct(d)
    && (forall a :: 0 <= a < |d| ==> 0 <= d[a] < |points|)
    && (forall a, i :: 0 <= a < |d| && 0 <= i < |points| && i !in d ==> points[i] <= points[d[a]])
  }

  lemma ReplaceMembership(d: seq<int>, j: int, y: int)
    requires Distinct(d) && 0 <= j < |d| && y !in d
    ensures forall i :: i in d[j := y] <==> (i in d && i != d[j]) || i == y
    ensures Distinct(d[j := y])
  {
    var e := d[j := y];
    forall i ensures i in e <==> (i in d && i != d[j]) || i == y {
      if i in e {
        var t :| 0 <= t < |e| && e[t] == i;
        if t != j {
          assert d[t] == i;
        }
      }
      if i in d && i != d[j] {
        var t :| 0 <= t < |d| && d[t] == i;
        assert e[t] == i;
      }
      if i == y {
        assert e[j] == y;
      }
    }
  }

  /** Swapping one chosen index for another moves that index's points into the total. */
  lemma {:induction false} ReplaceKeptTotal(points: seq<int>, d: seq<int>, j: int, y: int)
    requires Distinct(d) && 0 <= j < |d| && y !in d
    ensures KeptTotal(points, d[j := y])
      == KeptTotal(points, d)
         + (if 0 <= d[j] < |points| then points[d[j]] else 0)
         - (if 0 <= y < |points| then points[y] else 0)
    decreases |points|
  {
    if points != [] {
      ReplaceKeptTotal(points[..|points| - 1], d, j, y);
      ReplaceMembership(d, j, y);
    }
  }

  /** If `d1` holds an index that `d2` lacks, then `d2` holds one that `d1` lacks. */
  lemma OutsideBothWays(d1: seq<int>, d2: seq<int>, x: int)
    requires Distinct(d1) && Distinct(d2) && |d1| == |d2|
    requires x in d1 && x !in d2
    ensures exists y :: y in d2 && y !in d1
  {
    var s1 := set z | z in d1;
    var s2 := set z | z in d2;
    DistinctCard(d1);
    DistinctCard(d2);
    assert s1 == (s1 - s2) + (s1 * s2);
    assert s2 == (s2 - s1) + (s1 * s2);
    assert x in s1 - s2;
    var y :| y in s2 - s1;
    assert y in d2 && y !in d1;
  }

  /** If every index of `d1` is in `d2` and both are equally long, they hold the same indices. */
  lemma InsideSameMembers(d1: seq<int>, d2: seq<int>)
    requires Distinct(d1) && Distinct(d2) && |d1| == |d2|
    requires forall a :: 0 <= a < |d1| ==> d1[a] in d2
    ensures forall i :: i in d1 <==> i in d2
  {
    var s1 := set z | z in d1;
    var s2 := set z | z in d2;
    DistinctCard(d1);
    DistinctCard(d2);
    assert s1 <= s2;
    assert s2 == (s2 - s1) + s1;
    assert s1 == s2;
    forall i ensures i in d1 <==> i in d2 {
      assert i in d1 <==> i in s1;
      assert i in d2 <==> i in s2;
    }
  }

  /** Exchanging an index of `d1` outside `d2` for one of `d2` outside `d1` keeps a worst choice. */
  lemma ReplaceKeepsWorst(points: seq<int>, d1: seq<int>, d2: seq<int>, j: int, y: int)
    requires IsWorstChoice(points, d1) && IsWorstChoice(points, d2)
    requires 0 <= j < |d1| && d1[j] !in d2 && y in d2 && y !in d1
    ensures 0 <= d1[j] < |points| && 0 <= y < |points| && points[d1[j]] == points[y]
    ensures IsWorstChoice(points, d1[j := y])
  {
    var x := d1[j];
    var b :| 0 <= b < |d2| && d2[b] == y;
    assert points[x] <= points[d2[b]];
    assert points[y] <= points[d1[j]];
    var e := d1[j := y];
    ReplaceMembership(d1, j, y);
    forall a, i | 0 <= a < |e| && 0 <= i < |points| && i !in e
      ensures points[i] <= points[e[a]]
    {
      if a == j {
        if i != x {
          assert i !in d1;
          if i in d2 {
            assert points[i] <= points[d1[j]];
          } else {
            assert points[i] <= points[d2[b]];
          }
        }
      } else {
        var u := d1[a];
        if i == x {
          if u in d2 {
            var c :| 0 <= c < |d2| && d2[c] == u;
            assert points[x] <= points[d2[c]];
          } else {
            assert points[u] <= points[d2[b]];
            assert points[y] <= points[d1[a]];
          }
        } else {
          assert i !in d1;
        }
      }
    }
  }

  /** Two choices of equally many worst results leave the same total. */
  lemma {:induction false} WorstChoicesAgree(points: seq<int>, d1: seq<int>, d2: seq<int>)
    requires IsWorstChoice(points, d1) && IsWorstChoice(points, d2) && |d1| == |d2|
    ensures KeptTotal(points, d1) == KeptTotal(points, d2)
    decreases set a | 0 <= a < |d1| && d1[a] !in d2
  {
    if j :| 0 <= j < |d1| && d1[j] !in d2 {
      OutsideBothWays(d1, d2, d1[j]);
      var y :| y in d2 && y !in d1;
      ReplaceKeepsWorst(points, d1, d2, j, y);
      ReplaceKeptTotal(points, d1, j, y);
      var e := d1[j := y];
      var before := set a | 0 <= a < |d1| && d1[a] !in d2;
      var after := set a | 0 <= a < |e| && e[a] !in d2;
      assert after < before by {
        forall a | a in after ensures a in before {
          assert a != j;
        }
        assert j in before && j !in after;
      }
      WorstChoicesAgree(points, e, d2);
    } else {
      InsideSameMembers(d1, d2);
      KeptTotalMembership(points, d1, d2);
    }
  }

  /** Which of several tied races is dropped does not change the total: every
      valid discard choice of the same size keeps the same points. */
  lemma TotalIgnoresTieBreak(points: seq<int>, count: nat, d1: seq<int>, d2: seq<int>)
    requires IsDiscardSelection(points, count, d1) && IsDiscardSelection(points, count, d2)
    ensures KeptTotal(points, d1) == KeptTotal(points, d2)
  {
    forall a, b | 0 <= a < |d1| && 0 <= b < |d1| && a != b ensures d1[a] != d1[b] {
      if a < b { assert d1[a] < d1[b]; } else { assert d1[b] < d1[a]; }
    }
    forall a, b | 0 <= a < |d2| && 0 <= b < |d2| && a != b ensures d2[a] != d2[b] {
      if a < b { assert d2[a] < d2[b]; } else { assert d2[b] < d2[a]; }
    }
    WorstChoicesAgree(points, d1, d2);
  }

  // ---------------------------------------------------------------------------
  // A worked series
  // ---------------------------------------------------------------------------

  /** Six races with one bad result: that race is the one discarded. */
  lemma OneBadRaceDiscarded()
    ensures DiscardCount(6) == 1
    ensures Discards([1, 5, 1, 1, 1, 1], DiscardCount(6)) == [1]
  {
    DiscardsAreWorst([1, 5, 1, 1, 1, 1], 1);
    OnlyTheBadRace(Discards([1, 5, 1, 1, 1, 1], 1));
  }

  lemma OnlyTheBadRace(d: seq<int>)
    requires IsDiscardSelection([1, 5, 1, 1, 1, 1], 1, d)
    ensures d == [1]
  {
    var points := [1, 5, 1, 1, 1, 1];
    assert points[1] <= points[d[0]] || 1 in d;
  }

  /** ... and the total is the sum of the other five. */
  lemma OneBadRaceTotal()
    ensures KeptTotal([1, 5, 1, 1, 1, 1], [1]) == 5
  {
    var points := [1, 5, 1, 1, 1, 1];
    KeptTotalIsSumMinusDiscarded(points, [1]);
    assert [1, 5][..1] == [1];
    assert Sum([1, 5]) == 6;
    assert [1, 5, 1][..2] == [1, 5];
    assert Sum([1, 5, 1]) == 7;
    assert [1, 5, 1, 1][..3] == [1, 5, 1];
    assert Sum([1, 5, 1, 1]) == 8;
    assert [1, 5, 1, 1, 1][..4] == [1, 5, 1, 1];
    assert Sum([1, 5, 1, 1, 1]) == 9;
    assert points[..5] == [1, 5, 1, 1, 1];
  }
}
