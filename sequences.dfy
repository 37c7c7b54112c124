// Facts about sequences without repeated elements, shared by the race model
// and the discard rules.

module Sequences {

  /** No element occurs twice. */
  ghost predicate Distinct<T>(s: seq<T>)
  {
    forall i, j :: 0 <= i < |s| && 0 <= j < |s| && i != j ==> s[i] != s[j]
  }

  /** A sequence without repeats has as many members as elements. */
  lemma {:induction false} DistinctCard<T>(s: seq<T>)
    requires Distinct(s)
    ensures |set x | x in s| == |s|
    decreases |s|
  {
    if s != [] {
      var front := s[..|s| - 1];
      DistinctCard(front);
      assert (set x | x in s) == (set x | x in front) + {s[|s| - 1]};
      assert s[|s| - 1] !in front;
    }
  }

  /** A sequence has at most as many members as elements. */
  lemma {:induction false} CardAtMostLength<T>(s: seq<T>)
    ensures |set x | x in s| <= |s|
    decreases |s|
  {
    if s != [] {
      var front := s[..|s| - 1];
      CardAtMostLength(front);
      assert (set x | x in s) == (set x | x in front) + {s[|s| - 1]};
    }
  }

  lemma {:induction false} SubsetCard<T>(a: set<T>, b: set<T>)
    requires a <= b
    ensures |a| <= |b|
    decreases a
  {
    if a != {} {
      var x :| x in a;
      SubsetCard(a - {x}, b - {x});
    }
  }

  /** A sequence without repeats whose elements all occur in `b` is no longer than `b`. */
  lemma DistinctWithin<T>(a: seq<T>, b: seq<T>)
    requires Distinct(a)
    requires forall x :: x in a ==> x in b
    ensures |a| <= |b|
  {
    DistinctCard(a);
    CardAtMostLength(b);
    SubsetCard(set x | x in a, set x | x in b);
  }

  /** Every element of `s` passed through `f`, in order. */
  function Mapped<T, U>(s: seq<T>, f: T -> U): (r: seq<U>)
    ensures |r| == |s|
    ensures forall i :: 0 <= i < |s| ==> r[i] == f(s[i])
  {
    seq(|s|, i requires 0 <= i < |s| => f(s[i]))
  }

  /** Mapping one more element appends its image. */
  lemma MappedStep<T, U>(s: seq<T>, f: T -> U)
    requires s != []
    ensures Mapped(s, f) == Mapped(s[..|s| - 1], f) + [f(s[|s| - 1])]
  {
    var front := s[..|s| - 1];
    assert forall i :: 0 <= i < |front| ==> front[i] == s[i];
  }

  /** Some element of `s` satisfies `p`. */
  predicate Any<T>(s: seq<T>, p: T -> bool)
  {
    exists i :: 0 <= i < |s| && p(s[i])
  }

  /** One more element satisfies `p` in the extended sequence exactly when it or an earlier one does. */
  lemma AnyStep<T>(s: seq<T>, p: T -> bool)
    requires s != []
    ensures Any(s, p) == (Any(s[..|s| - 1], p) || p(s[|s| - 1]))
  {
    var front := s[..|s| - 1];
    if Any(s, p) && !p(s[|s| - 1]) {
      var i :| 0 <= i < |s| && p(s[i]);
      assert i < |front| && front[i] == s[i];
    }
    if Any(front, p) {
      var i :| 0 <= i < |front| && p(front[i]);
      assert s[i] == front[i];
    }
  }
}

