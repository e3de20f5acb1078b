/** The commit candidate: the largest index that is stored on a majority of the servers. */
module Commit {
  import opened FiniteSets
  import opened Permutations

  function Majority(n: nat): nat {
    n / 2 + 1
  }

  /** The servers that store the entry at an index, as far as the leader knows. */
  ghost function StoredOn(stored: seq<int>, x: int): set<int> {
    set i: int | 0 <= i < |stored| && stored[i] >= x
  }

  /** `x` is stored on a majority, and no larger index is. */
  ghost predicate IsCandidate(stored: seq<int>, x: int) {
    && |StoredOn(stored, x)| >= Majority(|stored|)
    && forall y :: x < y ==> |StoredOn(stored, y)| < Majority(|stored|)
  }

  /** What the library's sort of integers promises. */
  ghost predicate SortsInts(xs: seq<int>, sorted: seq<int>) {
    && multiset(sorted) == multiset(xs)
    && forall i, j :: 0 <= i < j < |sorted| ==> sorted[i] <= sorted[j]
  }

  /** Fewer servers than that do not do: two groups of them may share no server. */
  lemma FewerMayNotMeet(n: nat, k: nat) returns (a: set<int>, b: set<int>)
    requires k < Majority(n)
    ensures a <= IdsBelow(n) && b <= IdsBelow(n) && |a| == |b| == k && a !! b
  {
    hide IdsBelow;
    IdsBelowMembers(n);
    IdsBelowMembers(k);
    IdsBelowMembers(2 * k);
    a, b := IdsBelow(k), IdsBelow(2 * k) - IdsBelow(k);
    assert 2 * k <= n;
    forall x | x in IdsBelow(2 * k)
      ensures x in IdsBelow(n)
    {
    }
    forall x | x in a
      ensures x in IdsBelow(2 * k)
    {
    }
    assert |b| == |IdsBelow(2 * k)| - |a|;
  }

  function CountAtLeast(xs: seq<int>, x: int): nat {
    if xs == [] then 0 else CountAtLeast(xs[..|xs| - 1], x) + (if xs[|xs| - 1] >= x then 1 else 0)
  }

  lemma {:induction false} CountIsCardinality(xs: seq<int>, x: int)
    ensures |StoredOn(xs, x)| == CountAtLeast(xs, x)
  {
    if xs == [] {
      assert StoredOn(xs, x) == {};
    } else {
      var n := |xs| - 1;
      CountIsCardinality(xs[..n], x);
      assert StoredOn(xs, x) == StoredOn(xs[..n], x) + (if xs[n] >= x then {n} else {});
    }
  }

  lemma {:induction false} CountWithout(xs: seq<int>, k: int, x: int)
    requires 0 <= k < |xs|
    ensures CountAtLeast(xs, x) == CountAtLeast(Without(xs, k), x) + (if xs[k] >= x then 1 else 0)
  {
    var n := |xs| - 1;
    if k == n {
      assert Without(xs, k) == xs[..n];
    } else {
      CountWithout(xs[..n], k, x);
      var w := Without(xs, k);
      assert w[..|w| - 1] == Without(xs[..n], k);
    }
  }

  /** Counting does not depend on the order. */
  lemma {:induction false} CountOfSorted(xs: seq<int>, ys: seq<int>, x: int)
    requires multiset(xs) == multiset(ys)
    ensures CountAtLeast(xs, x) == CountAtLeast(ys, x) && |xs| == |ys|
  {
    assert |multiset(xs)| == |multiset(ys)|;
    if xs != [] {
      var n := |xs| - 1;
      assert xs == xs[..n] + [xs[n]];
      assert xs[n] in multiset(ys);
      var k :| 0 <= k < |ys| && ys[k] == xs[n];
      SameElementsWithout(xs[..n], xs[n], ys, k);
      CountOfSorted(xs[..n], Without(ys, k), x);
      CountWithout(ys, k, x);
    }
  }

  /** In a sorted sequence, everything from `k` on is at least its element `k`. */
  lemma {:induction false} CountSortedSuffix(sorted: seq<int>, k: nat, x: int)
    requires forall i, j :: 0 <= i < j < |sorted| ==> sorted[i] <= sorted[j]
    requires k < |sorted|
    ensures x <= sorted[k] ==> CountAtLeast(sorted, x) >= |sorted| - k
    ensures sorted[k] < x ==> CountAtLeast(sorted, x) < |sorted| - k
  {
    var n := |sorted| - 1;
    if k == n {
      CountBounds(sorted[..n], x);
      if sorted[n] < x {
        NoneAtLeast(sorted[..n], x);
      }
    } else {
      CountSortedSuffix(sorted[..n], k, x);
    }
  }

  lemma {:induction false} NoneAtLeast(xs: seq<int>, x: int)
    requires forall i :: 0 <= i < |xs| ==> xs[i] < x
    ensures CountAtLeast(xs, x) == 0
  {
    if xs != [] {
      NoneAtLeast(xs[..|xs| - 1], x);
    }
  }

  lemma {:induction false} CountBounds(xs: seq<int>, x: int)
    ensures CountAtLeast(xs, x) <= |xs|
  {
    if xs != [] {
      CountBounds(xs[..|xs| - 1], x);
    }
  }

  /** The element at `(n + 1) / 2 - 1` of the sorted match indexes is the candidate, for every number of servers. */
  lemma MiddleIsCandidate(stored: seq<int>, sorted: seq<int>)
    requires SortsInts(stored, sorted) && |stored| >= 1
    ensures |sorted| == |stored| && IsCandidate(stored, sorted[(|stored| + 1) / 2 - 1])
  {
    CountOfSorted(stored, sorted, 0);
    var n := |stored|;
    var k := (n + 1) / 2 - 1;
    assert n - k == Majority(n);
    forall y
      ensures |StoredOn(stored, y)| == CountAtLeast(sorted, y)
    {
      CountIsCardinality(stored, y);
      CountOfSorted(stored, sorted, y);
    }
    forall y
      ensures y <= sorted[k] ==> CountAtLeast(sorted, y) >= n - k
      ensures sorted[k] < y ==> CountAtLeast(sorted, y) < n - k
    {
      CountSortedSuffix(sorted, k, y);
    }
  }

  lemma SomeStored(stored: seq<int>, x: int) returns (i: int)
    requires IsCandidate(stored, x)
    ensures 0 <= i < |stored| && stored[i] >= x
  {
    assert StoredOn(stored, x) != {};
    i :| i in StoredOn(stored, x);
  }

  lemma CandidateUnique(stored: seq<int>, x: int, y: int)
    requires IsCandidate(stored, x) && IsCandidate(stored, y)
    ensures x == y
  {
  }

  /** Two majorities of the servers share one, so a majority that stores an entry meets every majority of votes. */
  lemma MajoritiesMeet(n: nat, a: set<int>, b: set<int>)
    requires forall i :: i in a || i in b ==> 0 <= i < n
    requires |a| >= Majority(n) && |b| >= Majority(n)
    ensures exists i :: i in a && i in b
  {
    IdsBelowMembers(n);
    var ids := IdsBelow(n);
    forall i | i in a || i in b
      ensures i in ids
    {
    }
    assert a <= ids && b <= ids;
    var i := LargeSetsMeet(ids, a, b);
  }
}
