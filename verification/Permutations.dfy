/** Sequences that hold the same elements. */
module Permutations {
  import opened Linearizability

  lemma {:induction false} DistinctCount<T>(s: seq<T>, x: T)
    requires Distinct(s)
    ensures multiset(s)[x] <= 1
  {
    if s != [] {
      var front, last := s[..|s| - 1], s[|s| - 1];
      assert s == front + [last];
      DistinctCount(front, x);
      assert last !in front;
      assert multiset(front)[last] == 0;
    }
  }

  lemma RepeatedCount<T>(s: seq<T>, p: int, q: int)
    requires 0 <= p < q < |s| && s[p] == s[q]
    ensures multiset(s)[s[p]] >= 2
  {
    var front, back := s[..q], s[q..];
    assert s == front + back;
    assert front[p] == s[p] && back[0] == s[q];
    assert s[p] in multiset(front) && s[p] in multiset(back);
  }

  lemma SameElementsDistinct<T>(s: seq<T>, t: seq<T>)
    requires multiset(s) == multiset(t) && Distinct(s)
    ensures Distinct(t)
  {
    forall p, q | 0 <= p < q < |t|
      ensures t[p] != t[q]
    {
      DistinctCount(s, t[p]);
      if t[p] == t[q] {
        RepeatedCount(t, p, q);
      }
    }
  }

  /** The elements of `xs` at the positions in `s`. */
  function Pick<T>(xs: seq<T>, s: seq<int>): seq<T>
    requires forall k :: 0 <= k < |s| ==> 0 <= s[k] < |xs|
  {
    seq(|s|, k requires 0 <= k < |s| => xs[s[k]])
  }

  /** `s` lists every position below `n` once. */
  ghost predicate IsPermutation(s: seq<int>, n: int) {
    && |s| == n && Distinct(s)
    && (forall k :: 0 <= k < |s| ==> 0 <= s[k] < n)
    && (forall x :: 0 <= x < n ==> x in s)
  }

  function Without<T>(s: seq<T>, k: int): seq<T>
    requires 0 <= k < |s|
  {
    s[..k] + s[k + 1..]
  }

  lemma WithoutMultiset<T>(s: seq<T>, k: int)
    requires 0 <= k < |s|
    ensures multiset(s) == multiset(Without(s, k)) + multiset{s[k]}
  {
    assert s == s[..k] + ([s[k]] + s[k + 1..]);
  }

  lemma WithoutPermutation(s: seq<int>, k: int, n: int)
    requires IsPermutation(s, n) && 0 < n && 0 <= k < n && s[k] == n - 1
    ensures IsPermutation(Without(s, k), n - 1)
  {
    var r := Without(s, k);
    forall x | 0 <= x < n - 1
      ensures x in r
    {
      assert x in s;
      var j :| 0 <= j < n && s[j] == x;
      assert r[if j < k then j else j - 1] == x;
    }
  }

  lemma PickWithout<T>(xs: seq<T>, s: seq<int>, k: int)
    requires IsPermutation(s, |xs|) && 0 <= k < |xs| && s[k] == |xs| - 1
    requires IsPermutation(Without(s, k), |xs| - 1)
    ensures multiset(Pick(xs, s)) == multiset(Pick(xs[..|xs| - 1], Without(s, k))) + multiset{xs[|xs| - 1]}
  {
    assert Without(Pick(xs, s), k) == Pick(xs[..|xs| - 1], Without(s, k));
    hide Without;
    WithoutMultiset(Pick(xs, s), k);
  }

  /** Reordering keeps the elements. */
  lemma {:induction false} PermutationKeepsElements<T>(xs: seq<T>, s: seq<int>)
    requires IsPermutation(s, |xs|)
    ensures multiset(Pick(xs, s)) == multiset(xs)
  {
    var n := |xs|;
    if n > 0 {
      assert n - 1 in s;
      var k :| 0 <= k < n && s[k] == n - 1;
      var r, front := Without(s, k), xs[..n - 1];
      WithoutPermutation(s, k, n);
      PermutationKeepsElements(front, r);
      hide Without, Distinct;
      PickWithout(xs, s, k);
      assert xs == front + [xs[n - 1]];
    }
  }

  lemma InsertPermutation(r: seq<int>, k: int, n: int)
    requires IsPermutation(r, n) && 0 <= k <= n
    ensures IsPermutation(r[..k] + [n] + r[k..], n + 1)
  {
    var s := r[..k] + [n] + r[k..];
    forall x | 0 <= x < n + 1
      ensures x in s
    {
      if x < n {
        assert x in r;
        var j :| 0 <= j < n && r[j] == x;
        assert s[if j < k then j else j + 1] == x;
      } else {
        assert s[k] == x;
      }
    }
  }

  lemma SameElementsWithout<T>(front: seq<T>, last: T, ys: seq<T>, k: int)
    requires multiset(front + [last]) == multiset(ys) && 0 <= k < |ys| && ys[k] == last
    ensures multiset(front) == multiset(Without(ys, k))
  {
    WithoutMultiset(ys, k);
    assert multiset(front) == multiset(front + [last]) - multiset{last};
    assert multiset(Without(ys, k)) == multiset(ys) - multiset{last};
  }

  /** Two sequences with the same elements differ by a reordering. */
  lemma {:induction false} SameElementsPermuted<T>(xs: seq<T>, ys: seq<T>) returns (s: seq<int>)
    requires multiset(xs) == multiset(ys)
    ensures IsPermutation(s, |xs|) && Pick(xs, s) == ys
  {
    var n := |xs|;
    assert |multiset(xs)| == |multiset(ys)|;
    if n == 0 {
      s := [];
    } else {
      var last, front := xs[n - 1], xs[..n - 1];
      assert xs == front + [last];
      assert last in multiset(ys);
      var k :| 0 <= k < n && ys[k] == last;
      SameElementsWithout(front, last, ys, k);
      var w := Without(ys, k);
      var r := SameElementsPermuted(front, w);
      hide Without, Distinct;
      InsertPermutation(r, k, n - 1);
      s := r[..k] + [n - 1] + r[k..];
      InsertedPick(xs, ys, r, k);
    }
  }

  lemma InsertedPick<T>(xs: seq<T>, ys: seq<T>, r: seq<int>, k: nat)
    requires |xs| == |ys| && k < |ys| && ys[k] == xs[|xs| - 1]
    requires IsPermutation(r, |xs| - 1) && Pick(xs[..|xs| - 1], r) == Without(ys, k)
    requires IsPermutation(r[..k] + [|xs| - 1] + r[k..], |xs|)
    ensures Pick(xs, r[..k] + [|xs| - 1] + r[k..]) == ys
  {
    var n := |xs| - 1;
    var s, front, w := r[..k] + [n] + r[k..], xs[..n], Without(ys, k);
    forall j | 0 <= j <= n
      ensures xs[s[j]] == ys[j]
    {
      if j < k {
        assert s[j] == r[j] && Pick(front, r)[j] == w[j];
      } else if k < j {
        assert s[j] == r[j - 1] && Pick(front, r)[j - 1] == w[j - 1];
      }
    }
  }
}
