/** How large finite sets are. */
module FiniteSets {

  ghost function IdsBelow(n: nat): set<int> {
    if n == 0 then {} else IdsBelow(n - 1) + {n - 1}
  }

  lemma {:induction false} IdsBelowMembers(n: nat)
    ensures |IdsBelow(n)| == n
    ensures forall x :: x in IdsBelow(n) <==> 0 <= x < n
  {
    if n > 0 {
      IdsBelowMembers(n - 1);
    }
  }

  lemma {:induction false} SubsetSize<T>(a: set<T>, b: set<T>)
    requires a <= b
    ensures |a| <= |b|
  {
    if a != {} {
      var x :| x in a;
      SubsetSize(a - {x}, b - {x});
    }
  }

  lemma LargeSetsMeet<T>(u: set<T>, a: set<T>, b: set<T>) returns (x: T)
    requires a <= u && b <= u && |a| + |b| > |u|
    ensures x in a && x in b
  {
    SubsetSize(a + b, u);
    assert |a + b| == |a| + |b| - |a * b|;
    assert a * b != {};
    x :| x in a * b;
  }
}
