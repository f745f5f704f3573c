/** Sequences without repetitions. */
module Sequences {

  predicate Distinct(xs: seq<int>) { forall i, j | 0 <= i < j < |xs| :: xs[i] != xs[j] }

  function Members(xs: seq<int>): set<int> { set x | x in xs }

  lemma RestOfDistinct(xs: seq<int>)
    requires Distinct(xs) && xs != []
    ensures Distinct(xs[1..]) && forall x :: x in xs[1..] <==> x in xs && x != xs[0]
  {
    assert xs == [xs[0]] + xs[1..];
  }

  lemma DistinctCons(xs: seq<int>)
    requires xs != []
    ensures Distinct(xs) <==> xs[0] !in xs[1..] && Distinct(xs[1..])
  {
    var rest := xs[1..];
    if Distinct(xs) {
      RestOfDistinct(xs);
    } else {
      var i, j :| 0 <= i < j < |xs| && xs[i] == xs[j];
      assert xs[j] == rest[j - 1];
      if i > 0 { assert rest[i - 1] == rest[j - 1]; }
    }
  }

  // ----- how many there can be -----

  function Below(n: nat): set<int> { if n == 0 then {} else Below(n - 1) + {n - 1} }

  lemma {:induction false} SizeBelow(n: nat)
    ensures |Below(n)| == n && forall i :: i in Below(n) <==> 0 <= i < n
  {
    if n > 0 { SizeBelow(n - 1); }
  }

  lemma {:induction false} SizeOfDistinct(xs: seq<int>)
    requires Distinct(xs)
    ensures |Members(xs)| == |xs|
  {
    if xs == [] {
      assert Members(xs) == {};
    } else {
      RestOfDistinct(xs);
      SizeOfDistinct(xs[1..]);
      assert Members(xs) == Members(xs[1..]) + {xs[0]};
    }
  }

  lemma CardinalityMonotone(a: set<int>, b: set<int>)
    requires a <= b
    ensures |a| <= |b|
  {
    assert b == a + (b - a);
  }

  /** Different numbers below `n` are at most `n`. */
  lemma DistinctBelow(xs: seq<int>, n: nat)
    requires Distinct(xs) && forall x | x in xs :: 0 <= x < n
    ensures |xs| <= n
  {
    SizeBelow(n);
    SizeOfDistinct(xs);
    CardinalityMonotone(Members(xs), Below(n));
  }
}
