/** Finite sets and their sizes. */
module FiniteSets {

  /** The numbers 0, 1, ..., n - 1: the lanes of a warp, or the blocks of a function. */
  function Below(n: nat): (r: set<nat>)
    ensures forall k: nat :: k in r <==> k < n
  {
    if n == 0 then {} else Below(n - 1) + {n - 1}
  }

  lemma SubsetSize<T>(a: set<T>, b: set<T>)
    requires a <= b
    ensures |b| == |a| + |b - a|
    ensures |a| == |b| ==> a == b
  {
    assert b == a + (b - a);
  }

  lemma TwoElements<T>(s: set<T>, x: T, y: T)
    requires x in s && y in s && x != y
    ensures 2 <= |s| && (|s| == 2 ==> s == {x, y})
  {
    assert |{x, y}| == 2;
    SubsetSize({x, y}, s);
  }
}
