/** Small facts about sequences used as iteration orders of Python sets. */
module Seqs {

  /** No element occurs twice: the shape of an iteration over a Python set. */
  predicate Distinct<T(==)>(xs: seq<T>) {
    forall i, j :: 0 <= i < j < |xs| ==> xs[i] != xs[j]
  }

  /** The set of elements of a sequence. */
  function Elems<T>(xs: seq<T>): set<T> {
    set x | x in xs
  }

  /** A duplicate-free sequence holds each of its elements exactly once. */
  lemma {:induction false} DistinctMultiset<T>(xs: seq<T>)
    requires Distinct(xs)
    ensures forall x :: multiset(xs)[x] == if x in xs then 1 else 0
  {
    if |xs| > 0 {
      var n := |xs| - 1;
      assert xs == xs[..n] + [xs[n]];
      DistinctMultiset(xs[..n]);
      assert xs[n] !in xs[..n];
    }
  }

  /** Two duplicate-free orders of the same set are permutations of each other. */
  lemma SameElemsSameMultiset<T>(xs: seq<T>, ys: seq<T>)
    requires Distinct(xs) && Distinct(ys)
    requires forall x :: x in xs <==> x in ys
    ensures multiset(xs) == multiset(ys)
  {
    DistinctMultiset(xs);
    DistinctMultiset(ys);
    assert forall x :: multiset(xs)[x] == multiset(ys)[x];
  }

  lemma NoMemberMeansEmpty<T>(xs: seq<T>)
    requires forall x :: x !in xs
    ensures xs == []
  {
    forall x
      ensures multiset(xs)[x] == 0
    {
      assert x !in xs;
    }
    assert multiset(xs) == multiset{};
    assert |xs| == |multiset(xs)|;
  }
}
