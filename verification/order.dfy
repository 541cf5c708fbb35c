/** Python's ordering of `str` values and the `sorted` built-in over strings. */
module StringOrder {
  import opened Seqs

  /** `a <= b` for Python strings: lexicographic by code point, a proper prefix first. */
  predicate Le(a: string, b: string)
    decreases |a|
  {
    |a| == 0 || (|b| > 0 && (a[0] < b[0] || (a[0] == b[0] && Le(a[1..], b[1..]))))
  }

  lemma {:induction false} LeReflexive(a: string)
    ensures Le(a, a)
    decreases |a|
  {
    if |a| > 0 {
      LeReflexive(a[1..]);
    }
  }

  lemma {:induction false} LeTotal(a: string, b: string)
    ensures Le(a, b) || Le(b, a)
    decreases |a|
  {
    if |a| > 0 && |b| > 0 && a[0] == b[0] {
      LeTotal(a[1..], b[1..]);
    }
  }

  lemma {:induction false} LeAntisymmetric(a: string, b: string)
    requires Le(a, b) && Le(b, a)
    ensures a == b
    decreases |a|
  {
    if |a| > 0 {
      LeAntisymmetric(a[1..], b[1..]);
      assert a == [a[0]] + a[1..] && b == [b[0]] + b[1..];
    }
  }

  lemma {:induction false} LeTransitive(a: string, b: string, c: string)
    requires Le(a, b) && Le(b, c)
    ensures Le(a, c)
    decreases |a|
  {
    if |a| > 0 && a[0] == b[0] && b[0] == c[0] {
      LeTransitive(a[1..], b[1..], c[1..]);
    }
  }

  predicate Ascending(xs: seq<string>) {
    forall i, j :: 0 <= i < j < |xs| ==> Le(xs[i], xs[j])
  }

  /** Places `x` into the ascending sequence `xs`. */
  function Insert(x: string, xs: seq<string>): (r: seq<string>)
    requires Ascending(xs)
    ensures Ascending(r)
    ensures multiset(r) == multiset(xs) + multiset{x}
    decreases |xs|
  {
    if |xs| == 0 then [x]
    else if Le(x, xs[0]) then
      forall j | 0 <= j < |xs|
        ensures Le(x, xs[j])
      {
        LeReflexive(xs[0]);
        LeTransitive(x, xs[0], xs[j]);
      }
      [x] + xs
    else
      var rest := Insert(x, xs[1..]);
      LeTotal(x, xs[0]);
      assert xs == [xs[0]] + xs[1..];
      assert forall y :: y in multiset(rest) ==> Le(xs[0], y);
      forall j | 0 <= j < |rest|
        ensures Le(xs[0], rest[j])
      {
        assert rest[j] in multiset(rest);
      }
      [xs[0]] + rest
  }

  /** Python's `sorted` on strings: the same strings, in ascending order. */
  function Sort(xs: seq<string>): (r: seq<string>)
    ensures Ascending(r)
    ensures multiset(r) == multiset(xs)
    decreases |xs|
  {
    if |xs| == 0 then []
    else
      assert xs == xs[..|xs| - 1] + [xs[|xs| - 1]];
      Insert(xs[|xs| - 1], Sort(xs[..|xs| - 1]))
  }

  /** Only one ascending arrangement of a given multiset of strings exists, so
      the sorted order does not depend on the order of the input. */
  lemma {:induction false} AscendingUnique(a: seq<string>, b: seq<string>)
    requires Ascending(a) && Ascending(b)
    requires multiset(a) == multiset(b)
    ensures a == b
    decreases |a|
  {
    if |a| > 0 {
      SameHead(a, b);
      assert a == [a[0]] + a[1..] && b == [b[0]] + b[1..];
      assert multiset(a[1..]) == multiset(a) - multiset{a[0]};
      assert multiset(b[1..]) == multiset(b) - multiset{b[0]};
      AscendingUnique(a[1..], b[1..]);
    }
  }

  /** Two ascending arrangements of one multiset start with the same string. */
  lemma SameHead(a: seq<string>, b: seq<string>)
    requires Ascending(a) && Ascending(b)
    requires multiset(a) == multiset(b) && |a| > 0
    ensures |b| > 0 && a[0] == b[0]
  {
    assert |b| == |multiset(b)| == |multiset(a)| == |a|;
    assert a[0] in multiset(b) && b[0] in multiset(a);
    var i :| 0 <= i < |b| && b[i] == a[0];
    var j :| 0 <= j < |a| && a[j] == b[0];
    LeReflexive(a[0]);
    assert Le(b[0], a[0]) by { if i > 0 { assert Le(b[0], b[i]); } }
    assert Le(a[0], b[0]) by { if j > 0 { assert Le(a[0], a[j]); } }
    LeAntisymmetric(a[0], b[0]);
  }

  /** Sorting two iteration orders of the same set yields the same sequence,
      with no string twice. */
  lemma SortIgnoresOrder(xs: seq<string>, ys: seq<string>)
    requires Distinct(xs) && Distinct(ys)
    requires forall x :: x in xs <==> x in ys
    ensures Sort(xs) == Sort(ys)
    ensures Distinct(Sort(xs))
  {
    SameElemsSameMultiset(xs, ys);
    AscendingUnique(Sort(xs), Sort(ys));
    DistinctSorted(xs);
  }

  lemma DistinctSorted(xs: seq<string>)
    requires Distinct(xs)
    ensures Distinct(Sort(xs))
  {
    var r := Sort(xs);
    DistinctMultiset(xs);
    forall i, j | 0 <= i < j < |r|
      ensures r[i] != r[j]
    {
      if r[i] == r[j] {
        RepeatedCount(r, i, j);
      }
    }
  }

  lemma RepeatedCount<T>(r: seq<T>, i: nat, j: nat)
    requires i < j < |r| && r[i] == r[j]
    ensures multiset(r)[r[i]] >= 2
  {
    assert r == r[..j] + r[j..];
    assert r[i] in r[..j];
    assert r[j] in r[j..];
    assert multiset(r) == multiset(r[..j]) + multiset(r[j..]);
  }
}
