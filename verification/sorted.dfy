/** `sort_unstable` followed by `dedup`, on numbers: the result is the
    strictly increasing list of the distinct values, which the set of
    values alone determines. */
module SortedSets {

  /** Every element smaller than the next: sorted, with no repeats. */
  predicate Increasing(s: seq<nat>) {
    forall i, j :: 0 <= i < j < |s| ==> s[i] < s[j]
  }

  /** The values a list holds. */
  function Elems(s: seq<nat>): (e: set<nat>)
    ensures forall x :: x in e <==> x in s
  {
    set x | x in s
  }

  /** Puts `x` into its place in a strictly increasing list, unless it is
      already there. */
  function Insert(x: nat, ys: seq<nat>): (zs: seq<nat>)
    requires Increasing(ys)
    ensures Increasing(zs)
    ensures forall v :: v in zs <==> v == x || v in ys
  {
    if ys == [] then [x]
    else if x < ys[0] then [x] + ys
    else if x == ys[0] then ys
    else
      var rest := Insert(x, ys[1..]);
      assert forall v :: v in ys[1..] ==> ys[0] < v;
      ConsIncreasing(ys[0], rest);
      [ys[0]] + rest
  }

  /** A value below every element of a strictly increasing list may go in
      front of it. */
  lemma ConsIncreasing(x: nat, s: seq<nat>)
    requires Increasing(s) && forall v :: v in s ==> x < v
    ensures Increasing([x] + s)
  {
    var t := [x] + s;
    forall i, j | 0 <= i < j < |t|
      ensures t[i] < t[j]
    {
      assert t[j] == s[j - 1] && s[j - 1] in s;
      if i > 0 {
        assert t[i] == s[i - 1];
      }
    }
  }

  /** The head of a strictly increasing list is its least value. */
  lemma HeadIsLeast(s: seq<nat>, x: nat)
    requires Increasing(s) && x in s
    ensures s[0] <= x
  {
    var k :| 0 <= k < |s| && s[k] == x;
    assert k == 0 || s[0] < s[k];
  }

  /** `v.sort_unstable(); v.dedup();`: the distinct values of `xs`, in
      increasing order. */
  function SortDedup(xs: seq<nat>): (ys: seq<nat>)
    ensures Increasing(ys)
    ensures Elems(ys) == Elems(xs)
  {
    if xs == [] then []
    else
      var ys := Insert(xs[|xs| - 1], SortDedup(xs[..|xs| - 1]));
      assert xs == xs[..|xs| - 1] + [xs[|xs| - 1]];
      ys
  }

  /** Two strictly increasing lists with the same values are the same list:
      sorting then removing repeats leaves nothing to choose, whatever the
      order of the input and however unstable the sort. */
  lemma {:induction false} IncreasingUnique(a: seq<nat>, b: seq<nat>)
    requires Increasing(a) && Increasing(b)
    requires Elems(a) == Elems(b)
    ensures a == b
    decreases |a|
  {
    IncreasingCard(a);
    IncreasingCard(b);
    if a != [] {
      assert a[0] == b[0] by {
        assert b[0] in a && a[0] in b;
        HeadIsLeast(a, b[0]);
        HeadIsLeast(b, a[0]);
      }
      assert Elems(a[1..]) == Elems(b[1..]) by {
        forall x | x in a[1..]
          ensures x in b[1..]
        {
          assert x in b && x != b[0];
        }
        forall x | x in b[1..]
          ensures x in a[1..]
        {
          assert x in a && x != a[0];
        }
      }
      IncreasingUnique(a[1..], b[1..]);
      assert a == [a[0]] + a[1..] && b == [b[0]] + b[1..];
    }
  }

  /** The number of values left is the number of distinct values. */
  lemma {:induction false} IncreasingCard(s: seq<nat>)
    requires Increasing(s)
    ensures |Elems(s)| == |s|
  {
    if s != [] {
      IncreasingCard(s[1..]);
      assert Elems(s) == {s[0]} + Elems(s[1..]);
      assert s[0] !in Elems(s[1..]);
    }
  }

  /** Sorting and removing repeats does not depend on the input's order or
      repeats: lists with the same values give the same result. */
  lemma SortDedupCanonical(xs: seq<nat>, ys: seq<nat>)
    requires Elems(xs) == Elems(ys)
    ensures SortDedup(xs) == SortDedup(ys)
  {
    IncreasingUnique(SortDedup(xs), SortDedup(ys));
  }

  /** A list that is already strictly increasing is left as it is. */
  lemma SortDedupIncreasing(xs: seq<nat>)
    requires Increasing(xs)
    ensures SortDedup(xs) == xs
  {
    IncreasingUnique(SortDedup(xs), xs);
  }
}
