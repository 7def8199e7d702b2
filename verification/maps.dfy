/** Filling a hash map from key-value pairs in order (`collect`, or a loop
    of `insert`s): a later pair for the same key replaces the earlier
    one. */
module Maps {

  /** `pairs[i]` is the last pair with key `k`. */
  predicate LastFor<K(==), V>(pairs: seq<(K, V)>, k: K, i: int) {
    0 <= i < |pairs| && pairs[i].0 == k && forall j :: i < j < |pairs| ==> pairs[j].0 != k
  }

  /** Some pair of `pairs` has key `k`. */
  predicate Names<K(==), V>(pairs: seq<(K, V)>, k: K) {
    exists i :: 0 <= i < |pairs| && pairs[i].0 == k
  }

  /** `m` with every pair of `pairs` inserted, first to last. */
  function InsertAll<K(==), V>(m: map<K, V>, pairs: seq<(K, V)>): (r: map<K, V>)
    decreases |pairs|
  {
    if pairs == [] then m
    else InsertAll(m, pairs[..|pairs| - 1])[pairs[|pairs| - 1].0 := pairs[|pairs| - 1].1]
  }

  /** The keys are the old keys and the pairs' keys; a key no pair names
      keeps its old value, and any other holds the value of its last
      pair. */
  lemma {:induction false} InsertAllSpec<K, V>(m: map<K, V>, pairs: seq<(K, V)>)
    ensures forall k :: k in InsertAll(m, pairs) <==> k in m || Names(pairs, k)
    ensures forall k :: k in m && !Names(pairs, k) ==> InsertAll(m, pairs)[k] == m[k]
    ensures forall k, i :: LastFor(pairs, k, i) ==> k in InsertAll(m, pairs) && InsertAll(m, pairs)[k] == pairs[i].1
    decreases |pairs|
  {
    if pairs != [] {
      var init, last := pairs[..|pairs| - 1], pairs[|pairs| - 1];
      InsertAllSpec(m, init);
      var before := InsertAll(m, init);
      assert InsertAll(m, pairs) == before[last.0 := last.1];
      assert forall i :: 0 <= i < |init| ==> init[i] == pairs[i];
      forall k, i | LastFor(pairs, k, i) && i < |init|
        ensures InsertAll(m, pairs)[k] == pairs[i].1
      {
        assert LastFor(init, k, i);
        assert k in before;
      }
      forall k | Names(init, k)
        ensures Names(pairs, k)
      {
        var i :| 0 <= i < |init| && init[i].0 == k;
        assert pairs[i].0 == k;
      }
      forall k | Names(pairs, k) && k != last.0
        ensures Names(init, k)
      {
        var i :| 0 <= i < |pairs| && pairs[i].0 == k;
        assert init[i].0 == k;
      }
      assert Names(pairs, last.0) by {
        assert pairs[|pairs| - 1].0 == last.0;
      }
    }
  }

  /** `collect::<HashMap<_, _>>()`: the map of the pairs alone. */
  function Collect<K(==), V>(pairs: seq<(K, V)>): map<K, V> {
    InsertAll(map[], pairs)
  }

  /** The keys of a collected map are exactly the pairs' keys, and each
      holds the value of its last pair. */
  lemma CollectSpec<K, V>(pairs: seq<(K, V)>)
    ensures forall k :: k in Collect(pairs) <==> Names(pairs, k)
    ensures forall k, i :: LastFor(pairs, k, i) ==> k in Collect(pairs) && Collect(pairs)[k] == pairs[i].1
  {
    InsertAllSpec(map[], pairs);
  }

  /** Each value paired with its key, in order. */
  function KeyedBy<K, V>(vs: seq<V>, key: V -> K): (ps: seq<(K, V)>)
    ensures |ps| == |vs| && forall i :: 0 <= i < |vs| ==> ps[i] == (key(vs[i]), vs[i])
  {
    seq(|vs|, i requires 0 <= i < |vs| => (key(vs[i]), vs[i]))
  }

  /** `vs[i]` is the last value with its key. */
  predicate LastWith<K(==), V>(vs: seq<V>, key: V -> K, i: int) {
    0 <= i < |vs| && forall j :: i < j < |vs| ==> key(vs[j]) != key(vs[i])
  }

  /** `into_iter().map(|v| (key(v), v)).collect()`. */
  function IndexBy<K, V>(vs: seq<V>, key: V -> K): map<K, V> {
    Collect(KeyedBy(vs, key))
  }

  /** The keys are exactly the values' keys, and each key holds the last
      value that has it. */
  lemma IndexBySpec<K, V>(vs: seq<V>, key: V -> K)
    ensures forall k :: k in IndexBy(vs, key) <==> exists i :: 0 <= i < |vs| && key(vs[i]) == k
    ensures forall i :: LastWith(vs, key, i) ==> key(vs[i]) in IndexBy(vs, key) && IndexBy(vs, key)[key(vs[i])] == vs[i]
  {
    var ps := KeyedBy(vs, key);
    CollectSpec(ps);
    forall k | k in IndexBy(vs, key)
      ensures exists i :: 0 <= i < |vs| && key(vs[i]) == k
    {
      assert Names(ps, k);
      var i :| 0 <= i < |ps| && ps[i].0 == k;
      assert key(vs[i]) == k;
    }
    forall k, i | 0 <= i < |vs| && key(vs[i]) == k
      ensures k in IndexBy(vs, key)
    {
      assert ps[i].0 == k;
      assert Names(ps, k);
    }
    forall i | LastWith(vs, key, i)
      ensures key(vs[i]) in IndexBy(vs, key) && IndexBy(vs, key)[key(vs[i])] == vs[i]
    {
      assert forall j :: i < j < |ps| ==> ps[j].0 == key(vs[j]);
      assert LastFor(ps, key(vs[i]), i);
    }
  }
}
