/** Option and Result, the two failure-carrying shapes the client's Rust code
    returns everywhere (`Option<T>` and `Result<T, E>`). */
module Wrappers {

  datatype Option<+T> = None | Some(value: T) {

    /** `unwrap_or`: the carried value, or `default` when there is none. */
    function GetOr(default: T): T {
      match this
      case Some(v) => v
      case None => default
    }

    /** `ok_or`: turns an absent value into the given error. */
    function ToResult<E>(error: E): Result<T, E> {
      match this
      case Some(v) => Ok(v)
      case None => Err(error)
    }
  }

  datatype Result<+T, +E> = Ok(value: T) | Err(error: E) {

    /** `.ok()`: forgets the error. */
    function ToOption(): Option<T> {
      match this
      case Ok(v) => Some(v)
      case Err(_) => None
    }
  }

  /** `iter().map(f).collect::<Result<Vec<_>, _>>()`: every value when all
      of `f`'s results are `Ok`, otherwise the error of the first one that
      is not. */
  function TryMap<X, T, E>(xs: seq<X>, f: X -> Result<T, E>): (r: Result<seq<T>, E>)
    ensures r.Ok? <==> forall i :: 0 <= i < |xs| ==> f(xs[i]).Ok?
    ensures r.Ok? ==> |r.value| == |xs| && forall i :: 0 <= i < |xs| ==> r.value[i] == f(xs[i]).value
    ensures r.Err? ==> exists i :: 0 <= i < |xs| && f(xs[i]) == Err(r.error) && forall j :: 0 <= j < i ==> f(xs[j]).Ok?
  {
    if xs == [] then Ok([])
    else
      match f(xs[0])
      case Err(e) => Err(e)
      case Ok(v) =>
        match TryMap(xs[1..], f)
        case Err(e) => Err(e)
        case Ok(vs) => Ok([v] + vs)
  }

  /** `f` fails on `xs[i]` and on no element before it. */
  predicate FirstErrAt<X, T, E>(xs: seq<X>, f: X -> Result<T, E>, i: int) {
    && 0 <= i < |xs|
    && f(xs[i]).Err?
    && forall j :: 0 <= j < i ==> f(xs[j]).Ok?
  }

  /** The first element `f` fails on decides the error `TryMap` returns. */
  lemma TryMapFirstErr<X, T, E>(xs: seq<X>, f: X -> Result<T, E>, i: int)
    requires FirstErrAt(xs, f, i)
    ensures TryMap(xs, f) == Err(f(xs[i]).error)
  {
    var r := TryMap(xs, f);
    var k :| 0 <= k < |xs| && f(xs[k]) == Err(r.error) && forall j :: 0 <= j < k ==> f(xs[j]).Ok?;
    assert !(k < i) && !(i < k);
  }

  /** When `f` maps each element to the matching `Ok`, `TryMap` collects
      exactly those values. */
  lemma TryMapAllOk<X, T, E>(xs: seq<X>, f: X -> Result<T, E>, want: seq<T>)
    requires |xs| == |want| && forall i :: 0 <= i < |xs| ==> f(xs[i]) == Ok(want[i])
    ensures TryMap(xs, f) == Ok(want)
  {
    assert forall i :: 0 <= i < |xs| ==> f(xs[i]).Ok?;
    var r := TryMap(xs, f);
    assert forall i :: 0 <= i < |xs| ==> r.value[i] == want[i];
    assert r.value == want;
  }

  /** `iter().flat_map(f)`: the sequences `f` gives for each element, one
      after the other. */
  function FlatMap<X, T>(xs: seq<X>, f: X -> seq<T>): seq<T> {
    if xs == [] then [] else f(xs[0]) + FlatMap(xs[1..], f)
  }

  /** Flat-mapping two runs of elements is flat-mapping each. */
  lemma {:induction false} FlatMapAppend<X, T>(a: seq<X>, b: seq<X>, f: X -> seq<T>)
    ensures FlatMap(a + b, f) == FlatMap(a, f) + FlatMap(b, f)
    decreases |a|
  {
    if a == [] {
      assert a + b == b;
    } else {
      assert (a + b)[0] == a[0];
      assert (a + b)[1..] == a[1..] + b;
      FlatMapAppend(a[1..], b, f);
    }
  }

  /** `iter().position(p)`: the index of the first element satisfying `p`. */
  function Position<X>(xs: seq<X>, p: X -> bool): (r: Option<nat>)
    ensures r.Some? ==> r.value < |xs| && p(xs[r.value])
    ensures r.Some? ==> forall j :: 0 <= j < r.value ==> !p(xs[j])
    ensures r.None? ==> forall j :: 0 <= j < |xs| ==> !p(xs[j])
  {
    if xs == [] then None
    else if p(xs[0]) then Some(0)
    else
      match Position(xs[1..], p)
      case None => None
      case Some(i) => Some(i + 1)
  }

  /** `position` is the first index satisfying `p`, whatever finds it. */
  lemma PositionAt<X>(xs: seq<X>, p: X -> bool, k: nat)
    requires k < |xs| && p(xs[k]) && forall j :: 0 <= j < k ==> !p(xs[j])
    ensures Position(xs, p) == Some(k)
  {
    var r := Position(xs, p);
    assert r.Some?;
    assert !(r.value < k) && !(k < r.value);
  }
}
