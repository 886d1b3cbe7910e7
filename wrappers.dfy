/** Option and Result values, and the "first exception wins" traversal that
    Python's loops over records and tokens exhibit when one step raises. */
module Wrappers {

  datatype Option<+T> = None | Some(value: T)

  datatype Result<+T, +E> = Success(value: T) | Failure(error: E)

  /** The error of a failed result, None for a successful one. */
  function ErrorOf<T, E>(r: Result<T, E>): (e: Option<E>)
    ensures e.Some? <==> r.Failure?
    ensures e.Some? ==> e.value == r.error
  {
    if r.Failure? then Some(r.error) else None
  }

  /** `a` when it holds a value, otherwise `b`. */
  function OrElse<T>(a: Option<T>, b: Option<T>): Option<T>
  {
    if a.Some? then a else b
  }

  /** Applies `f` to every element from left to right and collects the
      values; the first failure stops the traversal and is the result. */
  function MapAll<X, T, E>(xs: seq<X>, f: X -> Result<T, E>): (r: Result<seq<T>, E>)
    ensures r.Success? ==> |r.value| == |xs|
    decreases |xs|
  {
    if xs == [] then Success([])
    else
      match MapAll(xs[..|xs| - 1], f)
      case Failure(e) => Failure(e)
      case Success(ts) =>
        match f(xs[|xs| - 1])
        case Failure(e) => Failure(e)
        case Success(t) => Success(ts + [t])
  }

  /** One more step of the traversal, as a loop over a growing prefix sees it. */
  lemma MapAllStep<X, T, E>(xs: seq<X>, i: nat, f: X -> Result<T, E>)
    requires i < |xs|
    ensures MapAll(xs[..i + 1], f) ==
      match MapAll(xs[..i], f)
      case Failure(e) => Failure(e)
      case Success(ts) =>
        match f(xs[i])
        case Failure(e) => Failure(e)
        case Success(t) => Success(ts + [t])
  {
    assert xs[..i + 1][..i] == xs[..i];
  }

  /** Once a prefix has failed, the whole traversal fails the same way. */
  lemma {:induction false} MapAllPrefixFailure<X, T, E>(xs: seq<X>, i: nat, f: X -> Result<T, E>)
    requires i <= |xs|
    requires MapAll(xs[..i], f).Failure?
    ensures MapAll(xs, f) == MapAll(xs[..i], f)
  {
    if i < |xs| {
      var ys := xs[..|xs| - 1];
      assert ys[..i] == xs[..i];
      MapAllPrefixFailure(ys, i, f);
      assert xs[..|xs|] == xs;
    } else {
      assert xs[..i] == xs;
    }
  }

  /** The traversal succeeds exactly when every step succeeds, and then it
      holds every step's value, in order. */
  lemma {:induction false} MapAllSuccess<X, T, E>(xs: seq<X>, f: X -> Result<T, E>)
    ensures MapAll(xs, f).Success? <==> forall i :: 0 <= i < |xs| ==> f(xs[i]).Success?
    ensures MapAll(xs, f).Success? ==>
      |MapAll(xs, f).value| == |xs| &&
      forall i :: 0 <= i < |xs| ==> MapAll(xs, f).value[i] == f(xs[i]).value
    decreases |xs|
  {
    if xs != [] {
      var ys := xs[..|xs| - 1];
      MapAllSuccess(ys, f);
      assert forall i :: 0 <= i < |ys| ==> ys[i] == xs[i];
    }
  }

  /** A failing traversal reports the error of the first failing step. */
  lemma {:induction false} MapAllFailure<X, T, E>(xs: seq<X>, f: X -> Result<T, E>)
    requires MapAll(xs, f).Failure?
    ensures exists i :: 0 <= i < |xs| && f(xs[i]) == Failure(MapAll(xs, f).error) &&
                        forall j :: 0 <= j < i ==> f(xs[j]).Success?
    decreases |xs|
  {
    var ys := xs[..|xs| - 1];
    assert forall j :: 0 <= j < |ys| ==> ys[j] == xs[j];
    if MapAll(ys, f).Failure? {
      MapAllFailure(ys, f);
    } else {
      MapAllSuccess(ys, f);
      var i := |xs| - 1;
      assert f(xs[i]) == Failure(MapAll(xs, f).error);
    }
  }

  /** Traversing `xs + ys` is traversing `xs`, then `ys`: the values are
      kept in order, and the first failure of the two is reported. */
  lemma {:induction false} MapAllAppend<X, T, E>(xs: seq<X>, ys: seq<X>, f: X -> Result<T, E>)
    ensures MapAll(xs + ys, f) ==
      match MapAll(xs, f)
      case Failure(e) => Failure(e)
      case Success(a) =>
        match MapAll(ys, f)
        case Failure(e) => Failure(e)
        case Success(b) => Success(a + b)
    decreases |ys|
  {
    if ys == [] {
      assert xs + ys == xs;
      if MapAll(xs, f).Success? {
        assert MapAll(xs, f).value + [] == MapAll(xs, f).value;
      }
    } else {
      var init := ys[..|ys| - 1];
      MapAllAppend(xs, init, f);
      assert (xs + ys)[..|xs + ys| - 1] == xs + init;
      assert (xs + ys)[|xs + ys| - 1] == ys[|ys| - 1];
      if MapAll(xs, f).Success? && MapAll(init, f).Success? && f(ys[|ys| - 1]).Success? {
        var a, b, t := MapAll(xs, f).value, MapAll(init, f).value, f(ys[|ys| - 1]).value;
        assert (a + b) + [t] == a + (b + [t]);
      }
    }
  }
}
