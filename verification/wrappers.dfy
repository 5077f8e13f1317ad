/** Failure-carrying values used throughout the model: Go's `(value, error)`
    pairs and Python exceptions become `Result`, optional values `Option`. */
module Wrappers {

  datatype Option<+T> = None | Some(value: T) {

    /** The wrapped value, or `default` when there is none. */
    function GetOr(default: T): T {
      match this
      case Some(v) => v
      case None => default
    }
  }

  datatype Result<+R, +E> = Success(value: R) | Failure(error: E) {

    predicate IsFailure() {
      Failure?
    }

    function PropagateFailure<U>(): Result<U, E>
      requires Failure?
    {
      Failure(error)
    }

    function Extract(): R
      requires Success?
    {
      value
    }
  }

  /** Applies `f` to every element in order and stops at the first failure,
      whose error it returns; otherwise the results, one per element. */
  function MapAll<T, U, E>(xs: seq<T>, f: T -> Result<U, E>): (r: Result<seq<U>, E>)
    ensures r.Success? <==> forall k :: 0 <= k < |xs| ==> f(xs[k]).Success?
    ensures r.Success? ==>
      |r.value| == |xs| && forall k :: 0 <= k < |xs| ==> r.value[k] == f(xs[k]).value
    ensures r.Failure? ==>
      exists k :: (0 <= k < |xs| && f(xs[k]) == Failure(r.error)
        && forall j :: 0 <= j < k ==> f(xs[j]).Success?)
  {
    if xs == [] then Success([])
    else
      match f(xs[0])
      case Failure(e) => Failure(e)
      case Success(y) =>
        match MapAll(xs[1..], f)
        case Failure(e) =>
          assert exists k :: (0 <= k < |xs| && f(xs[k]) == Failure(e)
              && forall j :: 0 <= j < k ==> f(xs[j]).Success?) by {
            var k :| 0 <= k < |xs| - 1 && f(xs[1..][k]) == Failure(e)
              && forall j :: 0 <= j < k ==> f(xs[1..][j]).Success?;
            assert forall j :: 1 <= j < k + 1 ==> xs[j] == xs[1..][j - 1];
            assert f(xs[k + 1]) == Failure(e);
          }
          Failure(e)
        case Success(ys) =>
          Success([y] + ys)
  }
}
