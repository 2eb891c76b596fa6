/** Failure-compatible wrappers used throughout the model.
    JavaScript's `undefined`/`null` become `None`; a thrown error or a
    rejected promise becomes `Failure`. */
module Wrappers {

  datatype Option<+T> = None | Some(value: T) {

    /** The wrapped value, or `default` when there is none. */
    function GetOr(default: T): T {
      match this
      case Some(v) => v
      case None => default
    }
  }

  datatype Result<+R, +E> = Success(value: R) | Failure(error: E) {

    predicate IsFailure() {
      Failure?
    }

    function PropagateFailure<U>(): Result<U, E>
      requires Failure?
    {
      Failure(error)
    }

    function Extract(): R
      requires Success?
    {
      value
    }
  }

  /** Evaluates a sequence of fallible steps in order, as a loop that
      throws on the first error would: all the values, or the first error. */
  function Collect<T, E>(rs: seq<Result<T, E>>): (r: Result<seq<T>, E>)
    ensures r.Success? ==> |r.value| == |rs|
    decreases |rs|
  {
    if |rs| == 0 then Success([])
    else
      match rs[0]
      case Failure(e) => Failure(e)
      case Success(v) =>
        match Collect(rs[1..])
        case Failure(e) => Failure(e)
        case Success(vs) => Success([v] + vs)
  }

  /** `Collect` succeeds exactly when every step does, and then holds
      every step's value at its own position. */
  lemma {:induction false} CollectSuccess<T, E>(rs: seq<Result<T, E>>)
    ensures Collect(rs).Success? <==> forall k :: 0 <= k < |rs| ==> rs[k].Success?
    ensures Collect(rs).Success? ==> forall k :: 0 <= k < |rs| ==> Collect(rs).value[k] == rs[k].value
    decreases |rs|
  {
    if |rs| > 0 {
      CollectSuccess(rs[1..]);
      assert forall k :: 1 <= k < |rs| ==> rs[k] == rs[1..][k - 1];
      if Collect(rs).Success? {
        var vs := Collect(rs[1..]).value;
        assert Collect(rs).value == [rs[0].value] + vs;
      }
    }
  }

  /** A failing `Collect` reports the error of the first failing step;
      every step before it succeeded. */
  lemma {:induction false} CollectFirstFailure<T, E>(rs: seq<Result<T, E>>)
    requires Collect(rs).Failure?
    ensures exists k :: 0 <= k < |rs| && rs[k] == Failure(Collect(rs).error) &&
                        forall m :: 0 <= m < k ==> rs[m].Success?
    decreases |rs|
  {
    if rs[0].Success? {
      CollectFirstFailure(rs[1..]);
      var k :| 0 <= k < |rs[1..]| && rs[1..][k] == Failure(Collect(rs[1..]).error) &&
               forall m :: 0 <= m < k ==> rs[1..][m].Success?;
      assert rs[k + 1] == rs[1..][k];
      assert forall m :: 1 <= m < k + 1 ==> rs[m] == rs[1..][m - 1];
    }
  }
}
