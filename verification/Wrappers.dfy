/** Optional values, results of computations that may throw, and the joint
    outcome of a list of such computations. */
module Wrappers {

  /** A value that may be `undefined`. */
  datatype Option<+T> = None | Some(value: T)

  /** The outcome of a computation that returns or throws. */
  datatype Result<+T, +E> = Success(value: T) | Failure(error: E) {
    predicate IsFailure() {
      Failure?
    }

    function PropagateFailure<U>(): Result<U, E>
      requires Failure?
    {
      Failure(error)
    }

    function Extract(): T
      requires Success?
    {
      value
    }
  }

  /** `Promise.all` over computations whose outcomes are already known: all the
      values in order, or one of the errors. */
  function All<T, E>(outcomes: seq<Result<T, E>>): (r: Result<seq<T>, E>)
    ensures r.Success? <==> forall i :: 0 <= i < |outcomes| ==> outcomes[i].Success?
    ensures r.Success? ==> |r.value| == |outcomes|
    ensures r.Success? ==> forall i :: 0 <= i < |outcomes| ==> r.value[i] == outcomes[i].value
    ensures r.Failure? ==> exists i :: 0 <= i < |outcomes| && outcomes[i] == Failure(r.error)
  {
    if outcomes == [] then
      Success([])
    else
      var first :- outcomes[0];
      var rest := All(outcomes[1..]);
      match rest
      case Failure(error) =>
        assert exists i :: 0 <= i < |outcomes| && outcomes[i] == Failure(error) by {
          ghost var i :| 0 <= i < |outcomes[1..]| && outcomes[1..][i] == Failure(error);
          assert outcomes[i + 1] == Failure(error);
        }
        Failure(error)
      case Success(values) =>
        Success([first] + values)
  }

  /** The outcomes of `f` on every element, joined. */
  function MapAll<S, T, E>(items: seq<S>, f: S -> Result<T, E>): (r: Result<seq<T>, E>)
    ensures r.Success? <==> forall i :: 0 <= i < |items| ==> f(items[i]).Success?
    ensures r.Success? ==> |r.value| == |items|
    ensures r.Success? ==> forall i :: 0 <= i < |items| ==> r.value[i] == f(items[i]).value
    ensures r.Failure? ==> exists i :: 0 <= i < |items| && f(items[i]) == Failure(r.error)
  {
    var outcomes := seq(|items|, i requires 0 <= i < |items| => f(items[i]));
    assert forall i :: 0 <= i < |items| ==> outcomes[i] == f(items[i]);
    All(outcomes)
  }
}
