/** Failure-compatible datatypes shared by the whole model.
    - Option<T> stands for Python's "value or None".
    - Result<T, E> stands for "value, or an exception that reaches the caller". */
module Wrappers {

  datatype Option<+T> = None | Some(value: T)

  datatype Result<+T, +E> = Success(value: T) | Failure(error: E) {

    predicate IsFailure() {
      Failure?
    }

    function PropagateFailure<U>(): Result<U, E>
      requires Failure?
    {
      Failure(error)
    }

    function Extract(): T
      requires Success?
    {
      value
    }
  }

  /** A loop over `0 .. count - 1` whose body may raise: the results of
      `entry(0)`, ..., `entry(count - 1)` in order, or the exception of the
      first iteration that raises. */
  function RunLoop<T, E>(count: nat, entry: nat -> Result<T, E>): (r: Result<seq<T>, E>)
    ensures r.Success? <==> forall i :: 0 <= i < count ==> entry(i).Success?
    ensures r.Success? ==> |r.value| == count
    ensures r.Success? ==> forall i :: 0 <= i < count ==> entry(i) == Success(r.value[i])
  {
    if count == 0 then Success([])
    else
      var front :- RunLoop(count - 1, entry);
      var e :- entry(count - 1);
      Success(front + [e])
  }
}
