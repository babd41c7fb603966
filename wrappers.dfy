/** Java's nullable references and thrown exceptions as values. */
module Wrappers {
  /** A nullable reference (`Optional` too): None is null or empty. */
  datatype Option<+T> = None | Some(value: T) {
    function GetOr(default: T): T {
      match this
      case Some(v) => v
      case None => default
    }
  }

  /** A call that returns normally (`Ok`) or throws (`Fail`). */
  datatype Result<+T, +E> = Ok(value: T) | Fail(error: E) {
    predicate IsFailure() {
      Fail?
    }

    function PropagateFailure<U>(): Result<U, E>
      requires Fail?
    {
      Fail(error)
    }

    function Extract(): T
      requires Ok?
    {
      value
    }
  }

  /** A request value where it is non-null, the current one otherwise. */
  function Pick<T>(given: Option<T>, current: Option<T>): (r: Option<T>)
    ensures given.Some? ==> r == given
    ensures given.None? ==> r == current
  {
    if given.Some? then given else current
  }

}
