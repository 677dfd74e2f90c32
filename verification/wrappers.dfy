/** Failure-compatible wrappers used across the model. */
module Wrappers {

  /** Python's `None` next to a present value; used for the fill value of
      `itertools.izip_longest`. */
  datatype Option<+T> = None | Some(value: T)

  /** The outcome of an operation that may raise: `Err` stands for the
      exception. */
  datatype Result<+T, +E> = Ok(value: T) | Err(error: E) {

    predicate IsFailure() {
      Err?
    }

    function PropagateFailure<U>(): Result<U, E>
      requires Err?
    {
      Err(error)
    }

    function Extract(): T
      requires Ok?
    {
      value
    }
  }

  function Min(a: int, b: int): (r: int)
  {
    if a <= b then a else b
  }
}
