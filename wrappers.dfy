/** Option and Result values, used for Python's `False` sentinel, missing
    dictionary keys and raised exceptions. */
module Wrappers {

  datatype Option<+T> = None | Some(value: T)

  /** Either a value or the exception the Python code would raise. Failure
      compatible, so `:-` propagates the first error as `raise` does. */
  datatype Result<+T, +E> = Ok(value: T) | Err(error: E) {

    predicate IsFailure() {
      Err?
    }

    function PropagateFailure<U>(): Result<U, E>
      requires Err?
    {
      Err(error)
    }

    function Extract(): T
      requires Ok?
    {
      value
    }
  }
}
