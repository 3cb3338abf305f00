/** Failure-compatible result types shared by the whole model.

    The Python code signals failure in two ways: by raising an exception, or by
    printing a message and returning None (which the caller then trips over).
    Both become an `Err` carrying the kind of the Python exception that
    eventually reaches the caller.
 */
module Wrappers {

  /** The Python exception classes that the modelled code can raise. */
  datatype Error = TypeError | ValueError | IndexError | KeyError | AttributeError

  datatype Option<+T> = None | Some(value: T) {
    predicate IsFailure() { None? }

    function PropagateFailure<U>(): Option<U>
      requires None?
    {
      None
    }

    function Extract(): T
      requires Some?
    {
      value
    }
  }

  datatype Result<+T> = Ok(value: T) | Err(error: Error) {
    predicate IsFailure() { Err? }

    function PropagateFailure<U>(): Result<U>
      requires Err?
    {
      Err(error)
    }

    function Extract(): T
      requires Ok?
    {
      value
    }
  }

  /** Passes when `b` holds, fails with `e` otherwise (Python's `if not b: raise e`). */
  function Need(b: bool, e: Error): (r: Result<()>)
    ensures r.Ok? <==> b
  {
    if b then Ok(()) else Err(e)
  }
}
