/** Option and Result, and the Python exceptions the core can raise. */
module Wrappers {

  datatype Option<+T> = None | Some(value: T)

  /** The Python exceptions that escape (or are caught by) the modelled code. */
  datatype PyException =
    | KeyError     // pygtrie's iterkeys on a prefix with no node
    | IndexError   // `split()[0]` on an empty split, or a row index past the embeddings

  datatype Result<+T, +E> = Success(value: T) | Failure(error: E) {

    predicate IsFailure() {
      Failure?
    }

    function PropagateFailure<U>(): Result<U, E>
      requires Failure?
    {
      Failure(error)
    }

    function Extract(): T
      requires Success?
    {
      value
    }
  }
}
