/** Failure outcomes of the list operations.

    The list signals misuse by throwing one of two exception kinds
    (`invalid_iterator`, `container_is_empty`, declared in exceptions.hpp,
    which is not part of this model). Here a throw is a failure value that
    the operation returns instead of its normal result.
 */
module Errors {

  /** The exception kinds the list throws. */
  datatype Error = InvalidIterator | ContainerIsEmpty

  /** Outcome of an operation that returns nothing (`void`) when it succeeds. */
  datatype Outcome = Pass | Fail(error: Error)

  /** Outcome of an operation that returns a value when it succeeds. */
  datatype Result<T> = Ok(value: T) | Err(error: Error)

  /** A value that may be absent (the list's `T*`, which is null in the sentinel). */
  datatype Option<T> = None | Some(value: T)
}
