/** The exceptions the two collections throw, as values. */
module Failures {

  /** The Java exception classes raised by the operations that are modelled. */
  datatype Error =
    | IllegalState            // java.lang.IllegalStateException
    | NoSuchElement           // java.util.NoSuchElementException
    | ConcurrentModification  // java.util.ConcurrentModificationException
    | NullPointer             // java.lang.NullPointerException

  /** The outcome of an operation that returns a value or throws. */
  datatype Result<T> = Ok(value: T) | Err(error: Error)

  /** The outcome of a void operation that may throw. */
  datatype Outcome = Pass | Fail(error: Error)
}
