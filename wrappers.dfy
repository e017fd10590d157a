/** Option, the exceptions the maze engine raises, and result types carrying them. */
module Wrappers {

  /** Stands in for a Java reference that may be null. */
  datatype Option<+T> = None | Some(value: T)

  /** The unchecked exceptions the engine can raise. */
  datatype Exception =
    | IllegalArgument   // generate: requested size below 5
    | IllegalState      // createEntrances: no border node after the random skip
    | NullPointer       // findPaths: a null reference is dereferenced

  /** The outcome of an operation that returns a value or throws. */
  datatype Result<+T> = Ok(value: T) | Err(error: Exception)

  /** The outcome of a void operation: it returns normally or throws. */
  datatype Outcome = Pass | Fail(error: Exception)
}
