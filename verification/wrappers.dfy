/** Failure-carrying datatypes shared by the whole model. */
module Wrappers {

  datatype Option<+T> = None | Some(value: T)

  /** The exceptions the library raises, each with the message it gives (None for a null message). */
  datatype Error =
    | NullPointer(message: Option<string>)    // NullPointerException
    | NoSuchElement(message: Option<string>)  // NoSuchElementException
    | IllegalState(message: Option<string>)   // IllegalStateException

  /** Either the value a call returns, or the exception it throws. */
  datatype Result<+T> = Ok(value: T) | Err(error: Error) {

    predicate IsFailure() {
      Err?
    }

    function PropagateFailure<U>(): Result<U>
      requires Err?
    {
      Err(error)
    }

    function Extract(): T
      requires Ok?
    {
      value
    }
  }

  /** The exception `Objects.requireNonNull` throws: a NullPointerException without a message. */
  const RequireNonNull: Error := NullPointer(None)
}
