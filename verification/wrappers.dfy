/** Option and Result datatypes shared by every module, with the application
    error carried by the `Err` case (an HTTP status code plus a message). */
module Wrappers {

  datatype Option<+T> = None | Some(value: T)

  /** The application's error value: a status code and a human message. */
  datatype AppError = AppError(statusCode: int, message: string)

  /** Either a value or the AppError the operation throws. */
  datatype Result<+T> = Ok(value: T) | Err(error: AppError) {

    predicate IsFailure() {
      Err?
    }

    function PropagateFailure<U>(): Result<U>
      requires Err?
    {
      Err(error)
    }

    function Extract(): T
      requires Ok?
    {
      value
    }
  }

  /** Outcome of a middleware: `Next` lets the request through, `Reject`
      passes an error to the next handler. */
  datatype Outcome = Next | Reject(error: AppError)
}
