/** Failure-compatible wrappers used by every module of the model.
    `Result` carries the exceptions the PHP code throws; the PHP exception
    class is kept in `Error` so that contracts can speak about it. */
module Wrappers {

  /** An optional value: PHP's `null` versus a present value. */
  datatype Option<+T> = None | Some(value: T) {

    predicate IsFailure() {
      None?
    }

    function PropagateFailure<U>(): Option<U>
      requires None?
    {
      None
    }

    function Extract(): T
      requires Some?
    {
      value
    }

    function GetOr(default: T): T {
      match this
      case Some(v) => v
      case None => default
    }
  }

  /** The exceptions raised by the modelled code. */
  datatype Error =
    | RuntimeError(message: string)                // Foxy\Exception\RuntimeException
    | InvalidArgument(message: string, code: int)  // \InvalidArgumentException with a code
    | TypeError(message: string)                   // a PHP engine error on a value of the wrong type
    | ErrorException(message: string)              // a PHP warning or notice, raised by Composer's error handler

  /** Either a value or the exception that interrupted the computation. */
  datatype Result<+T> = Success(value: T) | Failure(error: Error) {

    predicate IsFailure() {
      Failure?
    }

    function PropagateFailure<U>(): Result<U>
      requires Failure?
    {
      Failure(error)
    }

    function Extract(): T
      requires Success?
    {
      value
    }
  }
}
