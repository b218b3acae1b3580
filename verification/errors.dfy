/** The failures the library raises, and a failure-compatible result type that
    stands for "returns normally or throws".
 */
module Errors {

  /** The library's two error classes, each carrying its message, plus any other
      error a caller's supplier builds (a `TypeError`, say) under its class name.
   */
  datatype Error =
    | IllegalArgument(message: string)
    | IllegalAccess(message: string)
    | Thrown(name: string, message: string)

  /** A call either returns a value or throws an error; usable with `:-`. */
  datatype Result<+T> = Success(value: T) | Failure(error: Error) {

    predicate IsFailure() {
      Failure?
    }

    function PropagateFailure<U>(): Result<U>
      requires Failure?
    {
      Failure(error)
    }

    function Extract(): T
      requires Success?
    {
      value
    }
  }
}
