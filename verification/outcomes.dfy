/** What a model operation does when it is called: it returns a value or it
    throws. `InvalidArgumentError` is the service's own error class; the
    other two are the built-in `Error` and the `TypeError` that reading a
    property of `null` or `undefined` raises. */
module Outcomes {

  datatype Exception =
    | InvalidArgumentError(message: string)
    | PlainError(message: string)
    | TypeError

  datatype Outcome<+T> = Returned(value: T) | Threw(exception: Exception) {

    predicate IsFailure() {
      Threw?
    }

    function PropagateFailure<U>(): Outcome<U>
      requires Threw?
    {
      Threw(exception)
    }

    function Extract(): T
      requires Returned?
    {
      value
    }
  }

  /** `validate(expression, errorMessage)`: throw an `InvalidArgumentError`
      carrying the message when the expression holds. */
  function Validate(expression: bool, errorMessage: string): (r: Outcome<()>)
    ensures r.Threw? <==> expression
    ensures r.Threw? ==> r.exception == InvalidArgumentError(errorMessage)
  {
    if expression then Threw(InvalidArgumentError(errorMessage)) else Returned(())
  }
}
