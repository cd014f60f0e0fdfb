/** Optional values and exception-carrying results.

    The JavaScript code signals failure by throwing `Error(message)`; the model
    returns `Fail(message)` with the same message text instead.
 */
module Results {

  datatype Option<+T> = None | Some(value: T)

  /** Either a computed value or the message of the exception the source throws. */
  datatype Result<+T> = Ok(value: T) | Fail(message: string) {

    predicate IsFailure() {
      Fail?
    }

    function PropagateFailure<U>(): Result<U>
      requires Fail?
    {
      Fail(message)
    }

    function Extract(): T
      requires Ok?
    {
      value
    }
  }
}
