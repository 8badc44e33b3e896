/** Option and Result values, and the exceptions the modelled pipeline code can raise. */
module Wrappers {

  datatype Option<+T> = None | Some(value: T)

  /** The Python exceptions (and service failures) that the modelled code lets escape or catches. */
  datatype Exception =
    | IndexError         // a list or string indexed past its end
    | AttributeError     // an attribute read on None
    | TypeError          // None subscripted
    | AssertionError     // a failed `assert`
    | FlowNotFound       // `Flow(name)` for a flow with no history
    | IndexAlreadyExists // the vector service refuses to create an index of a name it already holds
    | QuotaExceeded      // the vector service refuses a new index for quota reasons
    | IndexNotFound      // the vector service has no index of that name
    | FileNotFound       // `open` on a path that does not exist

  datatype Result<+T> = Ok(value: T) | Err(error: Exception) {
    predicate IsFailure() { Err? }

    function PropagateFailure<U>(): Result<U>
      requires Err?
    {
      Err(error)
    }

    function Extract(): T
      requires Ok?
    {
      value
    }
  }

  /** A step that returns nothing: it either completes or raises. */
  datatype Outcome = Pass | Fail(error: Exception) {
    predicate IsFailure() { Fail? }

    function PropagateFailure(): Outcome
      requires Fail?
    {
      this
    }
  }
}
