/** Results of the operations that can fail, and the ways in which they fail. */
module Wrappers {

  datatype Option<+T> = None | Some(value: T)

  /** What a Go function reports through its `error` result. */
  datatype Error =
    | MalformedCidr(text: string)
    | NoRange
    | SubnetTooSmall(index: int)
    | InvalidSelectors
    | SelectionFailed(device: string)
    | ApiFailure
    | RegisterUnavailable

  datatype Result<+T> = Ok(value: T) | Err(error: Error) {
    predicate IsFailure() {
      Err?
    }

    function PropagateFailure<U>(): Result<U>
      requires Err?
    {
      Err(error)
    }

    function Extract(): T
      requires Ok?
    {
      value
    }
  }

  /** How a step that builds the intent ends. `Panicked` is the run-time panic of a nil pointer. It is
      not an error value, and nothing in the controller recovers it: the process ends. */
  datatype Outcome = Done | Failed(error: Error) | Panicked
}
