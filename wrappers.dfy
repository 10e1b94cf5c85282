/** Option and Result wrappers shared by the codec modules. */
module Wrappers {

  datatype Option<+T> = None | Some(value: T)

  /** The ways a decode or a size query can fail. */
  datatype Error =
    | OutOfRange   // std::out_of_range thrown by the variant helpers
    | Truncated    // the buffer ends before the value does (unchecked in C++)
    | Rejected     // a custom Deserialize refuses its bytes

  datatype Result<+T> = Ok(value: T) | Err(error: Error) {
    predicate IsFailure() { Err? }

    function PropagateFailure<U>(): Result<U>
      requires Err?
    {
      Err(error)
    }

    function Extract(): T
      requires Ok?
    {
      value
    }
  }
}
