/** Option and Result types shared by every module of the model. */
module Wrappers {

  /** A value that may be absent: the model of a C# nullable field or a `null` return. */
  datatype Option<+T> = None | Some(value: T)

  /** The outcome of an operation that the C# code lets throw: `Err` carries what was thrown. */
  datatype Result<+T, +E> = Ok(value: T) | Err(error: E) {
    predicate IsFailure() { Err? }
    function PropagateFailure<U>(): Result<U, E>
      requires Err?
    {
      Err(error)
    }
    function Extract(): T
      requires Ok?
    {
      value
    }
  }
}
