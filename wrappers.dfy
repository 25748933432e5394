/** Failure-carrying results shared by the encoder and the decoder. Each error
    kind names the exception the codec raises at that point. */
module Wrappers {

  datatype Option<+T> = None | Some(value: T)

  datatype Error =
    | EndOfStream          // the reader ran past the end of its buffer
    | MissingType          // a type code of 0 where a real type was required
    | IndexOutOfRange      // a custom type code n with n - 7 outside the table
    | NotBound             // a custom type read before the bind pass
    | BadTypeChain         // a property built from an empty or 5-terminated chain
    | CustomTypeNotFound   // the encoder met a custom type missing from its table
    | UnsupportedValue     // a value whose shape the encoder cannot write

  datatype Result<+T> = Ok(value: T) | Err(error: Error) {

    predicate IsFailure() {
      Err?
    }

    function PropagateFailure<U>(): Result<U>
      requires Err?
    {
      Err(error)
    }

    function Extract(): T
      requires Ok?
    {
      value
    }
  }
}
