/** Failure values of the decimal library.  The source signals both kinds of
    failure by throwing; the model returns them. */
module Outcomes {

  datatype Option<+T> = None | Some(value: T)

  /** The two failures the decimal type can raise. */
  datatype Error =
    | MalformedNumber   // a string the integer backend cannot read
    | DivisionByZero    // a zero divisor mantissa

  datatype Result<+T> = Ok(value: T) | Err(error: Error)
}
