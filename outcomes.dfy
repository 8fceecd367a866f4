/** Errors the modelled Python code can raise, and a result type carrying them. */
module Outcomes {

  /** The exceptions the modelled code raises on the paths it takes. */
  datatype Error =
    | ZeroDivision      // `//` with a zero divisor (ZeroDivisionError)
    | MissingArgument   // a call that omits a required positional argument (TypeError)

  datatype Result<+T> = Ok(value: T) | Err(error: Error)
}
