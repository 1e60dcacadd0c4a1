/** Result types shared by the whole model: the recoverable `CalcError` of one
    trial, the Python exceptions that the search does not catch, and the
    three-way outcome of a button press. */
module Outcomes {

  datatype Option<+T> = None | Some(value: T)

  /** The reasons a single trial is invalid; the search moves on to the next trial. */
  datatype CalcError =
    | Aliquant
    | PatternNotFound
    | Overflow
    | RedundantStep
    | StoreEmpty
    | StoreNegative
    | AlreadyLocked
    | TotalAlreadyStored
    | UnknownAction

  /** Exceptions raised by the Python runtime itself.  None of them is caught by
      the search, so each one ends the whole run. */
  datatype Uncaught =
    | ZeroDivision   // `total % 0` in Div
    | ValueError     // `int(...)` of a text that is not a decimal numeral
    | TypeError      // `None + delta` when a Store without a value is adjusted
    | IndexError     // `pop()` from an empty StoreV2 history
    | NonInteger     // `total ** e` with e < 0 is a float, which this model does not follow

  /** What pressing (or adjusting) a button does: a value, a recoverable
      failure of this trial, or an uncaught exception. */
  datatype Outcome<+T> = Ok(value: T) | Fail(error: CalcError) | Crash(exc: Uncaught)
}
