/** Optional values and error-or-value results, standing in for Python's
    `None` returns and raised exceptions. */
module Wrappers {

  datatype Option<+T> = None | Some(value: T)

  /** The exceptions the engine can raise, one constructor per cause. */
  datatype Error =
    | NaiveDatetime      // ValueError: a datetime without a zone
    | NotAnInteger       // ValueError: int() of a field that is not a number
    | MissingField       // IndexError: a time string with a single field
    | TimeOutOfRange     // ValueError: datetime.time() with an out-of-range field
    | UnknownTimeZone    // pytz.UnknownTimeZoneError

  datatype Result<+T> = Ok(value: T) | Err(error: Error)
}
