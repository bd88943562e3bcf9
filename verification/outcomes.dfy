/** Error values and the result and option wrappers shared by every sampler. */
module Outcomes {

  /** The errors a sampler can report; Message gives the text the source returns. */
  datatype Error =
    | TemperatureOutOfRange
    | KNotPositive
    | POutOfRange
    | NoValidTokens
    | WeighedFailed

  function Message(e: Error): string
  {
    match e
    case TemperatureOutOfRange => "temperature must be between 0 and 2"
    case KNotPositive => "k must be positive"
    case POutOfRange => "p must be between 0 and 1"
    case NoValidTokens => "no valid tokens found"
    case WeighedFailed => "weighed sampler failed"
  }

  /** A sampler's `([]float64, error)` pair: a value, or an error and no value. */
  datatype Result<+T> = Ok(value: T) | Err(error: Error)

  datatype Option<+T> = None | Some(value: T)
}
