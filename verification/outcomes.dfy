/** Optional values and Go-style (value, error) results.

    Go functions in the crawler return a value together with an error, and
    several callers use the value even when the error is non-nil. `Ret` keeps
    both halves so that the model can do the same.
 */
module Outcomes {

  datatype Option<+T> = None | Some(value: T)

  /** The error values the code distinguishes. Errors built on the spot with
      `errors.New` or `fmt.Errorf` are all `Unnamed`. */
  datatype GoError =
    | ErrEmptyParameter          // errEmptyParameter
    | ErrExtractURLFromHTML      // errExtractURLFromHTML
    | ErrExtractURLUsingConfig   // errExtractURLFromHTMLUsingConfiguration
    | ErrFormatURL               // errFormatURL
    | ErrInput                   // errInput
    | ErrParseFlag               // errParseFlag
    | ErrFlagNotSet              // errFlagNotSet
    | ErrUnsupportedAction       // errUnsupportedAction
    | ErrUnsupportedFlag         // errUnsupportedFlag
    | ErrWebsiteFlag             // errWebsiteFlag
    | Unnamed

  /** A Go `error`: nil, or a failure. */
  datatype Status = Nil | Failed(error: GoError)

  /** A Go `(T, error)` pair. */
  datatype Ret<+T> = Ret(value: T, err: Status) {
    predicate Ok() { err.Nil? }
  }
}
