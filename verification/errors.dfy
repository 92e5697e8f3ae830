/** Error kinds of the service layer and the option/result wrappers the
    model uses in place of `null` returns and thrown exceptions. */
module Errors {

  /** A value that may be `null` or `undefined` in the TypeScript code. */
  datatype Option<+T> = None | Some(value: T) {
    /** The value when present, `fallback` when absent: how an undefined
        field of a partial update leaves the stored column alone. */
    function ValueOr(fallback: T): T {
      if Some? then value else fallback
    }
  }

  /** The four error classes; each only carries its message. */
  datatype Error =
    | InvalidInputError(message: string)
    | ResourceNotFoundError(message: string)
    | UnauthenticatedError(message: string)
    | UnexpectedError(message: string)

  /** The value an async operation resolves to, or the error it rejects with. */
  datatype Result<+T> = Ok(value: T) | Err(error: Error)
}
