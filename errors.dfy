/** The exceptions the fragment-assembly code can raise, as values. */
module Errors {

  /** `HTTPException(status_code, detail)` raised by the endpoints and the
      provider calls, or the `OverflowError` of `int.to_bytes`. */
  datatype Failure =
    | HttpError(status: int, detail: string)
    | OverflowError

  datatype Result<T> = Ok(value: T) | Err(error: Failure)
}
