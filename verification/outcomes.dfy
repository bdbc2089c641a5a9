/** Failure-carrying datatypes shared by every part of the backend model. */
module Outcomes {

  /** Python's `Optional[...]`: a value or `None`. */
  datatype Option<+T> = None | Some(value: T)

  /** The outcome of an endpoint: a reply, or an error the handler raises. */
  datatype Result<+T, +E> = Ok(value: T) | Err(error: E)

  /** An `HTTPException` as FastAPI sends it: status code and detail text. */
  datatype HttpError = HttpError(code: int, detail: string)
}
