/** Option and Result values for lookups that may find nothing and for
    request handlers that may answer with an error status. */
module Results {
  datatype Option<T> = None | Some(value: T)

  datatype Result<T, E> = Ok(value: T) | Err(error: E)

  /** An error answer of the HTTP layer: its status code and message. */
  datatype ApiError = ApiError(status: int, message: string)
}
