/** The outcome of a backend operation, a value or the message of the
    `RuntimeException` the Java service throws, Java's nullable references, and
    the response envelope the controllers send back. */
module Results {
  datatype Result<T> = Ok(value: T) | Err(message: string)

  datatype Option<T> = None | Some(value: T)

  /** An `ApiResponse` envelope with its HTTP status: 200, 400 or 500. */
  datatype Response<T> =
    | Success(message: string, data: Option<T>)
    | BadRequest(message: string)
    | ServerError(message: string)
}

/** Timestamps, as a count of seconds; `LocalDateTime.now()` becomes a parameter `now`. */
module Clock {
  type Time = int

  const Minute: int := 60
}
