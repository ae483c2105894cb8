/** Error values returned by the request handlers in place of HTTP status codes. */
module Outcomes {

  /** The kinds of failure a handler can answer with.
      NotFound (404), Invalid (400: a precondition or validation failed),
      Duplicate (400: a unique key or an open request already exists),
      Forbidden (403), ServerError (500: an exception caught by the handler). */
  datatype Error = NotFound | Invalid | Duplicate | Forbidden | ServerError

  /** An optional value: a request field that may be absent. */
  datatype Option<+T> = None | Some(value: T)

  /** A handler's answer: either success carrying data, or an error. */
  datatype Result<+T> = Ok(value: T) | Err(error: Error)

  /** A handler's answer when success carries no data. */
  datatype Outcome = Done | Fail(error: Error)
}
