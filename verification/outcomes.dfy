/** The shapes that stand in for an HTTP round trip and for optional values.

    A request issued by the page either resolves (`Success`, carrying the
    response body the handler reads) or rejects (`Failure`), in which case the
    handler only logs the error. Which of the two happens is not under the
    page's control, so every operation takes the outcome as a parameter.
 */
module Outcomes {

  /** The settled state of one request: resolved with a body, or rejected. */
  datatype Outcome<+T> = Success(data: T) | Failure

  /** A value that may be absent; the body of a delete response is the
      removed record, or `null` (`None`) when no record had the identifier. */
  datatype Option<+T> = None | Some(value: T)
}
