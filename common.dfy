/** Small value types shared by both versions of the goal tracker. */
module Common {

  /** A value that may be absent: a failed parse, a missing row. */
  datatype Option<+T> = None | Some(value: T)

  /** What a route handler sends back to the browser: a redirect to the
      index page, a plain-text body, or the internal-server-error answer
      Flask gives when the handler raises an exception it does not catch. */
  datatype Response = RedirectToIndex | PlainText(body: string) | ServerError

  /** The body `add_goal` answers with when the deadline does not parse. */
  const InvalidDateFormat: string := "Invalid date format"
}
