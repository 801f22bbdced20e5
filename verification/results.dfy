/** Values shared by every model: optional values, the outcome of a model
    call (a resolved promise, a structured `{status, msg}` rejection, or a
    failure raised by the database driver), and the two readings of a raw id
    taken from a request path. */
module Results {

  datatype Option<+T> = None | Some(value: T)

  /** `Ok` is a resolved promise; `Reject` is a rejection with the
      `{status, msg}` object the models build themselves; `Fault` is a
      rejection raised by the database driver, an error object that carries
      neither a `status` nor a `msg` field. */
  datatype Result<+T> = Ok(value: T) | Reject(status: int, msg: string) | Fault

  /** How a raw path parameter is read. `numeric(s)` is JavaScript's
      `isNaN(s) === false` (its string coercion accepts "", " 7 ", "1.5",
      "1e3" and "0x1A", so it is left abstract); `asKey(s)` is the database's
      conversion of the same text, bound as a query parameter, to the integer
      key column, `None` when the database refuses the text. */
  datatype IdReading = IdReading(numeric: string -> bool, asKey: string -> Option<int>)
}
