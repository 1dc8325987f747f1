/** The two value types shared by every module: an optional column and a call that may be refused. */
module Options {

  /** A nullable column, or the answer of a query that may find no row. */
  datatype Option<+T> = None | Some(value: T)

  /** The answer of a service call: a value, or the problem it raised. */
  datatype Result<+T, +E> = Ok(value: T) | Err(error: E)
}
