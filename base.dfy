/** Values shared by every module: Java's nullable references and exception-or-value results. */
module Base {

  /** A Java reference that may be null: `None` stands for `null`. */
  datatype Option<+T> = None | Some(value: T)

  /** The value of a call that either returns normally or throws. */
  datatype Result<+T, +E> = Ok(value: T) | Err(error: E)

  /** A `java.lang.String` reference, possibly null. */
  type JString = Option<string>
}
