/** Option and Result: Java's `null` and a thrown exception as data. */
module Wrappers {

  /** A possibly absent value; `None` stands for Java's `null`. */
  datatype Option<+T> = None | Some(value: T)

  /** A value or the error that the Java code would have thrown. */
  datatype Result<+T, +E> = Ok(value: T) | Err(error: E)
}
