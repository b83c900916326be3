/** Small result types shared by the model. */
module Wrappers {

  /** A Java reference that may be null. */
  datatype Option<T> = None | Some(value: T)

  /** The outcome of a Java call that either returns a value or throws
      a NullPointerException because it dereferenced null. */
  datatype Result<T> = Ok(value: T) | NullPointerError
}
