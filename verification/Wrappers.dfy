/** Small failure-carrying datatypes shared by the other modules. */
module Wrappers {
  datatype Option<+T> = None | Some(value: T)

  /** The store's sentinel errors, as the HTTP layer tells them apart. */
  datatype Error = NotFound | Conflict | Invalid | Internal

  datatype Result<+T> = Ok(value: T) | Err(error: Error)
}
