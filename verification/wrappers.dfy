/** Small failure-carrying datatypes shared by the credential modules. */
module Wrappers {

  /** A value that may be absent: a JavaScript `null`/`undefined` or a missing document field. */
  datatype Option<+T> = None | Some(value: T)
}
