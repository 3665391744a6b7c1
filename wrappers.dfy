/** Small failure-carrying datatypes shared by the model of server.js. */
module Wrappers {

  /** A value that may be missing: JavaScript's `undefined`/`null` versus a present value. */
  datatype Option<+T> = None | Some(value: T)

  /** How a promise settles: it resolves with a value or it is rejected with an error message. */
  datatype Outcome<+T> = Resolved(value: T) | Rejected(message: string)
}
