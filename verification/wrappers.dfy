/** The optional value used throughout the model: an absent object key, an
    `undefined` message, a `null` regular-expression match. */
module Wrappers {

  datatype Option<+T> = None | Some(value: T)
}
