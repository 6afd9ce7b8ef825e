/** The optional-value datatype used throughout the model, in place of
    JavaScript's `undefined` and of a failed match or parse. */
module Wrappers {

  datatype Option<+T> = None | Some(value: T)
}
