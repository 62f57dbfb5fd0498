/** The optional-result datatype used where the source returns `undefined`
    instead of a value. */
module Wrappers {

  datatype Option<+T> = None | Some(value: T)

}
