/** The one failure-compatible wrapper the model needs: a JavaScript value
    that may be `undefined` is an `Option`. */
module Wrappers {

  datatype Option<+T> = None | Some(value: T)
}
