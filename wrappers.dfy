/** Option is the model's stand-in for a Go result that may be nil, and for an
    operating-system read that may fail. */
module Wrappers {

  datatype Option<+T> = None | Some(value: T)
}
