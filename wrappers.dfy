/** The optional value used throughout the model: a C pointer that may be
    NULL, a buffer whose contents may be indeterminate. */
module Wrappers {

  datatype Option<+T> = None | Some(value: T)
}
