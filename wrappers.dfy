/** The optional value used throughout the model for "absent" (a missing match, a cache miss, a null response). */
module Wrappers {
  datatype Option<T> = None | Some(value: T)
}
