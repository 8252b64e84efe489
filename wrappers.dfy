/** The null-or-pointer shape used throughout the model: a descriptor pointer
    that may be null is an `Option<Id>`. */
module Wrappers {
  datatype Option<+T> = None | Some(value: T)
}
