/** The optional value that the sampler's lookups return. */
module Wrappers {

  datatype Option<+T> = None | Some(value: T)
}
