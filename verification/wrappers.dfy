/** Optional values used across the model. */
module Wrappers {

  /** A value that may be missing: a decoder's rejection, a search that found nothing. */
  datatype Option<+T> = None | Some(value: T)
}
