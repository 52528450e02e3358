/** Optional values: an absent command-line option, or a URL that failed to parse. */
module Wrappers {

  datatype Option<+T> = None | Some(value: T)
}
