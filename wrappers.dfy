// Optional values and the outcome of one call to the remote gateway API.
module Wrappers {

  datatype Option<T> = None | Some(value: T)

  /** What one remote gateway call gives back: the part of the parsed reply
      the caller reads, or `Failed` when the HTTP call threw or its body
      could not be parsed (both end the calling operation with an error). */
  datatype Remote<T> = Reply(body: T) | Failed
}
