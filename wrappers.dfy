/** Optional values: `None` stands for the source's `null` results and for
    the exceptions a library call throws on malformed input. */
module Wrappers {
  datatype Option<+T> = None | Some(value: T)
}
