/** Optional values: `None` stands for Java's `null` where the source tests for it. */
module Wrappers {

  datatype Option<+T> = None | Some(value: T)
}
