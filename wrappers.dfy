/** Optional values: `None` stands for the exception a java.time factory throws
    on an out-of-range date. */
module Wrappers {
  datatype Option<+T> = None | Some(value: T)
}
