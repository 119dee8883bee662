/** Optional values: stand in for JavaScript's `null` / `undefined` and for parses that can fail. */
module Wrappers {

  datatype Option<+T> = None | Some(value: T)
}
