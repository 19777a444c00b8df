/** Optional values, standing in for the `null` / `undefined` results of the
    extension's helpers. */
module Wrappers {

  datatype Option<+T> = None | Some(value: T)

}
