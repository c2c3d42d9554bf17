/** Optional values: `undefined`/`null` in the modelled code become `None`. */
module Wrappers {

  datatype Option<+T> = None | Some(value: T)
}
