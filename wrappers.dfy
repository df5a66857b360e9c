/** Optional values: `None` stands for JavaScript's `undefined` and for `NaN`. */
module Wrappers {

  datatype Option<+T> = None | Some(value: T)

}
