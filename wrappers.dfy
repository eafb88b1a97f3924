/** Optional values: `None` stands for the `null` / `undefined` of the web part's code. */
module Wrappers {

  datatype Option<+T> = None | Some(value: T)
}
