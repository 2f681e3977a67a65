/** Optional values: `None` stands for JavaScript's `undefined` / "no match". */
module Wrappers {
  datatype Option<+T> = None | Some(value: T)
}
