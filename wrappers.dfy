/** Optional values, for the fields TypeScript marks `?` or `| null`. */
module Wrappers {

  datatype Option<+T> = None | Some(value: T)
}
