/** Optional values: a todo's completion time, and the arguments of the
    duration formatter, may be absent (`null` or `undefined` in JavaScript). */
module Wrappers {

  datatype Option<+T> = None | Some(value: T)
}
