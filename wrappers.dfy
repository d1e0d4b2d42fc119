/** Optional values, used where the action's JavaScript has `undefined`
    or a call that can throw. */
module Wrappers {

  datatype Option<+T> = None | Some(value: T)
}
