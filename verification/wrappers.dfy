/** Optional values: the state of a named inter-process object before any
    process has initialised it. */
module Wrappers {
  datatype Option<T> = None | Some(value: T)
}
