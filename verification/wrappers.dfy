/** Optional values, used for an action the interface does not offer and for a
    lookup that may find nothing. */
module Wrappers {

  datatype Option<+T> = None | Some(value: T)
}
