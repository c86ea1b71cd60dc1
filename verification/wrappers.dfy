/** Optional values, used where the Python scripts use None or a missing
    dictionary entry. */
module Wrappers {

  datatype Option<+T> = None | Some(value: T)
}
