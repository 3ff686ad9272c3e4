/** Optional values, used where the firmware returns null or "not found". */
module Wrappers {

  datatype Option<+T> = None | Some(value: T)

}
