/** Values that may be absent: null pointers, MAP_FAILED, descriptors and ids of -1, and failed searches. */
module Wrappers {

  datatype Option<+T> = None | Some(value: T)
}
