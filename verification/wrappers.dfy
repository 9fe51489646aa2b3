/**
 The optional value used throughout the model: a regex match that may fail, a manifest
 field that may be absent, a pack loop pass that may push nothing.
 */
module Wrappers {
  datatype Option<T> = None | Some(value: T)
}
