/** Values that may be absent. `None` plays the part of Go's `nil` for maps,
    slices and errors. */
module Nullable {

  datatype Option<T> = None | Some(value: T)
}
