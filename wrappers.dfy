/** The optional result of a pop: `std::optional<T>` of the source. */
module Wrappers {

  datatype Option<+T> = None | Some(value: T)
}
