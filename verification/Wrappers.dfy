/** The optional value used for every `std::optional` and every "0 means failure" result. */
module Wrappers {

  datatype Option<+T> = None | Some(value: T)
}
