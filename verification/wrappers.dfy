/** The optional value used wherever the source returns `std::string::npos`,
    a null handle or a null pointer instead of a value. */
module Wrappers {

  datatype Option<+T> = None | Some(value: T)
}
