/** Basic types used throughout the model: the optional value, where `None`
    stands for Python's `None` and for an absent JavaScript property
    (`undefined`), and the byte of an uploaded file. */
module Wrappers {

  datatype Option<+T> = None | Some(value: T)

  type Byte = bv8
}
