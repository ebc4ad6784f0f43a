/** Values shared by every module: Python's `None` results and the bytes of an image. */
module Wrappers {

  /** The optional value that stands for Python's `None` results. */
  datatype Option<+T> = None | Some(value: T)

  /** One byte of the image, as `bv.read` returns it. */
  type Byte = bv8
}
