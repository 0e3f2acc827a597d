// Shapes shared by the models.
module Wrappers {
  datatype Option<+T> = None | Some(value: T)
}

module Bytes {
  type byte = b: int | 0 <= b < 256
}
