/** Result types and the machine types shared by the other modules. */
module Wrappers {

  datatype Option<+T> = None | Some(value: T)

  /** One octet. */
  type Byte = x: int | 0 <= x < 256

  type Bytes = seq<Byte>
}
