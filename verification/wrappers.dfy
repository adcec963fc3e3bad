/** Small shared vocabulary: an optional value and the byte type. */
module Wrappers {

  /** A value that may be absent; `None` stands for a decoding failure. */
  datatype Option<+T> = None | Some(value: T)

  /** An octet, as produced and consumed by the text encodings. */
  type Byte = b: int | 0 <= b < 0x100
}
