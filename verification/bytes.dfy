/** Byte strings, the common currency of every other module. Rust `&str`
    and `String` values are modelled by their UTF-8 bytes. */
module Bytes {

  /** An octet. */
  type Byte = b: int | 0 <= b < 256

  /** The conventional optional value, used for decoders that may reject. */
  datatype Option<+T> = None | Some(value: T)

  /** Every byte of `s` is a 7-bit ASCII code. */
  predicate IsAscii(s: seq<Byte>)
  {
    forall i :: 0 <= i < |s| ==> s[i] < 0x80
  }
}
