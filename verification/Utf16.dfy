module Utf16 {

  /** A UTF-16 code unit. */
  newtype u16 = x: int | 0 <= x < 0x1_0000

  type Text = seq<u16>
}
