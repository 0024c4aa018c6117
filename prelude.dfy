/** Small shared vocabulary: Rust's unsigned integer widths used by the
    model and the Option type that stands for Rust's Option and for the
    Ok/Err of the parse results that the resolver only tests for success. */
module Prelude {

  newtype u8 = x: int | 0 <= x < 0x100

  newtype u16 = x: int | 0 <= x < 0x1_0000

  datatype Option<+T> = None | Some(value: T)
}
