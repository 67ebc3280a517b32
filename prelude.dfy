/** The small vocabulary shared by every module: Rust's `Option` and the
    machine integer widths that matter to the model. */
module Prelude {

  datatype Option<+T> = None | Some(value: T)

  /** `usize::MAX` and `isize::MAX` on a 64-bit target. */
  const USIZE_MAX: int := 0xFFFF_FFFF_FFFF_FFFF
  const ISIZE_MAX: int := 0x7FFF_FFFF_FFFF_FFFF

  type usize = x: int | 0 <= x <= USIZE_MAX
  type u16 = x: int | 0 <= x < 0x1_0000
}
