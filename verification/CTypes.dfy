/** The C integer types of the LP64 platforms the module is built for. Every operation on them is
    checked to stay in range, so no model below relies on wrap-around. */
module CTypes {
  newtype int32 = i: int | -0x8000_0000 <= i < 0x8000_0000
  newtype int64 = i: int | -0x8000_0000_0000_0000 <= i < 0x8000_0000_0000_0000
  newtype uint64 = i: int | 0 <= i < 0x1_0000_0000_0000_0000

  const INT_MAX: int32 := 0x7FFF_FFFF
  const ULONG_MAX: uint64 := 0xFFFF_FFFF_FFFF_FFFF
}
