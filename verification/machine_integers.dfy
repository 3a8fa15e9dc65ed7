/** The fixed-width integers of the server code. */
module MachineIntegers {
  newtype int64 = x: int | -0x8000_0000_0000_0000 <= x < 0x8000_0000_0000_0000

  newtype uint64 = x: int | 0 <= x < 0x1_0000_0000_0000_0000

  const MAX_INT64: int64 := 0x7fff_ffff_ffff_ffff
}
