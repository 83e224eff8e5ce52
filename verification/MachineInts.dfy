/** The widths of the machine integers, as numbers of their values, and the largest int. */
module MachineInts {
  const UINT32: nat := 0x1_0000_0000
  const UINT64: nat := 0x1_0000_0000_0000_0000
  const UINT128: nat := 0x1_0000_0000_0000_0000_0000_0000_0000_0000
  const INT_MAX: int := 0x7FFF_FFFF

  type Word = x: int | 0 <= x < UINT64
}
