/** Fixed-width integer types, as ranges of the unbounded integers. A value that would not fit is
    reduced explicitly where the C code truncates or wraps. */
module MachineInts {
  type byte = x: int | 0 <= x < 0x100
  type uint16 = x: int | 0 <= x < 0x1_0000
  type uint32 = x: int | 0 <= x < 0x1_0000_0000
  type int32 = x: int | -0x8000_0000 <= x < 0x8000_0000

  datatype Option<+T> = None | Some(value: T)
}
