/** The widths of the machine integers. */
module Integers {
  const TWO63: int := 0x8000_0000_0000_0000
  const TWO64: int := 0x1_0000_0000_0000_0000
}
