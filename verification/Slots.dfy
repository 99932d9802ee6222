/** Slot numbers: `idx_slot`, an unsigned 64-bit integer whose maximum means "no slot". */
module Slots {
  const NONE: nat := 0xFFFF_FFFF_FFFF_FFFF

  type Slot = s: nat | s <= NONE

  /** Unsigned 64-bit subtraction: wraps around when `b > a`. */
  function Minus(a: Slot, b: Slot): Slot {
    if b <= a then a - b else a + (NONE + 1 - b)
  }

  /** Unsigned 64-bit addition: wraps around past the maximum. */
  function Plus(a: Slot, b: Slot): Slot {
    if a + b <= NONE then a + b else a + b - NONE - 1
  }

  /** Orders `NONE` ("nothing yet") below every real slot. */
  function Rank(s: Slot): int {
    if s == NONE then -1 else s
  }
}
