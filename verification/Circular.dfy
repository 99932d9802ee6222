/** Positions in a circular buffer, and in an open-addressed table. */
module Circular {

  /** The cell `d` places after `start`; `d` never exceeds the size, so one wrap is enough. */
  function Around(start: nat, d: nat, size: nat): (i: nat)
    requires start < size && d <= size
    ensures i < size
  {
    if start + d < size then start + d else start + d - size
  }

  /** Where position `k` of an unbounded stream, or hash `k`, lands. */
  function Landing(k: nat, size: nat): (i: nat)
    requires size > 0
    ensures i < size
  {
    k % size
  }
}
