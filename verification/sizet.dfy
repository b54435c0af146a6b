/** Unsigned machine counters (C++ `size_t`): increments are unbounded in the
    model, decrements of zero wrap around to the largest value. */
module SizeT {

  /** Largest value of a 64-bit `size_t`. */
  const MAX: nat := 0xFFFF_FFFF_FFFF_FFFF

  /** `--x` on a `size_t`. */
  function Dec(x: nat): (r: nat)
    ensures x > 0 ==> r + 1 == x
    ensures x == 0 ==> r == MAX
  {
    if x == 0 then MAX else x - 1
  }
}
