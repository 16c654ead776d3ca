// Unsigned 32-bit counters on integers.

module Counters {
  const TWO32: int := 0x1_0000_0000

  // The value a uint32_t holds.
  function U32(n: int): int { n % TWO32 }

  lemma U32Step(n: int)
    ensures U32(U32(n) + 1) == U32(n + 1) && U32(U32(n) - 1) == U32(n - 1)
  {
  }
}
