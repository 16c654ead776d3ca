// Event masks of src/ae.c and the event words of src/ae_epoll.src.

module AeMasks {
  const EPOLLIN: int := 1
  const EPOLLOUT: int := 4

  // Event masks are machine words; AE_READABLE is bit 0, AE_WRITABLE bit 1.
  type Mask = bv32
  const AE_NONE: Mask := 0

  function Merge(a: Mask, b: Mask): Mask { a | b }

  function Clear(a: Mask, b: Mask): Mask { a & !b }

  function Rest(m: Mask): Mask { m >> 1 }

  // Bit by bit, the lowest and then the rest: a merged mask has the bits of both,
  // a cleared one those of the first that the second lacks.
  lemma MergeLow(a: Mask, b: Mask)
    ensures Merge(a, b) % 2 == 1 <==> a % 2 == 1 || b % 2 == 1
  {
  }

  lemma MergeRest(a: Mask, b: Mask)
    ensures Rest(Merge(a, b)) == Merge(Rest(a), Rest(b))
  {
  }

  lemma ClearLow(a: Mask, b: Mask)
    ensures Clear(a, b) % 2 == 1 <==> a % 2 == 1 && b % 2 == 0
  {
  }

  lemma ClearRest(a: Mask, b: Mask)
    ensures Rest(Clear(a, b)) == Clear(Rest(a), Rest(b))
  {
  }

  lemma TwoBits(a: Mask, b: Mask)
    ensures Merge(a, b) % 2 == 1 <==> a % 2 == 1 || b % 2 == 1
    ensures Merge(a, b) / 2 % 2 == 1 <==> a / 2 % 2 == 1 || b / 2 % 2 == 1
    ensures Clear(a, b) % 2 == 1 <==> a % 2 == 1 && b % 2 == 0
    ensures Clear(a, b) / 2 % 2 == 1 <==> a / 2 % 2 == 1 && b / 2 % 2 == 0
  {
  }

  // What the kernel should watch for a mask: input is 1, output 4.
  function Watched(m: Mask): int {
    (if m % 2 == 1 then 1 else 0) + (if m / 2 % 2 == 1 then 4 else 0)
  }

  // The events word both aeApiAddEvent and aeApiDelEvent build from a mask.
  function Events(m: Mask): (ev: int)
    ensures ev == Watched(m)
  {
    (if m & 1 != 0 then EPOLLIN else 0) + (if m & 2 != 0 then EPOLLOUT else 0)
  }

  lemma WatchedBits(m: Mask)
    ensures Watched(m) % 2 == 1 <==> m % 2 == 1
    ensures Watched(m) / 4 % 2 == 1 <==> m / 2 % 2 == 1
    ensures Watched(m) in {0, 1, 4, 5}
  {
  }

  lemma MergeIsZero(a: Mask, b: Mask)
    ensures Merge(a, b) == AE_NONE <==> a == AE_NONE && b == AE_NONE
  {
  }

  lemma ClearZero(b: Mask)
    ensures Clear(AE_NONE, b) == AE_NONE
  {
  }
}
