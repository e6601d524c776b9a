/** Machine integers. The `uintN` subset types carry field values; the `wordN`
    newtypes carry arithmetic: every operation on them is checked to stay in range,
    so a body written with them is proved free of wrap-around. Where wrapping is meant,
    `ToInt64` and `ToUint64` write it out. */
module Ints {
  const UINT32_BOUND: int := 0x1_0000_0000
  const UINT64_BOUND: int := 0x1_0000_0000_0000_0000

  type uint32 = x: int | 0 <= x < UINT32_BOUND
  type uint64 = x: int | 0 <= x < UINT64_BOUND

  newtype word64 = x: int | 0 <= x < 0x1_0000_0000_0000_0000
  newtype int64 = x: int | -0x8000_0000_0000_0000 <= x < 0x8000_0000_0000_0000

  const INT64_BOUND: int := 0x8000_0000_0000_0000

  type int64v = x: int | -INT64_BOUND <= x < INT64_BOUND

  /** Go's conversions between the two 64-bit types keep the bits; arithmetic on them keeps the low 64 bits. */
  function ToInt64(x: int): int64v {
    var low := x % UINT64_BOUND;
    if low < INT64_BOUND then low else low - UINT64_BOUND
  }

  function ToUint64(x: int): uint64 { x % UINT64_BOUND }

  lemma SameResidue(x: int, y: int, k: int)
    requires x == y + k * UINT64_BOUND
    ensures x % UINT64_BOUND == y % UINT64_BOUND
  {
  }

  /** How many times 2^64 the conversion to int64 adds. */
  function Turns(x: int): int { -(x / UINT64_BOUND) - if x % UINT64_BOUND < INT64_BOUND then 0 else 1 }

  lemma Residue64(x: int)
    ensures ToInt64(x) == x + Turns(x) * UINT64_BOUND
    ensures ToInt64(x) % UINT64_BOUND == x % UINT64_BOUND
  {
    SameResidue(ToInt64(x), x, Turns(x));
  }

  datatype Option<+T> = None | Some(value: T)

  function Min(a: int, b: int): int { if a <= b then a else b }

  function Max(a: int, b: int): int { if a <= b then b else a }

  function Pow2(n: nat): nat { if n == 0 then 1 else 2 * Pow2(n - 1) }

  lemma {:induction false} Pow2Positive(n: nat)
    ensures Pow2(n) >= 1
  {
    if n > 0 { Pow2Positive(n - 1); }
  }
}
