/** Go's 64-bit int: two's complement, wrapping around. */
module Int64 {
  import opened Modular

  const WORD := 0x1_0000_0000_0000_0000
  const HALF := 0x8000_0000_0000_0000

  /** What a 64-bit integer makes of a value. */
  function Wrap(n: int): int {
    (n + HALF) % WORD - HALF
  }

  lemma WrapRange(n: int)
    ensures -HALF <= Wrap(n) < HALF && (-HALF <= n < HALF ==> Wrap(n) == n)
  {}

  lemma WrapWhole(n: int) returns (k: int)
    ensures Wrap(n) == n + WORD * k
  {
    k := -((n + HALF) / WORD);
  }

  lemma WrapShift(n: int, k: int)
    ensures Wrap(n + WORD * k) == Wrap(n)
  {
    ModPlus(n + HALF, WORD, k);
  }
}
