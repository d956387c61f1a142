/** Machine words, and remainders of integers. */
module MachineWords {
  /** Counters, lengths and offsets of 32 bits wrap at this value. */
  const WORD: nat := 0x1_0000_0000

  type Word32 = x: nat | x < WORD

  lemma Multiples(p: int, m: int)
    requires m > 0
    ensures p >= 1 ==> p * m >= m
    ensures p <= -1 ==> p * m <= -m
  {
  }

  /** a = q * m + b with 0 <= b < m determines the remainder. */
  lemma Remainder(a: int, m: int, q: int, b: int)
    requires m > 0 && a == q * m + b && 0 <= b < m
    ensures a % m == b
  {
    var p := a / m - q;
    assert p * m == b - a % m by {
      assert (a / m - q) * m == (a / m) * m - q * m;
    }
    Multiples(p, m);
  }
}
