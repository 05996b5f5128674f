/** The 64-bit ranges, and division facts shared by the codecs. */
module Arithmetic {
  const MAX_UINT64: nat := 0xFFFF_FFFF_FFFF_FFFF
  const MAX_INT64: nat := 0x7FFF_FFFF_FFFF_FFFF
  const MIN_INT64: int := -0x8000_0000_0000_0000
  const MAX_INT32: nat := 0x7FFF_FFFF

  lemma DivMod(n: nat, k: nat, q: nat, r: nat)
    requires 0 < k && r < k && n == k * q + r
    ensures n / k == q && n % k == r
  {
    assert k * (n / k - q) == r - n % k;
    SmallMultiple(k, n / k - q);
  }

  lemma SmallMultiple(k: int, d: int)
    requires 0 < k && -k < k * d < k
    ensures d == 0
  {
  }

  /** A number below 256 survives in eight bits. */
  lemma BackAndForth(n: nat)
    requires n < 0x100
    ensures (n as bv8) as int == n
  {
    assert n % 0x100 == n;
  }
}
