/** Powers of two and facts about multiples used throughout. */
module Arithmetic {
  const TWO_29 := 0x2000_0000
  const TWO_31 := 0x8000_0000
  const TWO_32 := 0x1_0000_0000
  const TWO_53 := 0x20_0000_0000_0000
  const TWO_63 := 0x8000_0000_0000_0000
  const TWO_64 := 0x1_0000_0000_0000_0000

  lemma MulAtLeast(d: int, s: nat)
    requires d >= 1
    ensures d * s >= s
  {
  }

  /** Quotient and remainder are determined by n == k * s + r. */
  lemma DivUnique(n: int, s: nat, k: int, r: int)
    requires s >= 1 && n == k * s + r && 0 <= r < s
    ensures n / s == k && n % s == r
  {
    var d := k - n / s;
    assert d * s == n % s - r;
    if d >= 1 { MulAtLeast(d, s); }
    if -d >= 1 { MulAtLeast(-d, s); }
  }

  /** Comparing multiples of s. */
  lemma CompareMultiples(j: int, k: int, s: nat, r: int)
    requires s >= 1 && 0 <= r < s && j * s <= k * s + r
    ensures j <= k
  {
    assert (j - k) * s == j * s - k * s;
    if j - k >= 1 {
      MulAtLeast(j - k, s);
    }
  }

  lemma MulAssoc(j: int, k: int, s: int)
    ensures j * (s * k) == (j * k) * s
  {
  }

  lemma MulMonotone(j: int, k: int, s: nat)
    requires j <= k
    ensures j * s <= k * s
  {
  }

  lemma CompareMultiplesStrict(j: int, k: int, s: nat)
    requires j * s < k * s
    ensures j < k
  {
    if k <= j { MulMonotone(k, j, s); }
  }

  lemma NextMultiple(q: nat, s: nat)
    ensures (q + 1) * s == q * s + s
  {
  }
}
