/** Signed 64-bit arithmetic: Go's `int` and `time.Duration`. */
module Int64 {
  const MAX_INT: int := 0x7FFF_FFFF_FFFF_FFFF
  const TWO_63: int := 0x8000_0000_0000_0000
  const TWO_64: int := 0x1_0000_0000_0000_0000

  /** The signed 64-bit number that an integer wraps around to. */
  function Wrap64(v: int): (r: int)
    ensures -TWO_63 <= r < TWO_63
    ensures -TWO_63 <= v < TWO_63 <==> r == v
    ensures TWO_63 <= v < TWO_64 + TWO_63 ==> r == v - TWO_64
  {
    (v + TWO_63) % TWO_64 - TWO_63
  }

  lemma AtLeastOnce(k: int, m: int)
    requires k >= 1 && m > 0
    ensures k * m >= m
  {
    assert (k - 1) * m >= 0;
  }

  /** Quotient and remainder are determined by the division equation. */
  lemma ModUnique(a: int, m: int, q: int, r: int)
    requires m > 0 && 0 <= r < m && a == q * m + r
    ensures a % m == r && a / m == q
  {
    var q', r' := a / m, a % m;
    assert a == q' * m + r' && (q - q') * m == q * m - q' * m;
    if q > q' {
      AtLeastOnce(q - q', m);
    } else if q < q' {
      AtLeastOnce(q' - q, m);
    }
  }

  /** Multiples of 2^64 are lost. */
  lemma WrapPeriod(v: int, k: int)
    ensures Wrap64(v + k * TWO_64) == Wrap64(v)
  {
    var q, r := (v + TWO_63) / TWO_64, (v + TWO_63) % TWO_64;
    assert v + k * TWO_64 + TWO_63 == (q + k) * TWO_64 + r;
    ModUnique(v + k * TWO_64 + TWO_63, TWO_64, q + k, r);
  }
}
