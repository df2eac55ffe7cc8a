/** Go's 64-bit integers. */
module Words {

  const TWO64: nat := 0x1_0000_0000_0000_0000
  const MAX_INT: int := 0x7FFF_FFFF_FFFF_FFFF

  predicate IsInt(n: int) {
    -MAX_INT - 1 <= n <= MAX_INT
  }

  /** Two's-complement wrap-around. */
  function Wrap(n: int): (r: int)
    ensures IsInt(r) && (IsInt(n) ==> r == n)
  {
    (n + MAX_INT + 1) % TWO64 - MAX_INT - 1
  }

  /** A sum of two non-negative numbers that overflows becomes negative. */
  lemma WrapOverflow(n: int)
    requires MAX_INT < n <= 2 * MAX_INT
    ensures Wrap(n) == n - TWO64 < 0
  {
    var m := n + MAX_INT + 1 - TWO64;
    assert 0 <= m < TWO64 && n + MAX_INT + 1 == m + TWO64;
    assert (m + TWO64) % TWO64 == m;
  }
}
