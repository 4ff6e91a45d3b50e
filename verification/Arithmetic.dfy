/** Numbers, sets and hashes: small facts that several parts use. */
module Arithmetic {

  function Min(a: int, b: int): int {
    if a < b then a else b
  }

  function Max(a: int, b: int): int {
    if a < b then b else a
  }

  lemma MulMonotone(a: int, b: int, n: nat)
    ensures a <= b ==> a * n <= b * n
  {
    assert (b - a) * n == b * n - a * n;
  }

  lemma SubsetSize<T>(a: set<T>, b: set<T>)
    requires a <= b
    ensures |a| <= |b|
  {
    assert |b| == |a| + |b - a|;
  }

  type Hash32 = x: int | 0 <= x < 0x1_0000_0000

  /** A 32-bit hash scaled down to a size, without a division. */
  function ScaledHash(hash: Hash32, size: nat): (r: nat)
    requires size > 0
    ensures r < size
  {
    ScaledBound(hash, size);
    hash * size / 0x1_0000_0000
  }

  lemma ScaledBound(hash: Hash32, size: nat)
    requires size > 0
    ensures 0 <= hash * size / 0x1_0000_0000 < size
  {
    assert 0 <= hash * size < 0x1_0000_0000 * size;
  }
}
