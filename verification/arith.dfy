/** Facts about Euclidean division used by the controller's modular counters and clock carries. */
module Arith {

  /** Adding one before or after reducing modulo n gives the same residue. */
  lemma ModSucc(x: nat, n: nat)
    requires 0 < n
    ensures (x % n + 1) % n == (x + 1) % n
  {
    var q := x / n;
    assert x == q * n + x % n;
    if x % n + 1 < n {
      assert x + 1 == q * n + (x % n + 1);
      ModUnique(x + 1, n, q, x % n + 1);
    } else {
      assert x + 1 == (q + 1) * n + 0;
      ModUnique(x + 1, n, q + 1, 0);
    }
  }

  /** A quotient/remainder decomposition determines the remainder. */
  lemma ModUnique(x: nat, n: nat, q: nat, r: nat)
    requires 0 < n && r < n && x == q * n + r
    ensures x % n == r
  {
    var q' := x / n;
    assert (q - q') * n == x % n - r;
    SmallMultipleIsZero(q - q', n);
  }

  /** The only multiple of n strictly between -n and n is 0. */
  lemma SmallMultipleIsZero(k: int, n: int)
    requires 0 < n && -n < k * n < n
    ensures k == 0
  {
  }

  /** Multiplying by a natural number preserves order. */
  lemma MulMono(a: nat, b: nat, n: nat)
    requires a <= b
    ensures a * n <= b * n
  {
    assert b * n == a * n + (b - a) * n;
  }
}
