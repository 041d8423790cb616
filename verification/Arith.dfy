/** Euclidean division, stated once for every component that divides. */
module Arith {

  lemma MulAtLeast(a: int, n: int)
    requires a >= 0 && n >= 1
    ensures a * n >= a
  {
  }

  lemma SmallMultiple(a: int, n: int)
    requires -a < a * n < a
    ensures n == 0
  {
    if n >= 1 {
      MulAtLeast(a, n);
    } else if n <= -1 {
      MulAtLeast(a, -n);
    }
  }

  /** Quotient and remainder are unique. */
  lemma DivModUnique(a: nat, q: int, r: nat)
    requires r < a
    ensures (a * q + r) / a == q && (a * q + r) % a == r
  {
    var x := a * q + r;
    assert x == a * (x / a) + x % a;
    assert a * (x / a - q) == r - x % a;
    SmallMultiple(a, x / a - q);
  }
}
