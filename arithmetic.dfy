/** Facts about Euclidean division that the countdown and the wrap-around proofs share. */
module Arithmetic {

  /** A positive multiple of a positive number is at least that number. */
  lemma {:induction false} MultipleAtLeast(m: int, k: int)
    requires m > 0 && k >= 1
    ensures m * k >= m
  {
    if k > 1 {
      MultipleAtLeast(m, k - 1);
      assert m * k == m * (k - 1) + m;
    }
  }

  /** The quotient and remainder of `x` by a positive `m` are the unique pair with `x == m*q + r`. */
  lemma DivModUnique(x: int, m: int, q: int, r: int)
    requires m > 0 && x == m * q + r && 0 <= r < m
    ensures x / m == q && x % m == r
  {
    var q0, r0 := x / m, x % m;
    assert m * q0 + r0 == m * q + r;
    if q0 > q {
      MultipleAtLeast(m, q0 - q);
      assert false;
    } else if q0 < q {
      MultipleAtLeast(m, q - q0);
      assert false;
    }
  }
}
