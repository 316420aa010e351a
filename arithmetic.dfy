/** Facts about integer multiplication and Euclidean division used by the layout proofs. */
module Arithmetic {
  /** Division by `d` undoes `q * d + r` for a remainder below `d`. */
  lemma DivModOfSum(q: int, d: int, r: int)
    requires 0 <= r < d
    ensures (q * d + r) / d == q && (q * d + r) % d == r
  {
    var n := q * d + r;
    var q', r' := n / d, n % d;
    assert n == q' * d + r' && 0 <= r' < d;
    if q' > q {
      MulMonotone(q + 1, q', d);
      assert false;
    } else if q' < q {
      MulMonotone(q' + 1, q, d);
      assert false;
    }
  }

  lemma MulMonotone(a: int, b: int, c: int)
    requires a <= b && 0 <= c
    ensures a * c <= b * c
  {
  }

  /** `x / d == q` exactly when x lies in the half-open interval [q * d, q * d + d). */
  lemma DivIff(x: int, d: int, q: int)
    requires 1 <= d
    ensures x / d == q <==> q * d <= x < q * d + d
  {
    if q * d <= x < q * d + d {
      DivModOfSum(q, d, x - q * d);
    }
  }

  /** A quotient of a number below `m * d` is below `m`. */
  lemma DivBelow(x: int, d: int, m: int)
    requires 1 <= d && 0 <= x < m * d
    ensures 0 <= x / d < m
  {
    var q := x / d;
    if q >= m {
      MulMonotone(m, q, d);
      assert false;
    } else if q < 0 {
      MulMonotone(q, -1, d);
      assert false;
    }
  }

  /** Row-major index `row * g + col` of a cell of a g-by-g grid lies in [0, g * g). */
  lemma GridIndexBound(row: int, col: int, g: int)
    requires 0 <= row < g && 0 <= col < g
    ensures 0 <= row * g + col < g * g
  {
    MulMonotone(0, row, g);
    MulMonotone(row + 1, g, g);
  }

  /** Scaling a positive real by a fraction in [0, 1) stays in [0, that real). */
  lemma ScaleBelow(f: real, x: real)
    requires 0.0 <= f < 1.0 && 0.0 < x
    ensures 0.0 <= f * x < x
  {
    assert x - f * x == (1.0 - f) * x;
  }

  /** The quotient of two naturals, the first below the second, lies in [0, 1). */
  lemma FractionBelowOne(a: int, b: int)
    requires 0 <= a < b
    ensures 0.0 <= a as real / b as real < 1.0
  {
  }
}
