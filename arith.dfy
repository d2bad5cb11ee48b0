/** Integer facts the index arithmetic of the planes relies on. */
module Arith {

  /** Euclidean division is determined by a quotient and a remainder in range. */
  lemma DivModUnique(a: int, d: int, q: int, r: int)
    requires 0 < d && 0 <= r < d && a == q * d + r
    ensures a / d == q && a % d == r
  {
    var q', r' := a / d, a % d;
    assert a == q' * d + r';
    assert (q - q') * d == r' - r;
    if q > q' {
      MulAtLeast(q - q', d);
    } else if q < q' {
      MulAtLeast(q' - q, d);
    }
  }

  /** A product with a positive factor is at least the other factor. */
  lemma MulAtLeast(t: int, d: int)
    requires 1 <= t && 0 < d
    ensures t * d >= d
  {
    assert t * d == (t - 1) * d + d;
    MulNonNegative(t - 1, d);
  }

  lemma MulNonNegative(a: int, b: int)
    requires 0 <= a && 0 <= b
    ensures 0 <= a * b
  {
  }

  /** Multiplication by a non-negative factor is monotone. */
  lemma MulMonotone(a: int, b: int, c: int)
    requires a <= b && 0 <= c
    ensures a * c <= b * c
  {
    MulNonNegative(b - a, c);
    assert b * c - a * c == (b - a) * c;
  }

  /** Row-major position: a cell in an earlier row comes before every cell of a later row. */
  lemma RowMajorBefore(r: int, c: int, r': int, width: int)
    requires 0 <= r < r' && 0 <= c < width
    ensures r * width + c < r' * width
  {
    MulMonotone(r + 1, r', width);
    assert (r + 1) * width == r * width + width;
  }

  /** Row-major position of a cell of a rows x width grid lies below rows * width. */
  lemma RowMajorBound(r: int, c: int, rows: int, width: int)
    requires 0 <= r < rows && 0 <= c < width
    ensures 0 <= r * width + c < rows * width
  {
    MulNonNegative(r, width);
    RowMajorBefore(r, c, rows, width);
  }

  /** Stepping an even index by 2 stays within an even bound. */
  lemma EvenStep(a: int, b: int)
    requires a % 2 == 0 && b % 2 == 0 && a < b
    ensures a + 2 <= b && (a + 2) / 2 == a / 2 + 1
  {
  }

  /** One more row of `size`. */
  lemma MulSuccessor(n: nat, size: nat)
    ensures (n + 1) * size == n * size + size
  {
  }
}
