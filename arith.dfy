/** Integer facts shared by the models: Euclidean division and row-major cell numbering. */
module Arith {

  /** Euclidean division has one quotient and one remainder. */
  lemma {:induction false} DivModUnique(n: int, d: int, q: int, r: int)
    requires d > 0 && n == q * d + r && 0 <= r < d
    ensures q == n / d && r == n % d
  {
    var q0, r0 := n / d, n % d;
    MulSub(q, q0, d);
    if q > q0 {
      MulAtLeast(q - q0, d);
    } else if q < q0 {
      MulAtLeast(q0 - q, d);
    }
  }

  lemma {:induction false} MulSub(a: int, b: int, d: int)
    ensures a * d - b * d == (a - b) * d
  {
  }

  lemma {:induction false} MulAtLeast(k: int, d: int)
    requires k >= 1 && d > 0
    ensures k * d >= d
  {
  }

  lemma {:induction false} MulAtLeastBy(k: int, m: int, d: int)
    requires k >= m && d > 0
    ensures k * d >= m * d
  {
  }

  /**
    Cell (a, b) of an n-by-n (or n-column) grid numbered row by row is a * n + b:
    the number is in range, and dividing by n gives the row back and the
    remainder gives the column back.
   */
  lemma {:induction false} RowMajor(rows: int, n: int, a: int, b: int)
    requires 0 <= a < rows && 0 <= b < n
    ensures 0 <= a * n + b < rows * n
    ensures (a * n + b) / n == a && (a * n + b) % n == b
  {
    MulAtLeastBy(rows - 1, a, n);
    MulSub(rows, 1, n);
    DivModUnique(a * n + b, n, a, b);
  }

  /** Every cell number of a rows-by-n grid names a row in [0, rows) and a column in [0, n). */
  lemma {:induction false} RowMajorInverse(rows: int, n: int, i: int)
    requires n > 0 && 0 <= i < rows * n
    ensures 0 <= i / n < rows && 0 <= i % n < n
    ensures i == (i / n) * n + i % n
  {
    if i / n >= rows {
      MulAtLeastBy(i / n, rows, n);
    }
  }
}
