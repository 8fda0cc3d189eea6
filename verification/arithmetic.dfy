/** Division facts the row-major board layout and JavaScript's remainder
    need: Dafny's `/` and `%` are Euclidean, and these pin them down on
    exact positions. */
module Arithmetic {

  /** A positive multiple of `n` is at least `n`. */
  lemma {:induction false} MultipleAtLeast(a: int, n: nat)
    requires a >= 1
    ensures a * n >= n
    decreases a
  {
    if a > 1 {
      MultipleAtLeast(a - 1, n);
      assert a * n == (a - 1) * n + n;
    }
  }

  /** `row * n + column` divided by `n` is `row`, remainder `column`:
      the quotient and remainder are the only ones with `0 <= column < n`. */
  lemma DivModOf(row: int, column: int, n: int)
    requires 0 <= column < n
    ensures (row * n + column) / n == row && (row * n + column) % n == column
  {
    var k := row * n + column;
    var q, m := k / n, k % n;
    assert k == q * n + m && 0 <= m < n;
    if q > row {
      MultipleAtLeast(q - row, n);
      assert false;
    } else if q < row {
      MultipleAtLeast(row - q, n);
      assert false;
    }
  }
}
