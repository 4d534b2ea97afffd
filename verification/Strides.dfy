/** Arithmetic of strided loops and row-major indices. */
module Strides {

  lemma MulAtLeast(m: nat, d: int)
    requires d >= 1
    ensures m * d >= m
  {
    assert m * d == m + m * (d - 1);
  }

  lemma MulMono(m: nat, a: int, b: int)
    requires a <= b
    ensures m * a <= m * b
  {
    assert m * b == m * a + m * (b - a);
  }

  /** Quotient and remainder are what they should be. */
  lemma DivMod(x: int, m: nat, q: int, r: nat)
    requires m > 0 && x == m * q + r && r < m
    ensures x % m == r && x / m == q
  {
    var q2, r2 := x / m, x % m;
    assert x == m * q2 + r2;
    assert m * (q - q2) == m * q - m * q2 == r2 - r;
    if q > q2 { MulAtLeast(m, q - q2); }
    if q < q2 { MulAtLeast(m, q2 - q); }
  }

  lemma ModStep(x: nat, m: nat)
    requires m > 0
    ensures (x + m) % m == x % m
  {
    assert x == m * (x / m) + x % m;
    assert m * (x / m + 1) == m * (x / m) + m;
    DivMod(x + m, m, x / m + 1, x % m);
  }

  /** Counters of one stride never skip a number with their remainder. */
  lemma ModGap(x: nat, y: nat, m: nat)
    requires m > 0 && x % m == y % m && x <= y < x + m
    ensures x == y
  {
    var a, b := x / m, y / m;
    assert x == m * a + x % m;
    assert y == m * b + y % m;
    assert m * (b - a) == m * b - m * a == y - x;
    if b > a { MulAtLeast(m, b - a); }
    if b < a { MulAtLeast(m, a - b); }
  }

  /** Row-major indices stay inside the matrix. */
  lemma IndexBound(i: nat, j: nat, rows: nat, cols: nat)
    requires i < rows && j < cols
    ensures 0 <= i * cols + j < rows * cols
  {
    MulAtLeast(cols, rows - i);
    assert cols * (rows - i) == rows * cols - i * cols;
  }

  /** Different cells have different indices. */
  lemma IndexInjective(i: nat, j: nat, k: nat, l: nat, cols: nat)
    requires j < cols && l < cols && i * cols + j == k * cols + l
    ensures i == k && j == l
  {
    DivMod(i * cols + j, cols, i, j);
    DivMod(k * cols + l, cols, k, l);
  }

  /** Every index belongs to a cell. */
  lemma IndexSplit(x: nat, rows: nat, cols: nat) returns (i: nat, j: nat)
    requires x < rows * cols
    ensures i < rows && j < cols && x == i * cols + j
  {
    i, j := x / cols, x % cols;
    assert x == cols * i + j;
    if i >= rows { MulMono(cols, rows, i); }
  }
}
