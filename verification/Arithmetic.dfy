/** The few nonlinear facts about division that raster addressing rests on. */
module Arithmetic {

  function Min(a: int, b: int): int {
    if a <= b then a else b
  }

  function Max(a: int, b: int): int {
    if a >= b then a else b
  }

  /** The least integer not below `r`. */
  function Ceil(r: real): (c: int)
    ensures c as real - 1.0 < r <= c as real
  {
    -((-r).Floor)
  }

  lemma QuotientIs(k: int, d: int, q: int)
    requires d > 0 && q * d <= k < q * d + d
    ensures k / d == q && k % d == k - q * d
  {
    var q', r' := k / d, k % d;
    assert k == q' * d + r';
    MultiplesApart(q', q, d);
    MultiplesApart(q, q', d);
  }

  lemma MultiplesApart(a: int, b: int, d: int)
    requires d > 0
    ensures a < b ==> a * d + d <= b * d
  {
    assert a < b ==> (a + 1) * d <= b * d;
  }

  lemma QuotientBounds(k: int, d: int)
    requires d > 0
    ensures k / d * d <= k < k / d * d + d && k % d == k - k / d * d
  {
  }

  lemma QuotientMonotone(a: int, b: int, d: int)
    requires d > 0 && a <= b
    ensures a / d <= b / d
  {
    QuotientBounds(a, d);
    QuotientBounds(b, d);
    var p, q := a / d, b / d;
    assert q < p ==> (q + 1) * d <= p * d;
  }

  lemma ProductMonotone(a: nat, b: nat, d: nat)
    requires a <= b
    ensures a * d <= b * d
  {
  }

  /** A row and column within bounds address a cell of the flat array. */
  lemma FlatInBounds(i: nat, j: nat, rows: nat, cols: nat)
    requires i < rows && j < cols
    ensures i * cols + j < rows * cols
    ensures (i * cols + j) / cols == i && (i * cols + j) % cols == j
  {
    ProductMonotone(i + 1, rows, cols);
    QuotientIs(i * cols + j, cols, i);
  }

  /** Every cell of the flat array has a row and a column within bounds. */
  lemma CellInBounds(k: nat, rows: nat, cols: nat)
    requires k < rows * cols
    ensures cols > 0 && k / cols < rows && k % cols < cols
    ensures k / cols * cols + k % cols == k
  {
    assert cols == 0 ==> rows * cols == 0;
    QuotientBounds(k, cols);
    var q := k / cols;
    assert q >= rows ==> q * cols >= rows * cols;
  }
}
