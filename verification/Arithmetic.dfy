/** Facts about products that the solver does not find by itself. */
module Arithmetic {
  lemma Scale(x: int, y: int, size: int)
    requires x <= y && size >= 0
    ensures x * size <= y * size
    ensures (x + 1) * size == x * size + size
    ensures x * size == (x - 1) * size + size
  {
    assert y * size == x * size + (y - x) * size;
  }

  /** What a rate earns over an interval is what it earns over two halves of it. */
  lemma EarnedInHalves(rate: int, start: int, middle: int, end: int)
    ensures rate * (end - start) == rate * (middle - start) + rate * (end - middle)
  {
  }
}
