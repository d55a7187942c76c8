/** Small shared vocabulary. */
module Prelude {
  datatype Option<+T> = None | Some(value: T)

  /** A configuration value that must be at least one. */
  type pos = x: int | x >= 1 witness 1

  function Max(a: int, b: int): int {
    if a >= b then a else b
  }

  function Min(a: int, b: int): int {
    if a <= b then a else b
  }

  /** Multiplying by a positive number keeps the order. */
  lemma Scale(x: real, y: real, w: real)
    requires w > 0.0
    ensures x <= y <==> x * w <= y * w
    ensures x < y <==> x * w < y * w
  {
    assert (y - x) * w == y * w - x * w;
  }
}
