/** Integer minimum and maximum, as std::min and std::max compute them. */
module MinMax {
  function Min(a: int, b: int): int { if a <= b then a else b }
  function Max(a: int, b: int): int { if a >= b then a else b }
}
