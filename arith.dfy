/** Small integer helpers shared by the plugins' models. */
module Arith {
  function Min(a: int, b: int): int { if a <= b then a else b }
}
