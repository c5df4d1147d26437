/** Real products under a name, so that proofs about sums of products can leave the
    solver's nonlinear arithmetic out. */
module Reals {

  function Product(x: real, y: real): real {
    x * y
  }

  lemma ProductSign(x: real, y: real)
    ensures x > 0.0 && y > 0.0 ==> Product(x, y) > 0.0
    ensures x >= 0.0 && y >= 0.0 ==> Product(x, y) >= 0.0
    ensures Product(x, x) >= 0.0 && Product(x, y) == Product(y, x)
  {
  }
}
