// Model of auxiliary.py: only `maximum` belongs to the pricing engine.

module Auxiliary {

  /** `maximum(n1, n2)`: the larger of the two arguments, `n1` on a tie. */
  function Maximum(n1: real, n2: real): (m: real)
    ensures m >= n1 && m >= n2
    ensures m == n1 || m == n2
  {
    if n1 >= n2 then n1 else n2
  }
}
