/** Facts about bytes as bit vectors. */
module Bits {
  lemma XorCancels(a: bv8, k: bv8)
    ensures (a ^ k) ^ k == a
  {
  }
}
