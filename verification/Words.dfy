/** Reversal of 64-bit words. */
module Words {
  /** Reversal of a 64-bit word by exchanging ever smaller halves. */
  function ReverseBits(v0: bv64): bv64 {
    var v1 := (v0 >> 32) | (v0 << 32);
    var v2 := ((v1 >> 16) & 0x0000FFFF0000FFFF) | ((v1 & 0x0000FFFF0000FFFF) << 16);
    var v3 := ((v2 >> 8) & 0x00FF00FF00FF00FF) | ((v2 & 0x00FF00FF00FF00FF) << 8);
    var v4 := ((v3 >> 4) & 0x0F0F0F0F0F0F0F0F) | ((v3 & 0x0F0F0F0F0F0F0F0F) << 4);
    var v5 := ((v4 >> 2) & 0x3333333333333333) | ((v4 & 0x3333333333333333) << 2);
    ((v5 >> 1) & 0x5555555555555555) | ((v5 & 0x5555555555555555) << 1)
  }

  lemma ReverseMovesBit(v: bv64, i: bv64)
    requires i < 64
    ensures (ReverseBits(v) >> i) & 1 == (v >> (63 - i)) & 1
  {
  }
}
