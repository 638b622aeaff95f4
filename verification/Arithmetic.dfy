/** The few facts about products and quotients that the proofs need spelled out. */
module Arithmetic {

  lemma AtLeast(x: int, d: nat)
    requires x >= 1
    ensures x * d >= d
  {
  }

  lemma Distribute(x: int, y: int, d: nat)
    ensures (x - y) * d == x * d - y * d
  {
  }

  lemma QuotientUnique(q: int, r: nat, a: int, b: nat, d: nat)
    requires q * d + r == a * d + b && r < d && b < d
    ensures q == a && r == b
  {
    if q < a {
      AtLeast(a - q, d);
      Distribute(a, q, d);
    } else if q > a {
      AtLeast(q - a, d);
      Distribute(q, a, d);
    }
  }

  lemma Division(q: nat, r: nat, d: nat)
    requires r < d
    ensures (q * d + r) / d == q && (q * d + r) % d == r
  {
    QuotientUnique((q * d + r) / d, (q * d + r) % d, q, r, d);
  }
}
