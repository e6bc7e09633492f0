/** What C's integer conversions do to a value, and quotients and remainders. */
module Integers {

  /** The value an unsigned word takes when it is stored in an int. */
  function ToInt(w: nat): (r: int)
    ensures -0x8000_0000 <= r < 0x8000_0000 && (w - r) % 0x1_0000_0000 == 0
  {
    var low := w % 0x1_0000_0000;
    if low < 0x8000_0000 then low else low - 0x1_0000_0000
  }

  lemma QuotientIs(x: nat, d: nat, q: nat, r: nat)
    requires x == d * q + r && r < d
    ensures x / d == q && x % d == r
  {
    assert x == d * (x / d) + x % d;
    Grows(d, x / d, q);
    Grows(d, q, x / d);
  }

  lemma {:induction false} Grows(d: nat, p: nat, q: nat)
    ensures p < q ==> d * p + d <= d * q
  {
    if p < q {
      Grows(d, p, q - 1);
    }
  }

  /** Whole multiples of the divisor add to the quotient alone. */
  lemma MoreMultiples(r: nat, d: nat, q: nat)
    requires d > 0
    ensures (d * q + r) / d == q + r / d && (d * q + r) % d == r % d
  {
    assert d * q + r == d * (q + r / d) + r % d;
    QuotientIs(d * q + r, d, q + r / d, r % d);
  }
}
