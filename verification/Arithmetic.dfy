/** Products, quotients and remainders. */
module Arithmetic {

  lemma MulMono(a: nat, b: nat, c: nat)
    requires a <= b
    ensures a * c <= b * c
  {
    assert b * c == a * c + (b - a) * c;
  }

  lemma AtLeast(e: int, d: nat)
    requires e >= 1
    ensures e * d >= d
  {
    assert e * d == (e - 1) * d + d;
  }

  /** Quotient and remainder, once they are known. */
  lemma DivMod(a: nat, d: nat, q: nat, r: nat)
    requires r < d && a == q * d + r
    ensures a / d == q && a % d == r
  {
    var q', r' := a / d, a % d;
    var e := q' - q;
    assert e * d == r - r';
    if e > 0 { AtLeast(e, d); }
    if e < 0 { AtLeast(-e, d); }
  }
}
