/** Products and quotients, kept behind names so that proofs can do without their definitions. */
module Arithmetic {
  function Mul(a: nat, b: nat): nat { a * b }

  lemma MulAdds(a: nat, c: nat, b: nat)
    ensures Mul(a + c, b) == Mul(a, b) + Mul(c, b)
  {
  }

  lemma MulEnds(b: nat)
    ensures Mul(0, b) == 0 && Mul(1, b) == b == Mul(b, 1)
  {
  }

  lemma MulGrows(a: nat, b: nat, c: nat, d: nat)
    requires a <= b && c <= d
    ensures Mul(a, c) <= Mul(b, d)
  {
    assert a * c <= b * c;
    assert b * c <= b * d;
  }

  /** A quotient and a remainder are determined by their sum. */
  lemma Quotient(x: nat, m: nat, q: nat, r: nat)
    requires r < m && x == Mul(q, m) + r
    ensures x / m == q && x % m == r
  {
    hide Mul;
    Divided(x, m);
    var d := x / m;
    MulEnds(m);
    if d > q {
      MulAdds(q, 1, m);
      MulGrows(q + 1, d, m, m);
    } else if d < q {
      MulAdds(d, 1, m);
      MulGrows(d + 1, q, m, m);
    }
  }

  /** A number is its quotient times the divisor and its remainder. */
  lemma Divided(x: nat, m: nat)
    requires m > 0
    ensures x / m >= 0 && x == Mul(x / m, m) + x % m && x % m < m
  {
  }
}
