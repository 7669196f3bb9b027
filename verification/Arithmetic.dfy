/** The few facts about products, quotients and powers of two that the proofs need. */
module Arithmetic {

  function Pow2(n: nat): (r: nat)
    ensures r > 0
  {
    if n == 0 then 1 else 2 * Pow2(n - 1)
  }

  lemma {:induction false} Pow2Monotone(a: nat, b: nat)
    requires a <= b
    ensures Pow2(a) <= Pow2(b)
  {
    if a < b {
      Pow2Monotone(a, b - 1);
    }
  }

  lemma MulMonotone(a: nat, b: nat, c: nat)
    requires a <= b
    ensures a * c <= b * c
  {
  }

  lemma NextMultiple(a: nat, b: nat)
    ensures (a + 1) * b == a * b + b
  {
  }

  lemma DivUnique(x: nat, d: nat, q: nat, r: nat)
    requires r < d && x == q * d + r
    ensures x / d == q && x % d == r
  {
    var e := x / d;
    assert x == e * d + x % d;
    if e < q {
      MulMonotone(e + 1, q, d);
    } else if e > q {
      MulMonotone(q + 1, e, d);
    }
  }

  lemma DivMonotone(a: nat, b: nat, c: nat)
    requires a <= b && 0 < c
    ensures a / c <= b / c
  {
    var x, y := a / c, b / c;
    assert x * c <= a && b < y * c + c;
    if x > y {
      MulMonotone(y + 1, x, c);
    }
  }

  lemma DivAtLeastOne(a: nat, b: nat)
    requires 0 < b <= a
    ensures a / b >= 1
  {
  }

  lemma DivMod(x: nat, d: nat)
    requires 0 < d
    ensures x == (x / d) * d + x % d
  {
  }

  /** Quotient and remainder at once. */
  method DivRem(x: nat, d: nat) returns (q: nat, r: nat)
    requires 0 < d
    ensures q == x / d && r == x % d && x == q * d + r
  {
    q, r := x / d, x % d;
    DivMod(x, d);
  }
}
