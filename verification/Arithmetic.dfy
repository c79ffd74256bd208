/** Quotients, remainders and rounding of natural numbers. */
module Arithmetic {

  lemma MulMonotone(x: int, y: int, c: nat)
    requires x <= y
    ensures x * c <= y * c
  {
  }

  lemma DivMod(n: nat, c: nat)
    requires c > 0
    ensures n == n / c * c + n % c && 0 <= n % c < c
  {
  }

  lemma DivUnique(n: nat, c: nat, q: nat, r: nat)
    requires n == q * c + r && r < c
    ensures n / c == q && n % c == r
  {
    DivMod(n, c);
    if n / c > q {
      MulMonotone(q + 1, n / c, c);
    } else if n / c < q {
      MulMonotone(n / c + 1, q, c);
    }
  }

  lemma MultipleMod(q: nat, c: nat)
    requires c > 0
    ensures (q * c) % c == 0 && (q * c) / c == q
  {
    DivUnique(q * c, c, q, 0);
  }

  /** The least multiple of c that is at least `value`. */
  function Ceil(value: nat, c: nat): (r: nat)
    requires c > 0
    ensures value <= r < value + c && r % c == 0
  {
    if value % c == 0 then value else
      CeilIsMultiple(value, c);
      value + c - value % c
  }

  lemma CeilIsMultiple(value: nat, c: nat)
    requires c > 0 && value % c != 0
    ensures (value + c - value % c) % c == 0
  {
    DivMod(value, c);
    MultipleMod(value / c + 1, c);
  }

  lemma Successor(n: nat, c: nat)
    ensures (n + 1) * c == n * c + c
  {
  }

  function Quo(n: nat, c: nat): nat
    requires c > 0
  {
    n / c
  }

  function Rem(n: nat, c: nat): (r: nat)
    requires c > 0
    ensures r < c
  {
    n % c
  }

  lemma QuoRem(n: nat, c: nat)
    requires c > 0
    ensures n == Quo(n, c) * c + Rem(n, c)
  {
    DivMod(n, c);
  }

  lemma Subtract(a: int, b: int, c: int)
    ensures (a - b) * c == a * c - b * c
  {
  }
}
