/** The few facts about products and quotients that the other modules need. */
module Arith {

  lemma MulMonotone(d: nat, x: nat, y: nat)
    ensures x <= y ==> d * x <= d * y
  {
  }

  lemma DivMod(n: nat, d: nat)
    requires d > 0
    ensures n == d * (n / d) + n % d && n % d < d
  {
  }

  lemma DivUnique(n: nat, d: nat, q: nat, r: nat)
    requires n == d * q + r && r < d
    ensures n / d == q && n % d == r
  {
    DivMod(n, d);
    var p := n / d;
    MulMonotone(d, q + 1, p);
    MulMonotone(d, p + 1, q);
    assert d * (p + 1) == d * p + d && d * (q + 1) == d * q + d;
  }

  lemma DivLess(n: nat, d: nat, k: nat)
    requires n < d * k
    ensures d > 0 && n / d < k
  {
    DivMod(n, d);
    MulMonotone(d, k, n / d);
  }

  lemma DivStep(n: nat, d: nat)
    requires d > 0
    ensures n / d <= (n + 1) / d <= n / d + 1
  {
    DivMod(n, d);
    var q, r := n / d, n % d;
    if r + 1 < d {
      DivUnique(n + 1, d, q, r + 1);
    } else {
      DivUnique(n + 1, d, q + 1, 0);
    }
  }

  lemma ModStep(n: nat, d: nat)
    requires d > 0
    ensures (n + 1) % d == if n % d + 1 == d then 0 else n % d + 1
  {
    DivMod(n, d);
    var q, r := n / d, n % d;
    if r + 1 < d {
      DivUnique(n + 1, d, q, r + 1);
    } else {
      DivUnique(n + 1, d, q + 1, 0);
    }
  }
}
