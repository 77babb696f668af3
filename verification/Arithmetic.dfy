/** Facts about products, quotients and remainders that the solver does not find by itself. */
module Arithmetic {
  function Min(a: nat, b: nat): nat {
    if a <= b then a else b
  }

  function Max(a: nat, b: nat): nat {
    if a >= b then a else b
  }

  lemma MulMonotone(a: nat, b: nat, c: nat)
    requires a <= b
    ensures a * c <= b * c
  {
  }

  lemma MulDistributes(a: int, b: int, c: int)
    ensures (a + b) * c == a * c + b * c
  {
  }

  lemma MulAssociates(a: int, b: int, c: int)
    ensures a * (b * c) == (a * b) * c
  {
  }

  lemma DivUnique(x: nat, d: nat, q: nat)
    requires d > 0
    requires q * d <= x < (q + 1) * d
    ensures x / d == q
  {
    var p := x / d;
    assert p * d <= x < (p + 1) * d by {
      assert x == d * (x / d) + x % d;
    }
    if p < q {
      MulMonotone(p + 1, q, d);
    } else if q < p {
      MulMonotone(q + 1, p, d);
    }
  }

  lemma DivBounds(x: nat, d: nat)
    requires d > 0
    ensures 0 <= x / d
    ensures (x / d) * d <= x < (x / d + 1) * d
  {
  }

  lemma ModUnique(q: nat, n: nat, r: nat)
    requires r < n
    ensures (q * n + r) % n == r
  {
    var x := q * n + r;
    DivUnique(x, n, q);
    assert x == n * (x / n) + x % n;
  }

  lemma AddingModulus(q: nat, n: nat)
    requires n > 0
    ensures (q + n) % n == q % n
  {
    var k, r := q / n, q % n;
    assert q == n * k + r;
    MulDistributes(k, 1, n);
    assert q + n == (k + 1) * n + r;
    ModUnique(k + 1, n, r);
  }
}
