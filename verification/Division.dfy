// Products and quotients: the arithmetic that bit-field extraction, wrapping
// addresses and multi-word results rest on.
module Division {

  lemma ProductOrder(x: int, y: int, k: nat)
    requires x <= y
    ensures x * k <= y * k
  {
  }

  /** A number has one quotient and one remainder below the divisor. */
  lemma DivisionUnique(x: int, q: int, r: nat, m: nat)
    requires m > 0 && r < m && x == q * m + r
    ensures x / m == q && x % m == r
  {
    var d := x / m - q;
    assert x == x / m * m + x % m;
    assert d * m == r - x % m;
    if d >= 1 { ProductOrder(1, d, m); } else if d <= -1 { ProductOrder(d, -1, m); }
  }

  lemma QuotientBelow(n: nat, d: nat, q: nat)
    requires d > 0 && n < q * d
    ensures n / d < q
  {
    if n / d >= q { ProductOrder(q, n / d, d); }
  }

  lemma QuotientPositive(n: nat, d: nat)
    requires 0 < d <= n
    ensures n / d >= 1
  {
    assert n == n / d * d + n % d;
  }

  /** Reducing the start first does not change where a step of any length ends. */
  lemma StepModulo(x: nat, y: nat, m: nat)
    requires m > 0
    ensures (x % m + y) % m == (x + y) % m
  {
    var z := x % m + y;
    assert x + y == (x / m + z / m) * m + z % m by {
      assert x == x / m * m + x % m && z == z / m * m + z % m;
    }
    DivisionUnique(x + y, x / m + z / m, z % m, m);
  }

  lemma MultipleDrops(q: nat, y: nat, m: nat)
    requires m > 0
    ensures (q * m + y) % m == y % m
  {
    assert q * m + y == (q + y / m) * m + y % m by { assert y == y / m * m + y % m; }
    DivisionUnique(q * m + y, q + y / m, y % m, m);
  }

  lemma ModuloTwice(z: nat, m: nat, n: nat)
    requires m > 0 && n > 0 && n % m == 0
    ensures z % n % m == z % m
  {
    var k, q, r := n / m, z / n, z % n;
    assert n == k * m && z == q * n + r;
    assert z == q * k * m + r by { assert q * n == q * (k * m) == q * k * m; }
    MultipleDrops(q * k, r, m);
  }
}
