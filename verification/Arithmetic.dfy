/** Division facts that the number formats share. */
module Arithmetic {
  const TwoTo64: nat := 0x1_0000_0000_0000_0000

  lemma Product(k: int, d: int)
    requires k >= 0 && d >= 0
    ensures k * d >= 0 && k * (d + 1) == k * d + k && k * (0 - d - 1) == 0 - (k * d + k)
  {
  }

  lemma Multiple(k: int, d: int)
    requires k >= 0
    ensures d > 0 ==> k * d >= k
    ensures d < 0 ==> k * d <= 0 - k
  {
    if d > 0 { Product(k, d - 1); }
    if d < 0 { Product(k, 0 - d - 1); }
  }

  lemma Unique(n: nat, k: nat, q: nat, r: nat)
    requires n == k * q + r && r < k
    ensures n / k == q && n % k == r
  {
    var d := n / k - q;
    assert k * d == r - n % k;
    Multiple(k, d);
  }

  lemma Distribute(a: nat, b: nat, u: nat, v: nat)
    ensures a * (b * u + v) == (a * b) * u + a * v
  {
    assert a * (b * u + v) == a * (b * u) + a * v;
    assert a * (b * u) == (a * b) * u;
  }

  lemma Monotone(a: nat, x: nat, y: nat)
    requires x <= y
    ensures a * x <= a * y
  {
  }

  lemma Bounded(a: nat, b: nat, v: nat, r: nat)
    requires v < b && r < a
    ensures a * b > 0 && 0 <= a * v + r < a * b
  {
    assert a * v + a == a * (v + 1);
    Monotone(a, v + 1, b);
  }

  lemma Regrouped(n: nat, a: nat, b: nat, q: nat, r: nat, u: nat, v: nat)
    requires n == a * q + r && q == b * u + v
    ensures n == (a * b) * u + (a * v + r)
  {
    Distribute(a, b, u, v);
  }

  /** Dividing twice, and the remainders. */
  lemma Quotient(n: nat, a: nat, b: nat)
    requires a > 0 && b > 0
    ensures a * b > 0 && n / a / b == n / (a * b)
    ensures n % (a * b) / a == n / a % b && n % (a * b) % a == n % a
  {
    var q, r := n / a, n % a;
    var u, v := q / b, q % b;
    Regrouped(n, a, b, q, r, u, v);
    Bounded(a, b, v, r);
    Unique(n, a * b, u, a * v + r);
    Unique(a * v + r, a, v, r);
  }

  lemma SmallQuotient(n: nat, p: nat)
    requires p > 0
    ensures n / p == 0 <==> n < p
  {
    if n < p { Unique(n, p, 0, n); }
  }
}
