/** Greatest common divisors: the recursion of pkg/crypto/bls.go `gcd`, with the divisibility facts
    that the prime field (inverses) and the capped binomial (exact divisions) rest on. */
module NumberTheory {

  predicate Divides(d: int, n: int)
    requires d != 0
  {
    n % d == 0
  }

  function Gcd(a: nat, b: nat): (g: nat)
    requires a > 0 || b > 0
    ensures g > 0
    decreases b
  {
    if b == 0 then a else Gcd(b, a % b)
  }

  /** Coefficients u, v with a*u + b*v == Gcd(a, b). */
  function Bezout(a: nat, b: nat): (uv: (int, int))
    requires a > 0 || b > 0
    ensures a * uv.0 + b * uv.1 == Gcd(a, b)
    decreases b
  {
    if b == 0 then (1, 0)
    else
      var (u, v) := Bezout(b, a % b);
      assert a == b * (a / b) + a % b;
      BezoutStep(a, b, a / b, a % b, u, v);
      (v, u - (a / b) * v)
  }

  lemma BezoutStep(a: int, b: int, q: int, r: int, u: int, v: int)
    requires a == b * q + r
    ensures a * v + b * (u - q * v) == b * u + r * v
  {
    calc {
      a * v + b * (u - q * v);
      (b * q + r) * v + b * u - b * (q * v);
      { assert (b * q + r) * v == b * q * v + r * v; assert b * q * v == b * (q * v); }
      b * u + r * v;
    }
  }

  lemma NonzeroMultiple(k: int, d: int)
    requires k != 0 && d > 0
    ensures k * d >= d || k * d <= -d
  {
    if k > 0 {
      assert (k - 1) * d >= 0;
    } else {
      assert (-k - 1) * d >= 0;
    }
  }

  /** Division with remainder has one answer. */
  lemma ModUnique(x: int, d: int, q: int, m: int)
    requires d > 0 && 0 <= m < d && x == q * d + m
    ensures x % d == m && x / d == q
  {
    var q' := x / d;
    assert x == d * q' + x % d;
    assert (q - q') * d == x % d - m;
    if q != q' {
      NonzeroMultiple(q - q', d);
    }
  }

  lemma DividesMultiple(d: int, k: int)
    requires d > 0
    ensures Divides(d, k * d) && k * d / d == k
  {
    ModUnique(k * d, d, k, 0);
  }

  lemma Quotient(d: int, n: int) returns (k: int)
    requires d > 0 && Divides(d, n)
    ensures n == k * d && k == n / d
  {
    k := n / d;
    assert n == d * k + n % d;
  }

  /** A linear combination of multiples of d is a multiple of d. */
  lemma DividesCombination(d: int, m: int, n: int, x: int, y: int)
    requires d > 0 && Divides(d, m) && Divides(d, n)
    ensures Divides(d, m * x + n * y)
  {
    var i := Quotient(d, m);
    var j := Quotient(d, n);
    calc {
      m * x + n * y;
      (i * d) * x + (j * d) * y;
      { assert (i * d) * x == (i * x) * d && (j * d) * y == (j * y) * d; }
      (i * x) * d + (j * y) * d;
      (i * x + j * y) * d;
    }
    DividesMultiple(d, i * x + j * y);
  }

  lemma {:induction false} GcdDivides(a: nat, b: nat)
    requires a > 0 || b > 0
    ensures Divides(Gcd(a, b), a) && Divides(Gcd(a, b), b)
    decreases b
  {
    if b == 0 {
      DividesMultiple(a, 1);
    } else {
      GcdDivides(b, a % b);
      DividesCombination(Gcd(a, b), b, a % b, a / b, 1);
      assert a == b * (a / b) + (a % b) * 1;
    }
  }

  /** Every common divisor divides the gcd, so it is the greatest one. */
  lemma GcdIsGreatest(a: nat, b: nat, d: int)
    requires (a > 0 || b > 0) && d > 0 && Divides(d, a) && Divides(d, b)
    ensures Divides(d, Gcd(a, b)) && d <= Gcd(a, b)
  {
    var u, v := Bezout(a, b).0, Bezout(a, b).1;
    DividesCombination(d, a, b, u, v);
    var k := Quotient(d, Gcd(a, b));
    if k != 0 {
      NonzeroMultiple(k, d);
    }
  }

  /** After dividing out the gcd, nothing is left in common (Bezout with 1 on the right). */
  lemma ReducedAreCoprime(a: nat, b: nat) returns (u: int, v: int)
    requires a > 0 || b > 0
    ensures var g := Gcd(a, b); (a / g) * u + (b / g) * v == 1
  {
    var g := Gcd(a, b);
    GcdDivides(a, b);
    var i := Quotient(g, a);
    var j := Quotient(g, b);
    u, v := Bezout(a, b).0, Bezout(a, b).1;
    assert (i * g) * u + (j * g) * v == g;
    assert (i * u + j * v) * g == 1 * g by {
      assert (i * u + j * v) * g == (i * g) * u + (j * g) * v;
    }
    DividesMultiple(g, i * u + j * v);
    DividesMultiple(g, 1);
  }

  /** Euclid's lemma, from a Bezout identity for d and m. */
  lemma EuclidsLemma(d: int, m: int, n: int, u: int, v: int)
    requires d > 0 && m * u + d * v == 1
    requires Divides(d, m * n)
    ensures Divides(d, n)
  {
    DividesMultiple(d, n);
    assert Divides(d, d * n) by { assert d * n == n * d; }
    DividesCombination(d, m * n, d * n, u, v);
    calc {
      (m * n) * u + (d * n) * v;
      { assert (m * n) * u == (m * u) * n && (d * n) * v == (d * v) * n; }
      (m * u) * n + (d * v) * n;
      (m * u + d * v) * n;
      n;
    }
  }
}
