/** The capped binomial of pkg/crypto/bls.go, on machine integers. */
module Binomials {
  import opened NumberTheory

  const CAP := 1_000_000_000
  const INT64_LIMIT := 0x8000_0000_0000_0000

  /** The number of k-element subsets of an n-element set (Pascal's rule). */
  function Choose(n: nat, k: nat): nat {
    if k == 0 then 1 else if n == 0 then 0 else Choose(n - 1, k - 1) + Choose(n - 1, k)
  }

  lemma {:induction false} ChooseTooMany(n: nat, k: nat)
    ensures k > n ==> Choose(n, k) == 0
    ensures Choose(n, n) == 1
  {
    if n > 0 {
      if k > n {
        ChooseTooMany(n - 1, k - 1);
        ChooseTooMany(n - 1, k);
      }
      ChooseTooMany(n - 1, n);
    }
  }

  lemma {:induction false} ChooseSymmetric(n: nat, k: nat)
    requires k <= n
    ensures Choose(n, k) == Choose(n, n - k)
  {
    ChooseTooMany(n, n);
    if 0 < k < n {
      ChooseSymmetric(n - 1, k - 1);
      ChooseSymmetric(n - 1, k);
    }
  }

  lemma {:induction false} ChoosePositive(n: nat, k: nat)
    requires k <= n
    ensures Choose(n, k) > 0
  {
    if 0 < k {
      ChoosePositive(n - 1, k - 1);
    }
  }

  /** The step from one coefficient of a row to the next. */
  lemma {:induction false} ChooseStep(n: nat, k: nat)
    requires k < n
    ensures (k + 1) * Choose(n, k + 1) == (n - k) * Choose(n, k)
  {
    if k < n - 1 {
      ChooseStep(n - 1, k);
    } else {
      ChooseTooMany(n - 1, n);
    }
    if k > 0 {
      ChooseStep(n - 1, k - 1);
      PascalAlgebra(n, k, Choose(n - 1, k - 1), Choose(n - 1, k), Choose(n - 1, k + 1));
    } else {
      PascalAlgebra(n, 0, 0, 1, Choose(n - 1, 1));
    }
  }

  lemma PascalAlgebra(n: int, k: int, d: int, c: int, e: int)
    requires k * c == (n - k) * d && (k + 1) * e == (n - 1 - k) * c
    ensures (k + 1) * (c + e) == (n - k) * (d + c)
  {
    calc {
      (k + 1) * (c + e);
      (k + 1) * c + (n - 1 - k) * c;
      k * c + (n - k) * c;
      (n - k) * (d + c);
    }
  }

  /** Up to the middle, a row increases. */
  lemma {:induction false} ChooseGrows(n: nat, i: nat, k: nat)
    requires i <= k && 2 * k <= n
    ensures Choose(n, i) <= Choose(n, k)
  {
    if i < k {
      ChooseGrows(n, i, k - 1);
      ChooseStep(n, k - 1);
      if Choose(n, k) < Choose(n, k - 1) {
        LargerFactor(k, Choose(n, k), n - (k - 1), Choose(n, k - 1));
      }
    }
  }

  lemma LargerFactor(a: nat, x: nat, b: nat, y: nat)
    requires a <= b && x < y && 0 < b
    ensures a * x < b * y
  {
    assert b * y - a * x == b * (y - x) + (b - a) * x;
  }

  /** The gcd loop. */
  method ComputeGcd(a: nat, b: nat) returns (g: nat)
    requires a > 0 || b > 0
    ensures g == Gcd(a, b) && Divides(g, a) && Divides(g, b)
    ensures forall d :: d > 0 && Divides(d, a) && Divides(d, b) ==> Divides(d, g) && d <= g
  {
    var x: nat, y: nat := a, b;
    while y != 0
      invariant x > 0 || y > 0
      invariant Gcd(x, y) == Gcd(a, b)
      decreases y
    {
      x, y := y, x % y;
    }
    g := x;
    GcdDivides(a, b);
    forall d | d > 0 && Divides(d, a) && Divides(d, b)
      ensures Divides(d, g) && d <= g
    {
      GcdIsGreatest(a, b, d);
    }
  }

  /** With common factors taken out first, the division leaves no remainder and the quotient is exact. */
  lemma ExactStep(c: nat, m: nat, d: nat, next: nat)
    requires c > 0 && d > 0 && d * next == m * c
    ensures var g := Gcd(c, d);
            && Divides(g, d) && d / g > 0 && Divides(d / g, m)
            && (c / g) * (m / (d / g)) == next
  {
    var g := Gcd(c, d);
    GcdDivides(c, d);
    var c' := Quotient(g, c);
    var d' := Quotient(g, d);
    var u, v := ReducedAreCoprime(c, d);
    PositiveFactor(d', g);
    CrossMultiples(c', d', g, m, next);
    DividesMultiple(d', next);
    EuclidsLemma(d', c', m, u, v);
    var m' := Quotient(d', m);
    ExactQuotient(c', m', d', next);
  }

  lemma CrossMultiples(c: int, d: int, g: int, m: int, next: int)
    requires g > 0 && (d * g) * next == m * (c * g)
    ensures c * m == next * d
  {
    assert (c * m) * g == m * (c * g);
    assert (next * d) * g == (d * g) * next;
    CancelFactor(c * m, next * d, g);
  }

  lemma ExactQuotient(c: int, m: int, d: int, next: int)
    requires d > 0 && c * (m * d) == next * d
    ensures c * m == next
  {
    assert (c * m) * d == c * (m * d);
    CancelFactor(c * m, next, d);
  }

  lemma PositiveFactor(a: int, b: int)
    requires b > 0 && a * b > 0
    ensures a > 0
  {
    if a <= 0 {
      NonPositiveProduct(a, b);
    }
  }

  lemma NonPositiveProduct(a: int, b: int)
    requires a <= 0 && b > 0
    ensures a * b <= 0
  {
  }

  lemma CancelFactor(x: int, y: int, g: int)
    requires g > 0 && x * g == y * g
    ensures x == y
  {
    if x != y {
      assert (x - y) * g == 0;
      NonzeroMultiple(x - y, g);
    }
  }

  /** binomial: C(n, k) up to the cap, for every k and every n whose products fit int64. */
  method Binomial(n: int, k: int) returns (r: int)
    requires n <= INT64_LIMIT / CAP
    ensures k < 0 || k > n ==> r == 0
    ensures 0 <= k <= n ==> r == if Choose(n, k) < CAP then Choose(n, k) else CAP
    ensures 0 <= k <= n ==> r == if Choose(n, k) < 1_000_000_000 then Choose(n, k) else 1_000_000_000
  {
    if k > n || k < 0 {
      return 0;
    }
    ChooseTooMany(n, n);
    if k == 0 || k == n {
      return 1;
    }
    ChooseSymmetric(n, k);
    var m := k;
    if m > n - m {
      m := n - m;
    }
    var result := 1;
    for i := 0 to m
      invariant result == Choose(n, i) <= CAP
    {
      ChoosePositive(n, i);
      ChooseStep(n, i);
      ExactStep(result, n - i, i + 1, Choose(n, i + 1));
      var g := ComputeGcd(result, i + 1);
      var left, right := result / g, (n - i) / ((i + 1) / g);
      var product := left * right;
      ProductFitsInt64(result, g, n, i);
      assert 0 <= product < INT64_LIMIT && product == Choose(n, i + 1);
      if product > CAP {
        ChooseGrows(n, i + 1, m);
        return CAP;
      }
      result := product;
    }
    r := result;
  }

  /** Every product that the loop forms fits int64: its factors are at most the cap and n. */
  lemma ProductFitsInt64(result: nat, g: nat, n: nat, i: nat)
    requires 0 < g && result <= CAP && i < n <= INT64_LIMIT / CAP && (i + 1) / g > 0
    ensures 0 <= (result / g) * ((n - i) / ((i + 1) / g)) < INT64_LIMIT
  {
    var left, right := result / g, (n - i) / ((i + 1) / g);
    QuotientAtMost(result, g);
    QuotientAtMost(n - i, (i + 1) / g);
    ProductAtMost(left, CAP, right, INT64_LIMIT / CAP);
  }

  lemma QuotientAtMost(x: nat, d: nat)
    requires d > 0
    ensures 0 <= x / d <= x
  {
    var q := x / d;
    assert x == d * q + x % d;
    if q < 0 {
      NonzeroMultiple(q, d);
    } else {
      AtLeastFactor(q, d);
    }
  }

  lemma AtLeastFactor(q: nat, d: nat)
    requires d > 0
    ensures d * q >= q
  {
    assert d * q == q + (d - 1) * q;
  }

  lemma ProductAtMost(a: nat, b: nat, c: nat, d: nat)
    requires a <= b && c <= d
    ensures a * c <= b * d
  {
    assert b * d - a * c == (b - a) * d + a * (d - c);
  }
}
