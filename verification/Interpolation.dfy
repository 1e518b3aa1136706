/** Polynomials over Z_R and Lagrange interpolation at zero: the algebra behind
    pkg/bls/polynomial.go, stated on integers and reduced once at the end. */
module Interpolation {
  import opened PrimeField
  import opened Addresses
  import opened Lists

  /** Coefficients, constant term first. */
  type Poly = seq<Elem>

  function EvalZ(p: Poly, x: int): int {
    if p == [] then 0 else p[0] + x * EvalZ(p[1..], x)
  }

  function Eval(p: Poly, x: Elem): Elem { Red(EvalZ(p, x)) }

  /** bls.EvaluatePolynomial. */
  function EvalAt(p: Poly, a: Address): Elem { Eval(p, AddressToFr(a)) }

  // Sums over a list of operators -------------------------------------------------------------

  function SumZ(ps: seq<Address>, f: Address -> int): int {
    if ps == [] then 0 else f(ps[0]) + SumZ(ps[1..], f)
  }

  /** A pointwise linear relation sums to the same linear relation. */
  lemma {:induction false} SumLinear(ps: seq<Address>, h: Address -> int,
                                     c: int, f: Address -> int, d: int, g: Address -> int)
    requires forall a :: a in ps ==> Cong(h(a), c * f(a) + d * g(a))
    ensures Cong(SumZ(ps, h), c * SumZ(ps, f) + d * SumZ(ps, g))
  {
    hide Red;
    if ps != [] {
      var a, rest := ps[0], ps[1..];
      SumLinear(rest, h, c, f, d, g);
      CongAdd(h(a), c * f(a) + d * g(a), SumZ(rest, h), c * SumZ(rest, f) + d * SumZ(rest, g));
      AddCombinations(c, f(a), SumZ(rest, f), d, g(a), SumZ(rest, g));
    }
  }

  lemma AddCombinations(c: int, u: int, u': int, d: int, v: int, v': int)
    ensures (c * u + d * v) + (c * u' + d * v') == c * (u + u') + d * (v + v')
  {
  }

  lemma SumScale(ps: seq<Address>, h: Address -> int, c: int, f: Address -> int)
    requires forall a :: a in ps ==> Cong(h(a), c * f(a))
    ensures Cong(SumZ(ps, h), c * SumZ(ps, f))
  {
    SumLinear(ps, h, c, f, 0, f);
  }

  lemma SumCong(ps: seq<Address>, h: Address -> int, f: Address -> int)
    requires forall a :: a in ps ==> Cong(h(a), f(a))
    ensures Cong(SumZ(ps, h), SumZ(ps, f))
  {
    hide Red;
    SumLinear(ps, h, 1, f, 0, f);
  }

  lemma {:induction false} SumWithout(ps: seq<Address>, m: nat, f: Address -> int)
    requires m < |ps|
    ensures SumZ(ps, f) == f(ps[m]) + SumZ(Without(ps, m), f)
  {
    if m == 0 {
      assert Without(ps, 0) == ps[1..];
    } else {
      SumWithout(ps[1..], m - 1, f);
      assert Without(ps, m) == [ps[0]] + Without(ps[1..], m - 1);
      assert ps[1..][m - 1] == ps[m];
    }
  }

  // Lagrange coefficients at zero -------------------------------------------------------------

  function NumZ(i: Address, ps: seq<Address>): int {
    if ps == [] then 1
    else NumFactor(i, ps[0]) * NumZ(i, ps[1..])
  }

  function DenZ(i: Address, ps: seq<Address>): int {
    if ps == [] then 1
    else DenFactor(i, ps[0]) * DenZ(i, ps[1..])
  }

  function Lambda(i: Address, ps: seq<Address>): Elem {
    Mul(Inv(Red(DenZ(i, ps))), Red(NumZ(i, ps)))
  }

  /** i's point is not the point of any other operator in ps. */
  ghost predicate Apart(i: Address, ps: seq<Address>) {
    forall b :: b in ps && b != i ==> AddressToFr(b) != AddressToFr(i)
  }

  lemma {:induction false} DenominatorNonzero(i: Address, ps: seq<Address>)
    requires Apart(i, ps)
    ensures !Cong(DenZ(i, ps), 0)
  {
    hide Red;
    OneNotZero();
    if ps != [] {
      DenominatorNonzero(i, ps[1..]);
      if i != ps[0] {
        assert ps[0] in ps;
        DifferentElemsDiffer(AddressToFr(i), AddressToFr(ps[0]));
        ProductNonzero(AddressToFr(i) - AddressToFr(ps[0]), DenZ(i, ps[1..]));
      }
    }
  }

  lemma OneNotZero()
    ensures !Cong(1, 0)
  {
    CongElems(1, 0);
  }

  /** The defining property of a Lagrange coefficient: lambda * denominator == numerator. */
  lemma LambdaLaw(i: Address, ps: seq<Address>)
    requires Apart(i, ps)
    ensures Cong(Lambda(i, ps) * DenZ(i, ps), NumZ(i, ps))
  {
    hide Red, Inv, DenZ, NumZ;
    var d, n := Red(DenZ(i, ps)), Red(NumZ(i, ps));
    DenominatorNonzero(i, ps);
    RedElem(0);
    InverseLaw(d);
    CongRed(DenZ(i, ps));
    CongRed(NumZ(i, ps));
    CongRed(Inv(d) * n);
    CongMul(Lambda(i, ps), Inv(d) * n, DenZ(i, ps), d);
    Regroup(n, d, Inv(d));
    CongMul(n, NumZ(i, ps), d * Inv(d), 1);
  }

  function NumFactor(i: Address, j: Address): int {
    if i != j then 0 - AddressToFr(j) else 1
  }

  function DenFactor(i: Address, j: Address): int {
    if i != j then AddressToFr(i) - AddressToFr(j) else 1
  }

  lemma {:induction false} ProductsWithout(i: Address, ps: seq<Address>, m: nat)
    requires m < |ps|
    ensures NumZ(i, ps) == NumFactor(i, ps[m]) * NumZ(i, Without(ps, m))
    ensures DenZ(i, ps) == DenFactor(i, ps[m]) * DenZ(i, Without(ps, m))
  {
    if m == 0 {
      assert Without(ps, 0) == ps[1..];
    } else {
      ProductsWithout(i, ps[1..], m - 1);
      assert Without(ps, m) == [ps[0]] + Without(ps[1..], m - 1);
      assert Without(ps, m)[1..] == Without(ps[1..], m - 1);
      assert ps[1..][m - 1] == ps[m];
      Swap(NumFactor(i, ps[0]), NumFactor(i, ps[m]), NumZ(i, Without(ps[1..], m - 1)));
      Swap(DenFactor(i, ps[0]), DenFactor(i, ps[m]), DenZ(i, Without(ps[1..], m - 1)));
    }
  }

  lemma Swap(a: int, b: int, c: int)
    ensures a * (b * c) == b * (a * c)
  {
  }

  /** Dropping operator m from the list multiplies every other coefficient by (x_i - x_m) / -x_m. */
  lemma LambdaWithout(i: Address, ps: seq<Address>, m: nat)
    requires m < |ps| && i != ps[m] && Apart(i, ps)
    ensures Cong(Lambda(i, ps) * (AddressToFr(i) - AddressToFr(ps[m])),
                 Lambda(i, Without(ps, m)) * (0 - AddressToFr(ps[m])))
  {
    hide Red, Lambda, DenZ, NumZ;
    var qs := Without(ps, m);
    var x: int, y: int := AddressToFr(i), AddressToFr(ps[m]);
    var l: int, k: int, d := Lambda(i, ps), Lambda(i, qs), DenZ(i, qs);
    ProductsWithout(i, ps, m);
    LambdaLaw(i, ps);
    LambdaLaw(i, qs);
    DenominatorNonzero(i, qs);
    Regroup(l, x - y, d);
    Regroup(k, -y, d);
    CongScale(-y, k * d, NumZ(i, qs));
    assert Cong(l * (x - y) * d, k * -y * d);
    Cancel(l * (x - y), k * -y, d);
  }

  lemma Regroup(a: int, b: int, c: int)
    ensures a * (b * c) == a * b * c == b * (a * c) == c * a * b
  {
  }

  /** Sum over qs of lambda_a(ps) * f(a): what every Lagrange loop of the repository computes. */
  function LagrangeZ(qs: seq<Address>, ps: seq<Address>, f: Address -> int): int {
    if qs == [] then 0 else Lambda(qs[0], ps) * f(qs[0]) + LagrangeZ(qs[1..], ps, f)
  }

  function AtZeroZ(ps: seq<Address>, f: Address -> int): int { LagrangeZ(ps, ps, f) }

  lemma {:induction false} LagrangeIsSum(qs: seq<Address>, ps: seq<Address>, f: Address -> int, h: Address -> int)
    requires forall a :: a in qs ==> h(a) == Lambda(a, ps) * f(a)
    ensures LagrangeZ(qs, ps, f) == SumZ(qs, h)
  {
    if qs != [] {
      LagrangeIsSum(qs[1..], ps, f, h);
    }
  }

  /** The Lagrange sum is linear in the values. */
  lemma LagrangeLinear(qs: seq<Address>, ps: seq<Address>, h: Address -> int,
                       c: int, f: Address -> int, d: int, g: Address -> int)
    requires forall a :: a in qs ==> Cong(h(a), c * f(a) + d * g(a))
    ensures Cong(LagrangeZ(qs, ps, h), c * LagrangeZ(qs, ps, f) + d * LagrangeZ(qs, ps, g))
  {
    hide Red, Lambda;
    var lh := (a: Address) => Lambda(a, ps) * h(a);
    var lf := (a: Address) => Lambda(a, ps) * f(a);
    var lg := (a: Address) => Lambda(a, ps) * g(a);
    forall a | a in qs
      ensures Cong(lh(a), c * lf(a) + d * lg(a))
    {
      CongScale(Lambda(a, ps), h(a), c * f(a) + d * g(a));
      Distribute(Lambda(a, ps), c, f(a), d, g(a));
    }
    SumLinear(qs, lh, c, lf, d, lg);
    LagrangeIsSum(qs, ps, h, lh);
    LagrangeIsSum(qs, ps, f, lf);
    LagrangeIsSum(qs, ps, g, lg);
  }

  lemma Distribute(l: int, c: int, u: int, d: int, v: int)
    ensures l * (c * u + d * v) == c * (l * u) + d * (l * v)
  {
    assert l * (c * u) == c * (l * u) && l * (d * v) == d * (l * v);
  }

  /** Multiplying the values by their points relates a list to the list without operator m. */
  lemma ShiftIdentity(ps: seq<Address>, m: nat, g: Address -> int, xg: Address -> int)
    requires m < |ps| && DistinctPoints(ps)
    requires forall a :: a in ps ==> xg(a) == AddressToFr(a) * g(a)
    ensures var y := AddressToFr(ps[m]);
            Cong(AtZeroZ(ps, xg), y * AtZeroZ(ps, g) - y * AtZeroZ(Without(ps, m), g))
  {
    hide Red, Lambda;
    var y: int := AddressToFr(ps[m]);
    var h := (a: Address) => Lambda(a, ps) * (AddressToFr(a) - y) * g(a);
    forall a | a in ps
      ensures h(a) == 1 * (Lambda(a, ps) * xg(a)) + (0 - y) * (Lambda(a, ps) * g(a))
    {
      Expand(Lambda(a, ps), AddressToFr(a), y, g(a));
    }
    ShiftOnAll(ps, 0 - y, g, xg, h);
    forall a | a in Without(ps, m)
      ensures Cong(h(a), (0 - y) * (Lambda(a, Without(ps, m)) * g(a)))
    {
      ShiftTerm(ps, m, a, g(a));
    }
    ShiftOnRest(ps, m, 0 - y, g, h);
    MoveTerm(AtZeroZ(ps, xg), y, AtZeroZ(ps, g), AtZeroZ(Without(ps, m), g));
  }

  lemma MoveTerm(sx: int, y: int, sp: int, sq: int)
    requires Cong(1 * sx + (0 - y) * sp, (0 - y) * sq)
    ensures Cong(sx, y * sp - y * sq)
  {
    hide Red;
    CongAdd(1 * sx + (0 - y) * sp, (0 - y) * sq, y * sp, y * sp);
    assert 1 * sx + (0 - y) * sp + y * sp == sx;
    assert (0 - y) * sq + y * sp == y * sp - y * sq;
  }

  lemma ShiftOnAll(ps: seq<Address>, c: int, g: Address -> int, xg: Address -> int, h: Address -> int)
    requires forall a :: a in ps ==> h(a) == 1 * (Lambda(a, ps) * xg(a)) + c * (Lambda(a, ps) * g(a))
    ensures Cong(SumZ(ps, h), 1 * AtZeroZ(ps, xg) + c * AtZeroZ(ps, g))
  {
    hide Red, Lambda;
    var fx := (a: Address) => Lambda(a, ps) * xg(a);
    var fp := (a: Address) => Lambda(a, ps) * g(a);
    LagrangeIsSum(ps, ps, xg, fx);
    LagrangeIsSum(ps, ps, g, fp);
    SumLinear(ps, h, 1, fx, c, fp);
  }

  lemma ShiftOnRest(ps: seq<Address>, m: nat, c: int, g: Address -> int, h: Address -> int)
    requires m < |ps| && h(ps[m]) == 0
    requires forall a :: a in Without(ps, m) ==> Cong(h(a), c * (Lambda(a, Without(ps, m)) * g(a)))
    ensures Cong(SumZ(ps, h), c * AtZeroZ(Without(ps, m), g))
  {
    hide Red, Lambda;
    var qs := Without(ps, m);
    var fq := (a: Address) => Lambda(a, qs) * g(a);
    LagrangeIsSum(qs, qs, g, fq);
    forall a | a in qs
      ensures Cong(h(a), c * fq(a))
    {
    }
    SumScale(qs, h, c, fq);
    SumWithout(ps, m, h);
  }

  lemma ShiftTerm(ps: seq<Address>, m: nat, a: Address, v: int)
    requires m < |ps| && DistinctPoints(ps) && a in Without(ps, m)
    ensures var y := AddressToFr(ps[m]);
            Cong(Lambda(a, ps) * (AddressToFr(a) - y) * v, (0 - y) * (Lambda(a, Without(ps, m)) * v))
  {
    hide Red, Lambda;
    var l: int, y: int := Lambda(a, Without(ps, m)), 0 - AddressToFr(ps[m]);
    WithoutDistinct(ps, m, a);
    LambdaWithout(a, ps, m);
    CongMul(Lambda(a, ps) * (AddressToFr(a) - AddressToFr(ps[m])), l * y, v, v);
    Regroup(l, y, v);
  }

  lemma WithoutDistinct(ps: seq<Address>, m: nat, a: Address)
    requires m < |ps| && DistinctPoints(ps) && a in Without(ps, m)
    ensures a in ps && a != ps[m] && Apart(a, ps)
  {
    var k :| 0 <= k < |ps| - 1 && Without(ps, m)[k] == a;
    assert ps[if k < m then k else k + 1] == a;
  }

  lemma WithoutKeepsDistinct(ps: seq<Address>, m: nat)
    requires m < |ps| && DistinctPoints(ps)
    ensures DistinctPoints(Without(ps, m))
  {
    var qs := Without(ps, m);
    forall i, j | 0 <= i < j < |qs|
      ensures AddressToFr(qs[i]) != AddressToFr(qs[j])
    {
      assert qs[i] == ps[if i < m then i else i + 1];
      assert qs[j] == ps[if j < m then j else j + 1];
    }
  }

  lemma Expand(l: int, x: int, y: int, v: int)
    ensures l * (x - y) * v == 1 * (l * (x * v)) + (-y) * (l * v)
  {
    calc {
      l * (x - y) * v;
      (l * x - l * y) * v;
      l * x * v - l * y * v;
      { assert l * x * v == l * (x * v) && l * y * v == y * (l * v); }
      l * (x * v) + (-y) * (l * v);
    }
  }

  /** Lagrange coefficients at zero sum to one. */
  lemma {:induction false} CoefficientsSumToOne(ps: seq<Address>, one: Address -> int)
    requires ps != [] && DistinctPoints(ps)
    requires forall a :: one(a) == 1
    ensures Cong(AtZeroZ(ps, one), 1)
    decreases |ps|
  {
    hide Red, Lambda;
    if |ps| == 1 {
      SingleCoefficient(ps, one);
    } else {
      var n := |ps| - 1;
      var e := AtZeroZ(ps, one);
      var x: int, y: int := AddressToFr(ps[0]), AddressToFr(ps[n]);
      var point := (a: Address) => AddressToFr(a) as int;
      WithoutKeepsDistinct(ps, 0);
      WithoutKeepsDistinct(ps, n);
      CoefficientsSumToOne(Without(ps, 0), one);
      CoefficientsSumToOne(Without(ps, n), one);
      ShiftIdentity(ps, 0, one, point);
      ShiftIdentity(ps, n, one, point);
      CongScale(x, AtZeroZ(Without(ps, 0), one), 1);
      CongScale(y, AtZeroZ(Without(ps, n), one), 1);
      CongSub(x * e, x * e, x * AtZeroZ(Without(ps, 0), one), x * 1);
      CongSub(y * e, y * e, y * AtZeroZ(Without(ps, n), one), y * 1);
      assert Cong(x * e - x * 1, y * e - y * 1);
      CongAdd(x * e - x * 1, y * e - y * 1, x - y * e, x - y * e);
      assert x * e - x * 1 + (x - y * e) == e * (x - y);
      assert y * e - y * 1 + (x - y * e) == 1 * (x - y);
      DifferentElemsDiffer(x, y);
      Cancel(e, 1, x - y);
    }
  }

  lemma SingleCoefficient(ps: seq<Address>, one: Address -> int)
    requires |ps| == 1 && one(ps[0]) == 1
    ensures Cong(AtZeroZ(ps, one), 1)
  {
    hide Red, Inv, Lambda;
    var a := ps[0];
    LambdaLaw(a, ps);
    assert DenZ(a, ps) == 1 * DenZ(a, ps[1..]) && NumZ(a, ps) == 1 * NumZ(a, ps[1..]);
    assert AtZeroZ(ps, one) == Lambda(a, ps) * one(a) + LagrangeZ(ps[1..], ps, one);
  }

  /** LAGRANGE INTERPOLATION AT ZERO. For distinct points and a polynomial with at most as many
      coefficients as there are points, the Lagrange sum of its values is its constant term. */
  lemma {:induction false} InterpolatesAtZero(ps: seq<Address>, p: Poly, v: Address -> int)
    requires DistinctPoints(ps) && 0 < |p| <= |ps|
    requires forall a :: a in ps ==> Cong(v(a), EvalZ(p, AddressToFr(a)))
    ensures Cong(AtZeroZ(ps, v), p[0])
    decreases |p|
  {
    hide Red, Lambda;
    var one := (a: Address) => 1;
    var g := (a: Address) => EvalZ(p[1..], AddressToFr(a));
    var xg := (a: Address) => AddressToFr(a) * EvalZ(p[1..], AddressToFr(a));
    CoefficientsSumToOne(ps, one);
    LagrangeLinear(ps, ps, v, p[0], one, 1, xg);
    if |p| == 1 {
      assert forall a :: g(a) == 0;
      LagrangeLinear(ps, ps, xg, 0, one, 0, one);
    } else {
      var n := |ps| - 1;
      var qs, y: int := Without(ps, n), AddressToFr(ps[n]);
      WithoutKeepsDistinct(ps, n);
      InterpolatesAtZero(ps, p[1..], g);
      InterpolatesAtZero(qs, p[1..], g);
      ShiftIdentity(ps, n, g, xg);
      CongSub(AtZeroZ(ps, g), p[1], AtZeroZ(qs, g), p[1]);
      CongScale(y, AtZeroZ(ps, g) - AtZeroZ(qs, g), 0);
      assert y * (AtZeroZ(ps, g) - AtZeroZ(qs, g)) == y * AtZeroZ(ps, g) - y * AtZeroZ(qs, g);
    }
    assert Cong(AtZeroZ(ps, xg), 0);
    var e := AtZeroZ(ps, one);
    CongScale(p[0], e, 1);
    CongAdd(p[0] * e, p[0] * 1, 1 * AtZeroZ(ps, xg), 0);
  }

  // Independence of the order in which the operators are listed --------------------------------

  /** ps lists each of the given operators once. */
  ghost predicate Enumerates(ps: seq<Address>, keys: set<Address>) {
    Distinct(ps) && forall a :: a in ps <==> a in keys
  }

  lemma WithoutEnumerates(ps: seq<Address>, m: nat, keys: set<Address>)
    requires m < |ps| && Enumerates(ps, keys)
    ensures Enumerates(Without(ps, m), keys - {ps[m]})
  {
    var qs := Without(ps, m);
    forall i | 0 <= i < |qs|
      ensures qs[i] == ps[if i < m then i else i + 1]
    {
    }
    forall a | a in ps && a != ps[m]
      ensures a in qs
    {
      var k :| 0 <= k < |ps| && ps[k] == a;
      assert qs[if k < m then k else k - 1] == a;
    }
  }

  lemma NothingToEnumerate(ps: seq<Address>, qs: seq<Address>, keys: set<Address>)
    requires ps == [] && Enumerates(ps, keys) && Enumerates(qs, keys)
    ensures qs == []
  {
    if qs != [] {
      HeadOccurs(qs);
    }
  }

  lemma HeadOccurs(qs: seq<Address>)
    requires qs != []
    ensures qs[0] in qs
  {
  }

  lemma {:induction false} SumAnyOrder(ps: seq<Address>, qs: seq<Address>, keys: set<Address>, f: Address -> int)
    requires Enumerates(ps, keys) && Enumerates(qs, keys)
    ensures SumZ(ps, f) == SumZ(qs, f)
  {
    if ps == [] {
      NothingToEnumerate(ps, qs, keys);
    } else {
      assert ps[0] in ps && ps[0] in qs;
      var m :| 0 <= m < |qs| && qs[m] == ps[0];
      assert Without(ps, 0) == ps[1..];
      WithoutEnumerates(ps, 0, keys);
      WithoutEnumerates(qs, m, keys);
      SumAnyOrder(ps[1..], Without(qs, m), keys - {ps[0]}, f);
      SumWithout(qs, m, f);
    }
  }

  lemma {:induction false} ProductsAnyOrder(i: Address, ps: seq<Address>, qs: seq<Address>, keys: set<Address>)
    requires Enumerates(ps, keys) && Enumerates(qs, keys)
    ensures NumZ(i, ps) == NumZ(i, qs) && DenZ(i, ps) == DenZ(i, qs)
  {
    if ps == [] {
      NothingToEnumerate(ps, qs, keys);
    } else {
      assert ps[0] in ps && ps[0] in qs;
      var m :| 0 <= m < |qs| && qs[m] == ps[0];
      assert Without(ps, 0) == ps[1..];
      WithoutEnumerates(ps, 0, keys);
      WithoutEnumerates(qs, m, keys);
      ProductsAnyOrder(i, ps[1..], Without(qs, m), keys - {ps[0]});
      ProductsWithout(i, qs, m);
    }
  }

  /** A Lagrange sum does not depend on the order of its list, nor on the order of summation. */
  lemma LagrangeAnyOrder(rs: seq<Address>, ps: seq<Address>, qs: seq<Address>, keys: set<Address>, f: Address -> int)
    requires Enumerates(rs, keys) && Enumerates(ps, keys) && Enumerates(qs, keys)
    ensures LagrangeZ(rs, ps, f) == AtZeroZ(qs, f)
  {
    hide Red;
    var h := (a: Address) => Lambda(a, qs) * f(a);
    forall a
      ensures Lambda(a, ps) == Lambda(a, qs)
    {
      ProductsAnyOrder(a, ps, qs, keys);
    }
    LagrangeIsSum(rs, ps, f, h);
    LagrangeIsSum(qs, qs, f, h);
    SumAnyOrder(rs, qs, keys, h);
  }
}
