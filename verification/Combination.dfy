/** Weighted sums of dealt polynomials. DKG adds the dealers' polynomials (every weight is one);
    a reshare weighs them with Lagrange coefficients over the agreed dealer list. */
module Combination {
  import opened PrimeField
  import opened Addresses
  import opened Interpolation

  /** w * p + q, coefficient by coefficient. */
  function AddScaled(w: int, p: Poly, q: Poly): (r: Poly)
    requires |p| == |q|
    ensures |r| == |p|
  {
    seq(|p|, k requires 0 <= k < |p| => Red(w * p[k] + q[k]))
  }

  function Zero(t: nat): (r: Poly)
    ensures |r| == t
  {
    seq(t, k => 0)
  }

  /** Every listed dealer has dealt a polynomial with exactly t coefficients. */
  predicate DealtWith(ds: seq<Address>, dealt: map<Address, Poly>, t: nat) {
    forall d :: d in ds ==> d in dealt && |dealt[d]| == t
  }

  /** The polynomial with coefficients sum over d in ds of w(d) * dealt[d]. */
  function Combine(ds: seq<Address>, w: Address -> int, dealt: map<Address, Poly>, t: nat): (r: Poly)
    requires DealtWith(ds, dealt, t)
    ensures |r| == t
  {
    if ds == [] then Zero(t)
    else
      assert ds[0] in ds;
      AddScaled(w(ds[0]), dealt[ds[0]], Combine(ds[1..], w, dealt, t))
  }

  lemma {:induction false} AddScaledEval(w: int, p: Poly, q: Poly, x: int)
    requires |p| == |q|
    ensures Cong(EvalZ(AddScaled(w, p, q), x), w * EvalZ(p, x) + EvalZ(q, x))
  {
    hide Red;
    var r := AddScaled(w, p, q);
    if p != [] {
      assert r[1..] == AddScaled(w, p[1..], q[1..]);
      AddScaledEval(w, p[1..], q[1..], x);
      CongRed(w * p[0] + q[0]);
      CongScale(x, EvalZ(r[1..], x), w * EvalZ(p[1..], x) + EvalZ(q[1..], x));
      CongAdd(r[0], w * p[0] + q[0], x * EvalZ(r[1..], x), x * (w * EvalZ(p[1..], x) + EvalZ(q[1..], x)));
      HornerLinear(w, p[0], q[0], x, EvalZ(p[1..], x), EvalZ(q[1..], x));
    }
  }

  lemma HornerLinear(w: int, a: int, b: int, x: int, u: int, v: int)
    ensures (w * a + b) + x * (w * u + v) == w * (a + x * u) + (b + x * v)
  {
    assert x * (w * u) == w * (x * u);
  }

  lemma {:induction false} ZeroEval(t: nat, x: int)
    ensures EvalZ(Zero(t), x) == 0
  {
    if t > 0 {
      assert Zero(t)[1..] == Zero(t - 1);
      ZeroEval(t - 1, x);
    }
  }

  /** Evaluating the combination is combining the evaluations. */
  lemma {:induction false} CombineEval(ds: seq<Address>, w: Address -> int, dealt: map<Address, Poly>, t: nat, x: int,
                                       h: Address -> int)
    requires DealtWith(ds, dealt, t)
    requires forall d :: d in ds ==> Cong(h(d), w(d) * EvalZ(dealt[d], x))
    ensures Cong(EvalZ(Combine(ds, w, dealt, t), x), SumZ(ds, h))
  {
    hide Red;
    if ds == [] {
      ZeroEval(t, x);
    } else {
      var d, rest := ds[0], ds[1..];
      assert d in ds;
      CombineEval(rest, w, dealt, t, x, h);
      AddScaledEval(w(d), dealt[d], Combine(rest, w, dealt, t), x);
      CongAdd(w(d) * EvalZ(dealt[d], x), h(d), EvalZ(Combine(rest, w, dealt, t), x), SumZ(rest, h));
    }
  }

  /** Each coefficient of the combination combines the coefficients. */
  lemma {:induction false} CombineCoefficient(ds: seq<Address>, w: Address -> int, dealt: map<Address, Poly>, t: nat,
                                              k: nat, h: Address -> int)
    requires DealtWith(ds, dealt, t) && k < t
    requires forall d :: d in ds ==> Cong(h(d), w(d) * dealt[d][k])
    ensures Cong(Combine(ds, w, dealt, t)[k], SumZ(ds, h))
  {
    hide Red;
    if ds != [] {
      var d, rest := ds[0], ds[1..];
      assert d in ds;
      var q := Combine(rest, w, dealt, t);
      CombineCoefficient(rest, w, dealt, t, k, h);
      CongRed(w(d) * dealt[d][k] + q[k]);
      CongAdd(w(d) * dealt[d][k], h(d), q[k], SumZ(rest, h));
    }
  }
}
