/** Commitment vectors of any length. VerifyShare and VerifyNewShare accept every nonempty vector that the share
    opens, so a dealer may deal with more or fewer coefficients than the threshold; here is what the summed and the
    refreshed shares then lie on, and which keys and thresholds still fit them. */
module UnevenVectors {
  import opened Results
  import opened PrimeField
  import opened Addresses
  import opened Interpolation
  import opened Combination
  import opened Curve
  import opened Polynomials
  import opened Dkg
  import opened Resharing
  import opened Cluster
  import opened ClusterConsequences
  import opened MasterPublicKeys
  import opened Divergence

  /** The same polynomial with n coefficients. */
  function Pad(p: Poly, n: nat): (r: Poly)
    requires |p| <= n
    ensures |r| == n && p <= r
  {
    p + Zero(n - |p|)
  }

  lemma {:induction false} PadEval(p: Poly, n: nat, x: int)
    requires |p| <= n
    ensures EvalZ(Pad(p, n), x) == EvalZ(p, x)
  {
    if p == [] {
      assert Pad(p, n) == Zero(n);
      ZeroEval(n, x);
    } else {
      PadEval(p[1..], n - 1, x);
      assert Pad(p, n)[1..] == Pad(p[1..], n - 1);
    }
  }

  /** Every listed dealer has a nonempty vector of at most n entries. */
  ghost predicate UpTo(ds: seq<Address>, commitments: map<Address, seq<G2Point>>, n: nat) {
    forall d :: d in ds ==> d in commitments && 0 < |commitments[d]| <= n
  }

  /** The polynomials behind the vectors, brought to one length. */
  function Padded(ds: seq<Address>, commitments: map<Address, seq<G2Point>>, n: nat): (dealt: map<Address, Poly>)
    requires UpTo(ds, commitments, n)
    ensures DealtWith(ds, dealt, n)
    ensures forall d :: d in ds ==> dealt[d] == Pad(Logs(commitments[d]), n)
  {
    map d | d in ds :: Pad(Logs(commitments[d]), n)
  }

  /** The node holds a share from each dealer that passed verification against that dealer's vector. */
  ghost predicate AllOpen(j: Address, ds: seq<Address>, commitments: map<Address, seq<G2Point>>, shares: map<Address, Elem>) {
    forall d :: d in ds ==> d in shares && d in commitments && Opens(shares[d], commitments[d], j)
  }

  lemma OpenedValue(j: Address, d: Address, ds: seq<Address>, commitments: map<Address, seq<G2Point>>, n: nat,
                    shares: map<Address, Elem>)
    requires UpTo(ds, commitments, n) && AllOpen(j, ds, commitments, shares) && d in ds
    ensures shares[d] == EvalAt(Padded(ds, commitments, n)[d], j)
  {
    PadEval(Logs(commitments[d]), n, AddressToFr(j));
  }

  // Key generation ----------------------------------------------------------------------------

  /** The polynomial that a sum of verified shares lies on. */
  function Summed(ds: seq<Address>, commitments: map<Address, seq<G2Point>>, n: nat): (p: Poly)
    requires UpTo(ds, commitments, n)
    ensures |p| == n
  {
    Combine(ds, One(), Padded(ds, commitments, n), n)
  }

  lemma SummedConstant(ds: seq<Address>, commitments: map<Address, seq<G2Point>>, n: nat)
    requires UpTo(ds, commitments, n) && n > 0
    ensures Summed(ds, commitments, n)[0] == Red(FirstTermsZ(InOrder(ds, commitments)))
  {
    hide Red;
    var f := ConstantTerms(commitments);
    forall d | d in ds
      ensures Cong(f(d), One()(d) * Padded(ds, commitments, n)[d][0])
    {
    }
    CombineCoefficient(ds, One(), Padded(ds, commitments, n), n, 0, f);
    FirstTermsAreASum(InOrder(ds, commitments), ds, f);
    RedElem(Summed(ds, commitments, n)[0]);
  }

  /** THE PRIVATE SIDE OF A KEY GENERATION, FOR VECTORS OF ANY LENGTH. The summed shares lie on the sum of all dealt
      polynomials, whose constant term adds up every vector's first entry; the combined vector's entry 0, which the
      nodes cache as master public key, belongs to that constant exactly when the constants of the vectors skipped
      for their length cancel. */
  lemma UnevenKeyGeneration(j: Address, ds: seq<Address>, commitments: map<Address, seq<G2Point>>, t: nat, n: nat,
                            shares: map<Address, Elem>)
    requires t > 0 && n > 0 && UpTo(ds, commitments, n) && AllOpen(j, ds, commitments, shares)
    ensures Red(SumZ(ds, Values(shares))) == EvalAt(Summed(ds, commitments, n), j)
    ensures Summed(ds, commitments, n)[0] == Red(FirstTermsZ(InOrder(ds, commitments)))
    ensures Red(ContributionZ(InOrder(ds, commitments), t, 0)) == Summed(ds, commitments, n)[0] <==>
            Cong(SkippedZ(InOrder(ds, commitments), t), 0)
  {
    hide Red, EvalAt, Opens;
    forall d | d in ds
      ensures shares[d] == EvalAt(Padded(ds, commitments, n)[d], j)
    {
      OpenedValue(j, d, ds, commitments, n, shares);
    }
    SummedShareOnSummedPolynomial(j, ds, One(), Padded(ds, commitments, n), n, shares);
    SummedConstant(ds, commitments, n);
    FirstTermsFitIff(InOrder(ds, commitments), t);
  }

  lemma {:induction false} SkippedOnce(all: seq<seq<G2Point>>, t: nat, m: nat)
    requires m < |all| && all[m] != [] && |all[m]| != t
    requires forall i :: 0 <= i < |all| && i != m ==> |all[i]| == t
    ensures SkippedZ(all, t) == all[m][0].log
  {
    var n := |all| - 1;
    if m == n {
      NothingSkipped(all[..n], t);
    } else {
      SkippedOnce(all[..n], t, m);
    }
  }

  /** One dealer among at least t is enough: if all vectors but one have threshold length and that one has a nonzero
      constant term, the cached master public key does not belong to the shared secret. */
  lemma WrongLengthSplitsTheKey(ds: seq<Address>, commitments: map<Address, seq<G2Point>>, t: nat, n: nat, m: nat)
    requires 0 < t <= |ds| && m < |ds| && UpTo(ds, commitments, n)
    requires |commitments[ds[m]]| != t && !commitments[ds[m]][0].IsZero()
    requires forall i :: 0 <= i < |ds| && i != m ==> |commitments[ds[i]]| == t
    ensures Red(ContributionZ(InOrder(ds, commitments), t, 0)) != Summed(ds, commitments, n)[0]
  {
    hide Red;
    var all := InOrder(ds, commitments);
    SkippedOnce(all, t, m);
    SummedConstant(ds, commitments, n);
    FirstTermsFitIff(all, t);
    CongElems(all[m][0].log, 0);
  }

  // Reshare -------------------------------------------------------------------------------------

  /** THE PRIVATE SIDE OF A RESHARE, FOR VECTORS OF ANY LENGTH. The refreshed shares lie on one polynomial, as long as
      the longest vector, and its constant term still is what the key check looks at. */
  lemma UnevenReshare(j: Address, dealers: seq<Address>, commitments: map<Address, seq<G2Point>>, n: nat,
                      shares: map<Address, Elem>)
    requires n > 0 && UpTo(dealers, commitments, n) && AllOpen(j, dealers, commitments, shares)
    ensures var p := Refreshed(dealers, Padded(dealers, commitments, n), n);
            && Red(AtZeroZ(dealers, Values(shares))) == EvalAt(p, j)
            && p[0] == ImpliedKey(dealers, commitments).log
  {
    hide Red, EvalAt, Opens, Lambda, AtZeroZ, Refreshed, ImpliedKey;
    forall d | d in dealers
      ensures shares[d] == EvalAt(Padded(dealers, commitments, n)[d], j)
    {
      OpenedValue(j, d, dealers, commitments, n, shares);
    }
    RefreshedShare(j, dealers, Padded(dealers, commitments, n), n, shares);
    UnevenConstant(dealers, commitments, n);
  }

  lemma UnevenConstant(dealers: seq<Address>, commitments: map<Address, seq<G2Point>>, n: nat)
    requires n > 0 && UpTo(dealers, commitments, n)
    ensures Refreshed(dealers, Padded(dealers, commitments, n), n)[0] == ImpliedKey(dealers, commitments).log
  {
    hide Red, Lambda;
    var dealt, f := Padded(dealers, commitments, n), ConstantTerms(commitments);
    var h := (a: Address) => Lambda(a, dealers) * f(a);
    LagrangeIsSum(dealers, dealers, f, h);
    CombineCoefficient(dealers, Weights(dealers), dealt, n, 0, h);
    RedElem(Refreshed(dealers, dealt, n)[0]);
  }

  function On(p: Poly): Address -> int { (a: Address) => EvalAt(p, a) }

  lemma {:induction false} EvalSplitsOffTop(p: Poly, x: int)
    requires p != []
    ensures var n := |p| - 1; EvalZ(p, x) == EvalZ(p[..n], x) + p[n] * PowerZ(x, n)
  {
    var n := |p| - 1;
    if n == 0 {
      assert p[1..] == [] && p[..0] == [];
    } else {
      EvalSplitsOffTop(p[1..], x);
      assert p[1..][..n - 1] == p[..n][1..];
      assert x * (p[n] * PowerZ(x, n - 1)) == p[n] * (x * PowerZ(x, n - 1));
    }
  }

  /** Holders one fewer than the coefficients recover the constant term exactly when the top coefficient is zero:
      a polynomial of degree n needs n + 1 holders, whichever they are. */
  lemma TopCoefficientDecides(p: Poly, ps: seq<Address>)
    requires ps != [] && |p| == |ps| + 1 && DistinctPoints(ps) && NonzeroPoints(ps)
    ensures Red(AtZeroZ(ps, On(p))) == p[0] <==> p[|ps|] == 0
  {
    hide Red, Lambda, EvalAt, DistinctPoints, NonzeroPoints, AtZeroZ;
    var n := |ps|;
    var low := On(p[..n]);
    var power := (a: Address) => PowerZ(AddressToFr(a), n);
    forall a | a in ps
      ensures Cong(On(p)(a), 1 * low(a) + p[n] * power(a))
    {
      TopTerm(p, a);
    }
    LagrangeOfSum(ps, On(p), low, p[n], power);
    AllOnOne(ps, p[..n], low);
    MonomialIsMissed(ps, power);
    DecideTop(AtZeroZ(ps, On(p)), AtZeroZ(ps, low), p[0], p[n], AtZeroZ(ps, power));
  }

  lemma LagrangeOfSum(ps: seq<Address>, h: Address -> int, f: Address -> int, d: int, g: Address -> int)
    requires forall a :: a in ps ==> Cong(h(a), 1 * f(a) + d * g(a))
    ensures Cong(AtZeroZ(ps, h), 1 * AtZeroZ(ps, f) + d * AtZeroZ(ps, g))
  {
    hide Red, Lambda;
    LagrangeLinear(ps, ps, h, 1, f, d, g);
  }

  lemma TopTerm(p: Poly, a: Address)
    requires p != []
    ensures var n := |p| - 1; Cong(EvalAt(p, a), 1 * EvalAt(p[..n], a) + p[n] * PowerZ(AddressToFr(a), n))
  {
    hide Red;
    var n, x := |p| - 1, AddressToFr(a);
    EvalSplitsOffTop(p, x);
    CongRed(EvalZ(p, x));
    CongRed(EvalZ(p[..n], x));
    CongAdd(EvalAt(p[..n], a), EvalZ(p[..n], x), p[n] * PowerZ(x, n), p[n] * PowerZ(x, n));
  }

  lemma DecideTop(total: int, low: int, c: Elem, top: Elem, missed: int)
    requires Cong(total, 1 * low + top * missed) && Cong(low, c) && !Cong(missed, 0)
    ensures Red(total) == c <==> top == 0
  {
    hide Red;
    RedElem(c);
    CongElems(top, 0);
    CongAdd(low, c, top * missed, top * missed);
    if Cong(total, c) {
      CongSub(c + top * missed, c, c, c);
      if !Cong(top, 0) {
        ProductNonzero(top, missed);
      }
    }
    if top == 0 {
      assert top * missed == 0;
    }
  }

  /** On the refreshed polynomial: t of its values recover its constant term exactly when the extra entry is zero. */
  lemma LongVectorTopDecides(dealers: seq<Address>, commitments: map<Address, seq<G2Point>>, t: nat, m: nat,
                                    ps: seq<Address>)
    requires m < |dealers| && DistinctPoints(dealers) && NonzeroPoints(dealers)
    requires t > 0 && UpTo(dealers, commitments, t + 1) && |commitments[dealers[m]]| == t + 1
    requires forall i :: 0 <= i < |dealers| && i != m ==> |commitments[dealers[i]]| <= t
    requires |ps| == t && DistinctPoints(ps) && NonzeroPoints(ps)
    ensures var p := Refreshed(dealers, Padded(dealers, commitments, t + 1), t + 1);
            Red(AtZeroZ(ps, On(p))) == ImpliedKey(dealers, commitments).log <==> commitments[dealers[m]][t].IsZero()
  {
    hide Red, Lambda, EvalAt, DistinctPoints, NonzeroPoints, AtZeroZ, ImpliedKey, Refreshed;
    var p := Refreshed(dealers, Padded(dealers, commitments, t + 1), t + 1);
    UnevenConstant(dealers, commitments, t + 1);
    TopCoefficientDecides(p, ps);
    TopOfLongVector(dealers, commitments, t, m);
  }

  /** The refreshed shares that holders compute from what they received. */
  function RefreshedShares(dealers: seq<Address>, received: map<Address, map<Address, Elem>>): Address -> int {
    (a: Address) => if a in received then Red(AtZeroZ(dealers, Values(received[a]))) else 0
  }

  /** One dealer deals a vector with one entry too many. Every finalizing node has verified its shares and the key
      check has accepted the round, but t holders recover the secret exactly when that extra entry is the zero
      point. */
  lemma LongVectorKeepsThresholdIff(dealers: seq<Address>, commitments: map<Address, seq<G2Point>>, t: nat, m: nat,
                                    ps: seq<Address>, received: map<Address, map<Address, Elem>>, secret: Elem)
    requires m < |dealers| && DistinctPoints(dealers) && NonzeroPoints(dealers)
    requires t > 0 && UpTo(dealers, commitments, t + 1) && |commitments[dealers[m]]| == t + 1
    requires forall i :: 0 <= i < |dealers| && i != m ==> |commitments[dealers[i]]| <= t
    requires MpkAccepted(dealers, commitments, Some(ScalarMulG2(G2Generator, secret)))
    requires |ps| == t && DistinctPoints(ps) && NonzeroPoints(ps)
    requires forall a :: a in ps ==> a in received && AllOpen(a, dealers, commitments, received[a])
    ensures Red(AtZeroZ(ps, RefreshedShares(dealers, received))) == secret <==> commitments[dealers[m]][t].IsZero()
  {
    hide Red, Lambda, EvalAt, DistinctPoints, NonzeroPoints, AtZeroZ, ImpliedKey, Refreshed, AllOpen, UpTo;
    var p := Refreshed(dealers, Padded(dealers, commitments, t + 1), t + 1);
    ScalarMulGenerator(secret);
    LongVectorTopDecides(dealers, commitments, t, m, ps);
    forall a | a in ps
      ensures RefreshedShares(dealers, received)(a) == On(p)(a)
    {
      UnevenReshare(a, dealers, commitments, t + 1, received[a]);
    }
    SameValuesSameSum(ps, RefreshedShares(dealers, received), On(p));
  }

  lemma SameValuesSameSum(ps: seq<Address>, f: Address -> int, g: Address -> int)
    requires forall a :: a in ps ==> f(a) == g(a)
    ensures AtZeroZ(ps, f) == AtZeroZ(ps, g)
  {
    hide Red, Lambda;
    var h := (a: Address) => Lambda(a, ps) * f(a);
    LagrangeIsSum(ps, ps, f, h);
    LagrangeIsSum(ps, ps, g, h);
  }

  lemma TopOfLongVector(dealers: seq<Address>, commitments: map<Address, seq<G2Point>>, t: nat, m: nat)
    requires m < |dealers| && DistinctPoints(dealers) && NonzeroPoints(dealers)
    requires t > 0 && UpTo(dealers, commitments, t + 1) && |commitments[dealers[m]]| == t + 1
    requires forall i :: 0 <= i < |dealers| && i != m ==> |commitments[dealers[i]]| <= t
    ensures Refreshed(dealers, Padded(dealers, commitments, t + 1), t + 1)[t] == 0 <==>
            commitments[dealers[m]][t].IsZero()
  {
    hide Red, Lambda, DistinctPoints, NonzeroPoints;
    var dealt, x := Padded(dealers, commitments, t + 1), dealers[m];
    var top := commitments[x][t].log;
    var h := (a: Address) => Lambda(a, dealers) * (if a == x then top else 0);
    PointsApart(dealers);
    forall d | d in dealers
      ensures h(d) == Weights(dealers)(d) * dealt[d][t]
    {
      var i :| 0 <= i < |dealers| && dealers[i] == d;
    }
    CombineCoefficient(dealers, Weights(dealers), dealt, t + 1, t, h);
    SumOfOne(dealers, x, h);
    OneOfThese(dealers, m);
    LambdaNonzero(x, dealers);
    ProductZeroIff(Refreshed(dealers, dealt, t + 1)[t], Lambda(x, dealers), top);
  }

  lemma ProductZeroIff(r: Elem, l: Elem, top: Elem)
    requires Cong(r, l * top) && !Cong(l, 0)
    ensures r == 0 <==> top == 0
  {
    hide Red;
    CongElems(r, 0);
    CongElems(top, 0);
    if top == 0 {
      assert l * top == 0;
    } else {
      ProductNonzero(l, top);
    }
  }
}
