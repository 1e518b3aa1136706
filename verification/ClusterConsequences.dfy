/** What secret conservation gives the users of a cluster, and what it needs: the exact limits of the
    master-public-key check that a round relies on. */
module ClusterConsequences {
  import opened Results
  import opened PrimeField
  import opened Addresses
  import opened Interpolation
  import opened Curve
  import opened Polynomials
  import opened Dkg
  import opened Resharing
  import opened Cluster

  /** The shares of one version that the listed nodes hold. */
  function HeldShares(s: State, v: Version, ps: seq<Address>): map<Address, Elem> {
    map a | a in ps && a in s && v in s[a].versions :: s[a].versions[v].share
  }

  ghost predicate Holders(s: State, v: Version, ps: seq<Address>) {
    forall a :: a in ps ==> a in s && v in s[a].versions
  }

  /** After any run, any threshold of holders of any version can reconstruct the DKG secret. */
  lemma ThresholdOfHoldersRecovers(g: Dealing, s0: State, es: seq<Event>, v: Version, ps: seq<Address>)
    requires IsRun(g, s0, es) && Holders(After(g, s0, es), v, ps)
    requires DistinctPoints(ps) && ps != []
    requires v in HistoryOf(g, es) && |ps| >= CalculateThreshold(|HistoryOf(g, es)[v].operators|)
    ensures Red(AtZeroZ(ps, Values(HeldShares(After(g, s0, es), v, ps)))) == SecretOf(g)
  {
    hide Red, AtZeroZ, EvalAt;
    RunConservesSecret(g, s0, es);
    var s, h := After(g, s0, es), HistoryOf(g, es);
    forall a | a in ps
      ensures HeldShares(s, v, ps)[a] == EvalAt(h[v].poly, a)
    {
      assert GoodNode(s[a], SecretOf(g), h, a);
    }
    SharesRecoverSecret(h[v].poly, ps, HeldShares(s, v, ps));
  }

  /** Dealers that deal from their stored share of version v, at least as many as v's threshold, always pass
      the check at every operator that knows the master public key: an honest round is never aborted by it. */
  lemma HonestDealersAreAccepted(s: State, secret: Elem, h: History, v: Version, dealers: seq<Address>,
                                 commitments: map<Address, seq<G2Point>>, j: Address)
    requires Conserves(s, secret, h) && Holders(s, v, dealers) && DistinctPoints(dealers) && dealers != []
    requires v in h && |dealers| >= CalculateThreshold(|h[v].operators|)
    requires AllCommitted(dealers, commitments)
    requires forall d :: d in dealers ==> commitments[d][0] == G2Point(s[d].versions[v].share)
    requires CarriedKey(s, j).Some?
    ensures MpkAccepted(dealers, commitments, CarriedKey(s, j))
  {
    hide Red, EvalAt, ScalarMulG2, MpkAccepted;
    forall d | d in dealers
      ensures commitments[d][0] == G2Point(EvalAt(h[v].poly, d))
    {
      assert GoodNode(s[d], secret, h, d);
    }
    AcceptsOneSourcePolynomial(dealers, commitments, h[v].poly);
    CarriedKeyIsGood(s, secret, h, j);
  }

  /** A joining operator never runs the check itself. The polynomial its share lies on has the secret as
      constant term exactly when the check would have accepted the dealers' first commitments. */
  lemma JoinerShareIsRightIff(g: Dealing, secret: Elem)
    requires g.Verified()
    ensures SharingOf(g).Shares(secret) <==>
            MpkAccepted(g.dealers, g.commitments, Some(ScalarMulG2(G2Generator, secret)))
  {
    hide Red, Lambda, ScalarMulG2, ImpliedKey, Refreshed;
    VerifiedDealt(g);
    RefreshedConstant(g.dealers, g.Dealt(), g.Threshold(), g.commitments);
    ScalarMulGenerator(secret);
  }

  // The bound on the number of dealers is tight --------------------------------------------------

  function PowerZ(x: int, n: nat): int {
    if n == 0 then 1 else x * PowerZ(x, n - 1)
  }

  /** n zero-point evaluations cannot see the monomial X^n. */
  lemma {:induction false} MonomialIsMissed(ps: seq<Address>, power: Address -> int)
    requires ps != [] && DistinctPoints(ps) && NonzeroPoints(ps)
    requires forall a :: a in ps ==> power(a) == PowerZ(AddressToFr(a), |ps|)
    ensures !Cong(AtZeroZ(ps, power), 0)
    decreases |ps|
  {
    hide Red, Lambda;
    var n := |ps| - 1;
    var qs, y: int := Without(ps, n), AddressToFr(ps[n]);
    var g := (a: Address) => PowerZ(AddressToFr(a), n);
    ShiftIdentity(ps, n, g, power);
    RedElem(0);
    assert ps[n] in ps;
    CongElems(AddressToFr(ps[n]), 0);
    if n == 0 {
      CoefficientsSumToOne(ps, g);
      OneNotZero();
      assert AtZeroZ(qs, g) == 0;
      ProductNonzero(y, AtZeroZ(ps, g));
    } else {
      WithoutKeepsDistinct(ps, n);
      forall a | a in qs
        ensures a in ps
      {
        WithoutDistinct(ps, n, a);
      }
      MonomialIsMissed(qs, g);
      LowerMonomialVanishes(ps, n, g);
      var u, v := AtZeroZ(ps, g), AtZeroZ(qs, g);
      CongScale(y, u, 0);
      CongSub(y * u, 0, y * v, y * v);
      MinusProductNonzero(y, v);
    }
  }

  lemma MinusProductNonzero(y: int, v: int)
    requires !Cong(y, 0) && !Cong(v, 0)
    ensures !Cong(0 - y * v, 0)
  {
    hide Red;
    ProductNonzero(y, v);
    if Cong(0 - y * v, 0) {
      CongScale(-1, 0 - y * v, 0);
    }
  }

  function Monomial(n: nat, c: Elem): (p: Poly)
    ensures |p| == n + 1
  {
    if n == 0 then [c] else [0] + Monomial(n - 1, c)
  }

  lemma {:induction false} MonomialEval(n: nat, c: Elem, x: int)
    ensures EvalZ(Monomial(n, c), x) == c * PowerZ(x, n)
    ensures n > 0 ==> Monomial(n, c)[0] == 0
  {
    if n == 0 {
      assert EvalZ([c], x) == c + x * EvalZ([c][1..], x);
    } else {
      MonomialEval(n - 1, c, x);
      assert Monomial(n, c)[1..] == Monomial(n - 1, c);
      assert x * (c * PowerZ(x, n - 1)) == c * (x * PowerZ(x, n - 1));
    }
  }

  lemma LowerMonomialVanishes(ps: seq<Address>, n: nat, g: Address -> int)
    requires 0 < n < |ps| && DistinctPoints(ps)
    requires forall a :: a in ps ==> g(a) == PowerZ(AddressToFr(a), n)
    ensures Cong(AtZeroZ(ps, g), 0)
  {
    hide Red, Lambda;
    forall a | a in ps
      ensures g(a) == EvalZ(Monomial(n, 1), AddressToFr(a))
    {
      MonomialEval(n, 1, AddressToFr(a));
    }
    MonomialEval(n, 1, 0);
    InterpolatesAtZero(ps, Monomial(n, 1), g);
  }

  /** secret + X^n. */
  function ShortSource(secret: Elem, n: nat): (p: Poly)
    requires n > 0
    ensures |p| == n + 1 && p[0] == secret
  {
    [secret] + Monomial(n - 1, 1)
  }

  /** One dealer too few is already too few: for every dealer list there is a source polynomial with one
      coefficient more than dealers whose honest shares the check rejects. The agreed list is sized against
      the new threshold, so a shrinking committee can meet this case and only the check stops it. */
  lemma ShortDealerListIsRejected(dealers: seq<Address>, secret: Elem, source: Poly,
                                  commitments: map<Address, seq<G2Point>>)
    requires dealers != [] && DistinctPoints(dealers) && NonzeroPoints(dealers)
    requires source == ShortSource(secret, |dealers|)
    requires AllCommitted(dealers, commitments)
    requires forall d :: d in dealers ==> commitments[d][0] == G2Point(EvalAt(source, d))
    ensures |source| == |dealers| + 1 && source[0] == secret
    ensures !MpkAccepted(dealers, commitments, Some(ScalarMulG2(G2Generator, secret)))
  {
    hide Red, Lambda, EvalAt, MpkAccepted, AtZeroZ, ShortSource;
    var f := ConstantTerms(commitments);
    var power := (a: Address) => PowerZ(AddressToFr(a), |dealers|);
    forall d | d in dealers
      ensures Cong(f(d), secret + power(d))
    {
      ShortSourceValue(source, |dealers|, secret, d);
    }
    MonomialIsMissed(dealers, power);
    ShortSum(dealers, secret, f, power);
    ScalarMulGenerator(secret);
    NotTheKey(dealers, commitments, secret);
  }

  lemma NotTheKey(dealers: seq<Address>, commitments: map<Address, seq<G2Point>>, secret: Elem)
    requires Red(AtZeroZ(dealers, ConstantTerms(commitments))) != secret
    ensures !MpkAccepted(dealers, commitments, Some(G2Point(secret)))
  {
    hide Red, Lambda, AtZeroZ;
  }

  lemma ShortSum(dealers: seq<Address>, secret: Elem, f: Address -> int, power: Address -> int)
    requires dealers != [] && DistinctPoints(dealers)
    requires forall d :: d in dealers ==> Cong(f(d), secret + power(d))
    requires !Cong(AtZeroZ(dealers, power), 0)
    ensures Red(AtZeroZ(dealers, f)) != secret
  {
    hide Red, Lambda, AtZeroZ;
    var one := (a: Address) => 1;
    forall d | d in dealers
      ensures Cong(f(d), secret * one(d) + 1 * power(d))
    {
    }
    LagrangeAtZeroLinear(dealers, f, secret, one, power);
    CoefficientsSumToOne(dealers, one);
    NotEqualAfterAll(secret, AtZeroZ(dealers, one), AtZeroZ(dealers, power), AtZeroZ(dealers, f));
  }

  lemma LagrangeAtZeroLinear(ps: seq<Address>, h: Address -> int, c: int, f: Address -> int, g: Address -> int)
    requires forall a :: a in ps ==> Cong(h(a), c * f(a) + 1 * g(a))
    ensures Cong(AtZeroZ(ps, h), c * AtZeroZ(ps, f) + 1 * AtZeroZ(ps, g))
  {
    hide Red, Lambda;
    LagrangeLinear(ps, ps, h, c, f, 1, g);
  }

  lemma ShortSourceValue(source: Poly, n: nat, secret: Elem, d: Address)
    requires n > 0 && source == ShortSource(secret, n)
    ensures Cong(EvalAt(source, d), secret + PowerZ(AddressToFr(d), n))
  {
    hide Red;
    var x := AddressToFr(d);
    assert source[1..] == Monomial(n - 1, 1);
    CongRed(EvalZ(source, x));
    MonomialEval(n - 1, 1, x);
  }

  lemma NotEqualAfterAll(secret: Elem, one: int, extra: int, total: int)
    requires Cong(one, 1) && !Cong(extra, 0) && Cong(total, secret * one + 1 * extra)
    ensures Red(total) != secret
  {
    hide Red;
    CongScale(secret, one, 1);
    CongAdd(secret * one, secret, extra, extra);
    RedElem(secret);
    if Cong(secret + extra, secret) {
      CongSub(secret + extra, secret, secret, secret);
    }
  }
}
