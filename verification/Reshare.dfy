/** pkg/reshare/reshare.go: refreshing shares, and validating the refreshed master public key. */
module Resharing {
  import opened Results
  import opened PrimeField
  import opened Addresses
  import opened Lists
  import opened Interpolation
  import opened Combination
  import opened Curve
  import opened Polynomials
  import opened Dkg

  class Reshare {
    const nodeAddress: Address
    const operators: seq<Address>
    var poly: Poly

    constructor (nodeAddress: Address, operators: seq<Address>)
      ensures this.nodeAddress == nodeAddress && this.operators == operators && poly == []
    {
      this.nodeAddress := nodeAddress;
      this.operators := operators;
      poly := [];
    }

    /** Deals a polynomial anchored at the current share; the other coefficients are sampled (`random`). */
    method GenerateNewShares(currentShare: Option<Elem>, newThreshold: nat, random: Poly)
      returns (r: Result<(map<Address, Elem>, seq<G2Point>)>)
      requires newThreshold > 0 && |random| == newThreshold - 1
      modifies this
      ensures r.Ok? <==> currentShare.Some?
      ensures currentShare.None? ==> poly == old(poly)
      ensures r.Ok? ==>
                && poly == [currentShare.value] + random
                && r.value.0 == (map a | a in operators :: EvalAt(poly, a))
                && Logs(r.value.1) == poly
                && r.value.1[0] == ScalarMulG2(G2Generator, currentShare.value)
                && forall a :: a in operators ==> Opens(r.value.0[a], r.value.1, a)
    {
      if currentShare.None? {
        return Err("no current share to reshare");
      }
      poly := [currentShare.value] + random;
      var newShares := Polynomials.GenerateShares(poly, operators);
      var commitments := CreateCommitments(poly);
      ScalarMulGenerator(currentShare.value);
      return Ok((newShares, commitments));
    }

    /** Accepts exactly the opening of the commitments at this node's own point. */
    method VerifyNewShare(share: Option<Elem>, commitments: seq<G2Point>) returns (ok: bool)
      ensures ok <==> share.Some? && commitments != [] && Opens(share.value, commitments, nodeAddress)
    {
      ok := VerifyWithRunningPower(nodeAddress, share, commitments);
    }

    /** Lagrange combination over the dealer list. A missing share is skipped, as in the source, while
        the coefficients still range over every dealer. */
    method ComputeNewKeyShare(dealers: seq<Address>, shares: map<Address, Elem>) returns (r: Result<KeyShare>)
      ensures r.Err? <==> dealers == []
      ensures r.Ok? ==>
                && r.value.privateShare == Red(AtZeroZ(dealers, Values(shares)))
                && r.value.commitments == [G2Point(Mul(r.value.privateShare, Lambda(nodeAddress, dealers)))]
                && r.value.participantIDs == dealers && !r.value.isActive
                && r.value.version == 0 && r.value.masterPublicKey == None
    {
      hide Red, Add, Mul, Lambda;
      if |dealers| == 0 {
        return Err("no dealer IDs provided");
      }
      var newShare: Elem := 0;
      ghost var f := Values(shares);
      RedElem(0);
      assert dealers[..0] == [];
      for k := 0 to |dealers|
        invariant newShare == Red(LagrangeZ(dealers[..k], dealers, f))
      {
        var dealer := dealers[k];
        assert dealers[..k + 1] == dealers[..k] + [dealer];
        LagrangeAppend(dealers[..k], dealer, dealers, f);
        if dealer in shares {
          var lambda := ComputeLagrangeCoefficient(dealer, dealers);
          AddProduct(LagrangeZ(dealers[..k], dealers, f), lambda, shares[dealer]);
          newShare := Add(newShare, Mul(lambda, shares[dealer]));
        }
      }
      assert dealers[..|dealers|] == dealers;
      var shareCommitment := ScalarMulG2(G2Generator, newShare);
      ScalarMulGenerator(newShare);
      var lambdaJ := ComputeLagrangeCoefficient(nodeAddress, dealers);
      return Ok(KeyShare(0, newShare, [ScalarMulG2(shareCommitment, lambdaJ)], None, false, dealers));
    }
  }

  function Present(shares: map<Address, Elem>): Address -> bool { (a: Address) => a in shares }

  /** A dealer without a share adds nothing, and the coefficients still range over every dealer: the combination is
      the sum over the dealers that have one. */
  lemma {:induction false} MissingSharesAreSkipped(qs: seq<Address>, dealers: seq<Address>, shares: map<Address, Elem>,
                                                   f: Address -> int)
    requires forall a :: a in shares ==> f(a) == shares[a]
    ensures LagrangeZ(qs, dealers, Values(shares)) == LagrangeZ(Filter(qs, Present(shares)), dealers, f)
  {
    hide Red, Lambda;
    if qs != [] {
      var front, last := qs[..|qs| - 1], qs[|qs| - 1];
      MissingSharesAreSkipped(front, dealers, shares, f);
      LagrangeAppend(front, last, dealers, Values(shares));
      assert qs == front + [last];
      if last in shares {
        LagrangeAppend(Filter(front, Present(shares)), last, dealers, f);
      }
    }
  }

  // Validating the refreshed master public key ------------------------------------------------

  /** Every dealer's first commitment is at hand. */
  predicate AllCommitted(dealers: seq<Address>, commitments: map<Address, seq<G2Point>>) {
    forall d :: d in dealers ==> d in commitments && commitments[d] != []
  }

  function ConstantTerms(commitments: map<Address, seq<G2Point>>): Address -> int {
    (a: Address) => if a in commitments && commitments[a] != [] then commitments[a][0].log else 0
  }

  /** The group public key implied by the dealers' first commitments. */
  function ImpliedKey(dealers: seq<Address>, commitments: map<Address, seq<G2Point>>): G2Point {
    G2Point(Red(AtZeroZ(dealers, ConstantTerms(commitments))))
  }

  predicate MpkAccepted(dealers: seq<Address>, commitments: map<Address, seq<G2Point>>, mpk: Option<G2Point>) {
    dealers != [] && mpk.Some? && AllCommitted(dealers, commitments) && ImpliedKey(dealers, commitments) == mpk.value
  }

  method ValidateReshareMasterPublicKey(dealers: seq<Address>, commitments: map<Address, seq<G2Point>>,
                                        expectedMPK: Option<G2Point>) returns (r: Result<()>)
    ensures r.Ok? <==> MpkAccepted(dealers, commitments, expectedMPK)
  {
    hide Red, Add, Mul, Lambda;
    if |dealers| == 0 {
      return Err("no dealers provided for MPK validation");
    }
    if expectedMPK.None? {
      return Err("no expected master public key provided for MPK validation");
    }
    ghost var f := ConstantTerms(commitments);
    var sum: Option<G2Point> := None;
    assert dealers[..0] == [];
    RedElem(0);
    for k := 0 to |dealers|
      invariant AllCommitted(dealers[..k], commitments)
      invariant sum == if k == 0 then None else Some(G2Point(Red(LagrangeZ(dealers[..k], dealers, f))))
    {
      var dealer := dealers[k];
      if dealer !in commitments || |commitments[dealer]| == 0 {
        return Err("missing commitments for agreed dealer");
      }
      var lambda := ComputeLagrangeCoefficient(dealer, dealers);
      var c := commitments[dealer][0];
      var term := ScalarMulG2(c, lambda);
      assert dealers[..k + 1] == dealers[..k] + [dealer];
      LagrangeAppend(dealers[..k], dealer, dealers, f);
      AddMirroredProduct(LagrangeZ(dealers[..k], dealers, f), lambda, c.log);
      if sum.None? {
        sum := Some(term);
      } else {
        sum := Some(AddG2(sum.value, term));
      }
    }
    assert dealers[..|dealers|] == dealers;
    if sum.value != expectedMPK.value {
      return Err("post-reshare master public key mismatch");
    }
    return Ok(());
  }

  /** Accepts whenever the dealers dealt from shares of one polynomial with at most |D| coefficients
      whose constant term is the served secret, whatever that polynomial's degree was before. */
  lemma AcceptsOneSourcePolynomial(dealers: seq<Address>, commitments: map<Address, seq<G2Point>>, source: Poly)
    requires DistinctPoints(dealers) && 0 < |source| <= |dealers| && AllCommitted(dealers, commitments)
    requires forall d :: d in dealers ==> commitments[d][0] == G2Point(EvalAt(source, d))
    ensures MpkAccepted(dealers, commitments, Some(ScalarMulG2(G2Generator, source[0])))
  {
    var f := ConstantTerms(commitments);
    forall d | d in dealers
      ensures Cong(f(d), EvalZ(source, AddressToFr(d)))
    {
      CongRed(EvalZ(source, AddressToFr(d)));
    }
    InterpolatesAtZero(dealers, source, f);
    RedElem(source[0]);
    ScalarMulGenerator(source[0]);
  }

  /** A Lagrange coefficient at zero is never zero when the other points are nonzero. */
  lemma LambdaNonzero(i: Address, ps: seq<Address>)
    requires Apart(i, ps) && forall b :: b in ps && b != i ==> AddressToFr(b) != 0
    ensures !Cong(Lambda(i, ps), 0)
  {
    hide Red;
    NumeratorNonzero(i, ps);
    LambdaLaw(i, ps);
    if Cong(Lambda(i, ps), 0) {
      CongMul(Lambda(i, ps), 0, DenZ(i, ps), DenZ(i, ps));
    }
  }

  lemma {:induction false} NumeratorNonzero(i: Address, ps: seq<Address>)
    requires forall b :: b in ps && b != i ==> AddressToFr(b) != 0
    ensures !Cong(NumZ(i, ps), 0)
  {
    hide Red;
    if ps == [] {
      OneNotZero();
    } else {
      NumeratorNonzero(i, ps[1..]);
      if i != ps[0] {
        assert ps[0] in ps;
        DifferentElemsDiffer(0, AddressToFr(ps[0]));
        ProductNonzero(0 - AddressToFr(ps[0]), NumZ(i, ps[1..]));
      }
    }
  }

  /** When all dealers but one dealt from the accepted values, the check accepts exactly if that one
      dealer did too: a single stale or foreign source share is always caught. */
  lemma SingleDeviationDecides(dealers: seq<Address>, m: nat, honest: map<Address, seq<G2Point>>,
                               actual: map<Address, seq<G2Point>>, mpk: G2Point)
    requires m < |dealers| && DistinctPoints(dealers) && NonzeroPoints(dealers)
    requires MpkAccepted(dealers, honest, Some(mpk)) && AllCommitted(dealers, actual)
    requires forall d :: d in dealers && d != dealers[m] ==> actual[d][0] == honest[d][0]
    ensures MpkAccepted(dealers, actual, Some(mpk)) <==> actual[dealers[m]][0] == honest[dealers[m]][0]
  {
    hide Red, Lambda;
    var a := dealers[m];
    var f, g := ConstantTerms(honest), ConstantTerms(actual);
    var u := actual[a][0].log - honest[a][0].log;
    DistinctIsApart(dealers, m);
    LambdaNonzero(a, dealers);
    LagrangeDifference(dealers, m, f, g);
    var l: int, sf, sg := Lambda(a, dealers), AtZeroZ(dealers, f), AtZeroZ(dealers, g);
    assert u == 0 ==> sf == sg;
    if Cong(sf, sg) {
      CongSub(sg, sf, sf, sf);
      assert Cong(u * l, 0 * l) by { assert u * l == l * u; }
      Cancel(u, 0, l);
      CongAdd(u, 0, honest[a][0].log, honest[a][0].log);
      CongElems(actual[a][0].log, honest[a][0].log);
    }
  }

  lemma DistinctIsApart(ps: seq<Address>, m: nat)
    requires m < |ps| && DistinctPoints(ps)
    ensures Apart(ps[m], ps)
  {
  }

  lemma LagrangeDifference(ps: seq<Address>, m: nat, f: Address -> int, g: Address -> int)
    requires m < |ps| && DistinctPoints(ps)
    requires forall a :: a in ps && a != ps[m] ==> f(a) == g(a)
    ensures AtZeroZ(ps, g) - AtZeroZ(ps, f) == Lambda(ps[m], ps) * (g(ps[m]) - f(ps[m]))
  {
    hide Red, Lambda;
    var hf := (a: Address) => Lambda(a, ps) * f(a);
    var hg := (a: Address) => Lambda(a, ps) * g(a);
    LagrangeIsSum(ps, ps, f, hf);
    LagrangeIsSum(ps, ps, g, hg);
    SumWithout(ps, m, hf);
    SumWithout(ps, m, hg);
    var qs := Without(ps, m);
    forall a | a in qs
      ensures hf(a) == hg(a)
    {
      WithoutDistinct(ps, m, a);
    }
    SumEqual(qs, hf, hg);
    assert Lambda(ps[m], ps) * (g(ps[m]) - f(ps[m])) == hg(ps[m]) - hf(ps[m]);
  }

  lemma {:induction false} SumEqual(ps: seq<Address>, f: Address -> int, g: Address -> int)
    requires forall a :: a in ps ==> f(a) == g(a)
    ensures SumZ(ps, f) == SumZ(ps, g)
  {
    if ps != [] {
      SumEqual(ps[1..], f, g);
    }
  }

  // The refreshed sharing ---------------------------------------------------------------------

  function Weights(dealers: seq<Address>): Address -> int {
    (a: Address) => Lambda(a, dealers)
  }

  /** The polynomial the refreshed shares lie on. */
  function Refreshed(dealers: seq<Address>, dealt: map<Address, Poly>, t: nat): (p: Poly)
    requires DealtWith(dealers, dealt, t)
    ensures |p| == t
  {
    Combine(dealers, Weights(dealers), dealt, t)
  }

  /** A node that combines verified shares of every dealer lands on the refreshed polynomial. */
  lemma RefreshedShare(j: Address, dealers: seq<Address>, dealt: map<Address, Poly>, t: nat, shares: map<Address, Elem>)
    requires DealtWith(dealers, dealt, t)
    requires forall d :: d in dealers ==> d in shares && shares[d] == EvalAt(dealt[d], j)
    ensures Red(AtZeroZ(dealers, Values(shares))) == EvalAt(Refreshed(dealers, dealt, t), j)
  {
    hide Red, Lambda;
    var x := AddressToFr(j);
    var w := Weights(dealers);
    var h := (a: Address) => Lambda(a, dealers) * Values(shares)(a);
    LagrangeIsSum(dealers, dealers, Values(shares), h);
    forall d | d in dealers
      ensures Cong(h(d), w(d) * EvalZ(dealt[d], x))
    {
      CongRed(EvalZ(dealt[d], x));
      CongScale(Lambda(d, dealers), shares[d], EvalZ(dealt[d], x));
    }
    CombineEval(dealers, w, dealt, t, x, h);
  }

  /** ... whose constant term is the exponent of the implied group key. */
  lemma RefreshedConstant(dealers: seq<Address>, dealt: map<Address, Poly>, t: nat,
                          commitments: map<Address, seq<G2Point>>)
    requires DealtWith(dealers, dealt, t) && t > 0
    requires forall d :: d in dealers ==> d in commitments && Logs(commitments[d]) == dealt[d]
    ensures Refreshed(dealers, dealt, t)[0] == ImpliedKey(dealers, commitments).log
  {
    hide Red, Lambda;
    var w := Weights(dealers);
    var f := ConstantTerms(commitments);
    var h := (a: Address) => Lambda(a, dealers) * f(a);
    LagrangeIsSum(dealers, dealers, f, h);
    CombineCoefficient(dealers, w, dealt, t, 0, h);
    RedElem(Refreshed(dealers, dealt, t)[0]);
  }

  /** The commitments that the dealers publish after a round (their Lagrange-scaled share keys) add up
      to the group public key whenever at least as many dealers as coefficients took part. */
  lemma PublishedCommitmentsAddUp(dealers: seq<Address>, refreshed: Poly, published: map<Address, G2Point>,
                                  sum: Address -> int)
    requires DistinctPoints(dealers) && 0 < |refreshed| <= |dealers|
    requires forall d :: d in dealers ==>
               d in published && published[d] == G2Point(Mul(EvalAt(refreshed, d), Lambda(d, dealers)))
    requires forall d :: d in dealers ==> sum(d) == published[d].log
    ensures Red(SumZ(dealers, sum)) == refreshed[0]
  {
    hide Red, Lambda;
    var v := (a: Address) => EvalZ(refreshed, AddressToFr(a));
    var h := (a: Address) => Lambda(a, dealers) * v(a);
    forall d | d in dealers
      ensures Cong(sum(d), h(d))
    {
      var y := EvalAt(refreshed, d);
      CongRed(y * Lambda(d, dealers));
      CongRed(v(d));
      CongMul(y, v(d), Lambda(d, dealers), Lambda(d, dealers));
      assert v(d) * Lambda(d, dealers) == h(d);
    }
    SumCong(dealers, sum, h);
    LagrangeIsSum(dealers, dealers, v, h);
    InterpolatesAtZero(dealers, refreshed, v);
    RedElem(refreshed[0]);
  }
}
