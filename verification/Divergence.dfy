/** One dealer list per round: exactly what it takes for nodes that pass the same master-public-key check to end
    up on shares of one secret. */
module Divergence {
  import opened Results
  import opened PrimeField
  import opened Addresses
  import opened Lists
  import opened Interpolation
  import opened Combination
  import opened Curve
  import opened Resharing

  /** The commitment vector of a polynomial. */
  function Points(p: Poly): (cs: seq<G2Point>)
    ensures |cs| == |p| && Logs(cs) == p
  {
    seq(|p|, i requires 0 <= i < |p| => G2Point(p[i]))
  }

  function Commitments(dealt: map<Address, Poly>): map<Address, seq<G2Point>> {
    map d | d in dealt :: Points(dealt[d])
  }

  /** Two nodes can use one dealing of the round, each with its own dealer list: every vector has threshold
      length, and the check accepts both lists against the served key. */
  ghost predicate BothAccept(d1: seq<Address>, d2: seq<Address>, dealt: map<Address, Poly>, t: nat, mpk: G2Point) {
    && DealtWith(d1, dealt, t) && DealtWith(d2, dealt, t)
    && MpkAccepted(d1, Commitments(dealt), Some(mpk)) && MpkAccepted(d2, Commitments(dealt), Some(mpk))
  }

  // Same dealers, same polynomial ---------------------------------------------------------------

  lemma SameMembersSameWeights(d1: seq<Address>, d2: seq<Address>, a: Address)
    requires Distinct(d1) && Distinct(d2) && ToSet(d1) == ToSet(d2)
    ensures Lambda(a, d1) == Lambda(a, d2)
  {
    SameMembers(d1, d2);
    ProductsAnyOrder(a, d1, d2, ToSet(d1));
  }

  lemma SameMembers(d1: seq<Address>, d2: seq<Address>)
    requires Distinct(d1) && Distinct(d2) && ToSet(d1) == ToSet(d2)
    ensures Enumerates(d1, ToSet(d1)) && Enumerates(d2, ToSet(d1))
  {
    assert forall a :: a in d2 <==> a in ToSet(d2);
  }

  lemma PointsApart(ps: seq<Address>)
    requires DistinctPoints(ps)
    ensures Distinct(ps)
  {
  }

  /** Listing the same dealers in another order does not change the refreshed polynomial. */
  lemma RefreshedAnyOrder(d1: seq<Address>, d2: seq<Address>, dealt: map<Address, Poly>, t: nat)
    requires Distinct(d1) && Distinct(d2) && ToSet(d1) == ToSet(d2)
    requires DealtWith(d1, dealt, t) && DealtWith(d2, dealt, t)
    ensures Refreshed(d1, dealt, t) == Refreshed(d2, dealt, t)
  {
    hide Red, Lambda, Distinct;
    var p, q := Refreshed(d1, dealt, t), Refreshed(d2, dealt, t);
    SameMembers(d1, d2);
    forall k | 0 <= k < t
      ensures p[k] == q[k]
    {
      var h := (a: Address) => Lambda(a, d1) * (if a in dealt && k < |dealt[a]| then dealt[a][k] else 0);
      forall a
        ensures Lambda(a, d1) == Lambda(a, d2)
      {
        SameMembersSameWeights(d1, d2, a);
      }
      CombineCoefficient(d1, Weights(d1), dealt, t, k, h);
      CombineCoefficient(d2, Weights(d2), dealt, t, k, h);
      SumAnyOrder(d1, d2, ToSet(d1), h);
      CongElems(p[k], q[k]);
    }
  }

  // Different dealers, different polynomial -----------------------------------------------------

  /** secret + slope * X, with t coefficients. */
  function Line(secret: Elem, slope: Elem, t: nat): (p: Poly)
    requires t >= 2
    ensures |p| == t && p[0] == secret && p[1] == slope
  {
    [secret, slope] + Zero(t - 2)
  }

  lemma LineEval(secret: Elem, slope: Elem, t: nat, x: int)
    requires t >= 2
    ensures EvalZ(Line(secret, slope, t), x) == secret + x * slope
  {
    var p := Line(secret, slope, t);
    assert p[1..] == [slope] + Zero(t - 2) && p[1..][1..] == Zero(t - 2);
    ZeroEval(t - 2, x);
    assert EvalZ(p[1..], x) == slope + x * EvalZ(p[1..][1..], x);
  }

  /** Everybody deals its share of the source as a constant, except that x adds X to it. */
  function Tilted(all: set<Address>, x: Address, source: Poly, t: nat): map<Address, Poly>
    requires t >= 2
  {
    map d | d in all :: Line(EvalAt(source, d), if d == x then 1 else 0, t)
  }

  /** Every listed dealer deals from its share of one source polynomial, as an honest operator does. */
  ghost predicate DealFrom(ds: seq<Address>, dealt: map<Address, Poly>, source: Poly) {
    forall d :: d in ds ==> d in dealt && dealt[d] != [] && dealt[d][0] == EvalAt(source, d)
  }

  lemma {:induction false} SumOfZeros(ps: seq<Address>, h: Address -> int)
    requires forall a :: a in ps ==> h(a) == 0
    ensures SumZ(ps, h) == 0
  {
    if ps != [] {
      SumOfZeros(ps[1..], h);
    }
  }

  lemma SumOfOne(ps: seq<Address>, x: Address, h: Address -> int)
    requires Distinct(ps) && forall a :: a in ps && a != x ==> h(a) == 0
    ensures SumZ(ps, h) == if x in ps then h(x) else 0
  {
    if x in ps {
      var m :| 0 <= m < |ps| && ps[m] == x;
      SumWithout(ps, m, h);
      var rest := Without(ps, m);
      forall a | a in rest
        ensures h(a) == 0
      {
        var i :| 0 <= i < |rest| && rest[i] == a;
        assert a == ps[if i < m then i else i + 1];
      }
      SumOfZeros(rest, h);
    } else {
      SumOfZeros(ps, h);
    }
  }

  /** The slope of the refreshed polynomial is the weight of x, if x is on the list. */
  function Slope(ds: seq<Address>, x: Address): Elem {
    if x in ds then Lambda(x, ds) else 0
  }

  lemma RefreshedTilted(ds: seq<Address>, all: set<Address>, x: Address, source: Poly, t: nat)
    requires t >= 2 && 0 < |source| <= |ds| && DistinctPoints(ds) && forall d :: d in ds ==> d in all
    ensures DealtWith(ds, Tilted(all, x, source, t), t)
    ensures Refreshed(ds, Tilted(all, x, source, t), t) == Line(source[0], Slope(ds, x), t)
  {
    hide Red, Lambda, DistinctPoints, EvalAt;
    var dealt, w := Tilted(all, x, source, t), Weights(ds);
    var p, line := Refreshed(ds, dealt, t), Line(source[0], Slope(ds, x), t);
    PointsApart(ds);
    forall k | 0 <= k < t
      ensures p[k] == line[k]
    {
      if k == 0 {
        var share := (a: Address) => EvalAt(source, a) as int;
        var h := (a: Address) => Lambda(a, ds) * share(a);
        CombineCoefficient(ds, w, dealt, t, 0, h);
        LagrangeIsSum(ds, ds, share, h);
        AllOnOne(ds, source, share);
      } else if k == 1 {
        var h := (a: Address) => Lambda(a, ds) * (if a == x then 1 else 0);
        CombineCoefficient(ds, w, dealt, t, 1, h);
        SumOfOne(ds, x, h);
      } else {
        var h := (a: Address) => 0;
        CombineCoefficient(ds, w, dealt, t, k, h);
        SumOfZeros(ds, h);
      }
      CongElems(p[k], line[k]);
    }
  }

  /** The check accepts honest dealing on every list that is long enough for the source. */
  lemma HonestIsAccepted(ds: seq<Address>, dealt: map<Address, Poly>, source: Poly)
    requires 0 < |source| <= |ds| && DistinctPoints(ds) && DealFrom(ds, dealt, source)
    ensures MpkAccepted(ds, Commitments(dealt), Some(ScalarMulG2(G2Generator, source[0])))
  {
    hide EvalAt, DistinctPoints, MpkAccepted;
    AcceptsOneSourcePolynomial(ds, Commitments(dealt), source);
  }

  lemma SlopesDiffer(d1: seq<Address>, d2: seq<Address>, x: Address)
    requires DistinctPoints(d1) && DistinctPoints(d2) && NonzeroPoints(d1) && NonzeroPoints(d2)
    requires x in d1 <==> x !in d2
    ensures Slope(d1, x) != Slope(d2, x)
  {
    var ds := if x in d1 then d1 else d2;
    var m :| 0 <= m < |ds| && ds[m] == x;
    DistinctIsApart(ds, m);
    LambdaNonzero(x, ds);
    CongElems(Lambda(x, ds), 0);
  }

  /** ONE DEALER LIST PER ROUND. Two lists give the same refreshed polynomial on every dealing that the check
      accepts for both of them exactly when they list the same dealers; and the same holds of the dealings in which
      every dealer deals from its share of a given source polynomial, whatever that polynomial is. */
  lemma SamePolynomialIffSameDealers(d1: seq<Address>, d2: seq<Address>, t: nat, source: Poly)
    requires t >= 2 && 0 < |source| && |source| <= |d1| && |source| <= |d2|
    requires DistinctPoints(d1) && DistinctPoints(d2) && NonzeroPoints(d1) && NonzeroPoints(d2)
    ensures (forall dealt :: BothAccept(d1, d2, dealt, t, ScalarMulG2(G2Generator, source[0])) ==>
               Refreshed(d1, dealt, t) == Refreshed(d2, dealt, t)) <==>
            ToSet(d1) == ToSet(d2)
    ensures (forall dealt :: BothAccept(d1, d2, dealt, t, ScalarMulG2(G2Generator, source[0])) &&
                             DealFrom(d1, dealt, source) && DealFrom(d2, dealt, source) ==>
               Refreshed(d1, dealt, t) == Refreshed(d2, dealt, t)) <==>
            ToSet(d1) == ToSet(d2)
  {
    hide Red, Lambda, Refreshed, MpkAccepted, DistinctPoints, NonzeroPoints, ScalarMulG2, Line, EvalAt, DealFrom;
    var mpk := ScalarMulG2(G2Generator, source[0]);
    PointsApart(d1);
    PointsApart(d2);
    if ToSet(d1) == ToSet(d2) {
      forall dealt | BothAccept(d1, d2, dealt, t, mpk)
        ensures Refreshed(d1, dealt, t) == Refreshed(d2, dealt, t)
      {
        RefreshedAnyOrder(d1, d2, dealt, t);
      }
    } else {
      var x := InOnlyOne(d1, d2);
      var dealt := TiltedOnBoth(d1, d2, ToSet(d1) + ToSet(d2), x, source, t);
      SlopesDiffer(d1, d2, x);
      assert BothAccept(d1, d2, dealt, t, mpk);
    }
  }

  lemma InOnlyOne(d1: seq<Address>, d2: seq<Address>) returns (x: Address)
    requires ToSet(d1) != ToSet(d2)
    ensures x in d1 <==> x !in d2
  {
    if a :| a in d1 && a !in d2 {
      x := a;
    } else {
      x :| x in d2 && x !in d1;
    }
  }

  lemma TiltedOnBoth(d1: seq<Address>, d2: seq<Address>, all: set<Address>, x: Address, source: Poly, t: nat)
    returns (dealt: map<Address, Poly>)
    requires t >= 2 && 0 < |source| && |source| <= |d1| && |source| <= |d2| && DistinctPoints(d1) && DistinctPoints(d2)
    requires forall d :: d in d1 || d in d2 ==> d in all
    ensures dealt == Tilted(all, x, source, t) && BothAccept(d1, d2, dealt, t, ScalarMulG2(G2Generator, source[0]))
    ensures DealFrom(d1, dealt, source) && DealFrom(d2, dealt, source)
    ensures Refreshed(d1, dealt, t) == Line(source[0], Slope(d1, x), t)
    ensures Refreshed(d2, dealt, t) == Line(source[0], Slope(d2, x), t)
  {
    hide Red, Lambda, DistinctPoints, MpkAccepted, Line, Refreshed, ScalarMulG2, EvalAt;
    dealt := Tilted(all, x, source, t);
    RefreshedTilted(d1, all, x, source, t);
    RefreshedTilted(d2, all, x, source, t);
    HonestIsAccepted(d1, dealt, source);
    HonestIsAccepted(d2, dealt, source);
  }

  // What it costs: the secret -------------------------------------------------------------------

  /** Shares gathered from holders of which one, `a`, finalized on the other list. */
  function Mixed(p: Poly, q: Poly, a: Address): Address -> int {
    (b: Address) => if b == a then EvalAt(p, b) else EvalAt(q, b)
  }

  /** One share of secret + c1*X among shares of secret + c2*X never interpolates to the secret. */
  lemma MixedLinesMiss(ps: seq<Address>, m: nat, secret: Elem, c1: Elem, c2: Elem, t: nat)
    requires m < |ps| && 2 <= t <= |ps| && DistinctPoints(ps) && NonzeroPoints(ps) && c1 != c2
    ensures !Cong(AtZeroZ(ps, Mixed(Line(secret, c1, t), Line(secret, c2, t), ps[m])), secret)
  {
    hide Red, Lambda, DistinctPoints, NonzeroPoints, Line, EvalAt;
    var p, q := Line(secret, c1, t), Line(secret, c2, t);
    var f, g := (b: Address) => EvalAt(q, b) as int, Mixed(p, q, ps[m]);
    var x: int := AddressToFr(ps[m]);
    AllOnOne(ps, q, f);
    LagrangeDifference(ps, m, f, g);
    OneOfThese(ps, m);
    LinesApart(ps[m], secret, c1, c2, t);
    LambdaNonzero(ps[m], ps);
    ProductNonzero(Lambda(ps[m], ps), EvalAt(p, ps[m]) - EvalAt(q, ps[m]));
    if Cong(AtZeroZ(ps, g), secret) {
      CongSub(AtZeroZ(ps, g), secret, AtZeroZ(ps, f), secret);
    }
  }

  lemma AllOnOne(ps: seq<Address>, q: Poly, f: Address -> int)
    requires 0 < |q| <= |ps| && DistinctPoints(ps) && forall a :: a in ps ==> f(a) == EvalAt(q, a)
    ensures Cong(AtZeroZ(ps, f), q[0])
  {
    hide Red, Lambda;
    forall a | a in ps
      ensures Cong(f(a), EvalZ(q, AddressToFr(a)))
    {
      CongRed(EvalZ(q, AddressToFr(a)));
    }
    InterpolatesAtZero(ps, q, f);
  }

  lemma OneOfThese(ps: seq<Address>, m: nat)
    requires m < |ps| && DistinctPoints(ps) && NonzeroPoints(ps)
    ensures Apart(ps[m], ps) && AddressToFr(ps[m]) != 0
    ensures forall b :: b in ps && b != ps[m] ==> AddressToFr(b) != 0
  {
    DistinctIsApart(ps, m);
  }

  lemma LinesApart(a: Address, secret: Elem, c1: Elem, c2: Elem, t: nat)
    requires t >= 2 && c1 != c2 && AddressToFr(a) != 0
    ensures !Cong(EvalAt(Line(secret, c1, t), a) - EvalAt(Line(secret, c2, t), a), 0)
  {
    hide Red, Line;
    var x: int := AddressToFr(a);
    var u, v := EvalZ(Line(secret, c1, t), x), EvalZ(Line(secret, c2, t), x);
    LineEval(secret, c1, t, x);
    LineEval(secret, c2, t, x);
    CongRed(u);
    CongRed(v);
    CongSub(EvalAt(Line(secret, c1, t), a), u, EvalAt(Line(secret, c2, t), a), v);
    DifferentElemsDiffer(c1, c2);
    RedElem(0);
    CongElems(AddressToFr(a), 0);
    ProductNonzero(x, c1 - c2);
    assert u - v == x * (c1 - c2);
  }

  ghost predicate MixedRecovers(d1: seq<Address>, d2: seq<Address>, dealt: map<Address, Poly>, t: nat,
                                ps: seq<Address>, a: Address, secret: Elem)
    requires DealtWith(d1, dealt, t) && DealtWith(d2, dealt, t)
  {
    Red(AtZeroZ(ps, Mixed(Refreshed(d1, dealt, t), Refreshed(d2, dealt, t), a))) == secret
  }

  /** ... and the secret survives it exactly then: for any t or more holders of whom one has finalized on d1 and the
      others on d2, recovery gives the secret on every dealing that the check accepts for both lists, or on every
      such dealing from shares of a given source polynomial, if and only if the lists name the same dealers. */
  lemma MixedRecoveryIffSameDealers(d1: seq<Address>, d2: seq<Address>, t: nat, source: Poly, ps: seq<Address>, m: nat)
    requires t >= 2 && 0 < |source| && |source| <= |d1| && |source| <= |d2|
    requires DistinctPoints(d1) && DistinctPoints(d2) && NonzeroPoints(d1) && NonzeroPoints(d2)
    requires m < |ps| && t <= |ps| && DistinctPoints(ps) && NonzeroPoints(ps)
    ensures (forall dealt :: BothAccept(d1, d2, dealt, t, ScalarMulG2(G2Generator, source[0])) ==>
               MixedRecovers(d1, d2, dealt, t, ps, ps[m], source[0])) <==>
            ToSet(d1) == ToSet(d2)
    ensures (forall dealt :: BothAccept(d1, d2, dealt, t, ScalarMulG2(G2Generator, source[0])) &&
                             DealFrom(d1, dealt, source) && DealFrom(d2, dealt, source) ==>
               MixedRecovers(d1, d2, dealt, t, ps, ps[m], source[0])) <==>
            ToSet(d1) == ToSet(d2)
  {
    hide Red, Lambda, Refreshed, MpkAccepted, DistinctPoints, NonzeroPoints, ScalarMulG2, Line, Mixed, AtZeroZ, EvalAt,
         DealFrom;
    var mpk := ScalarMulG2(G2Generator, source[0]);
    RedElem(source[0]);
    if ToSet(d1) == ToSet(d2) {
      PointsApart(d1);
      PointsApart(d2);
      forall dealt | BothAccept(d1, d2, dealt, t, mpk)
        ensures MixedRecovers(d1, d2, dealt, t, ps, ps[m], source[0])
      {
        RefreshedAnyOrder(d1, d2, dealt, t);
        AcceptedConstant(d1, dealt, t, source[0]);
        SameMixed(ps, Refreshed(d1, dealt, t), ps[m]);
      }
    } else {
      var x := InOnlyOne(d1, d2);
      var dealt := TiltedOnBoth(d1, d2, ToSet(d1) + ToSet(d2), x, source, t);
      SlopesDiffer(d1, d2, x);
      MixedLinesMiss(ps, m, source[0], Slope(d1, x), Slope(d2, x), t);
      assert BothAccept(d1, d2, dealt, t, mpk) && !MixedRecovers(d1, d2, dealt, t, ps, ps[m], source[0]);
    }
  }

  lemma SameMixed(ps: seq<Address>, p: Poly, a: Address)
    requires 0 < |p| <= |ps| && DistinctPoints(ps)
    ensures Cong(AtZeroZ(ps, Mixed(p, p, a)), p[0])
  {
    hide Red, Lambda, EvalAt;
    AllOnOne(ps, p, Mixed(p, p, a));
  }

  lemma AcceptedConstant(ds: seq<Address>, dealt: map<Address, Poly>, t: nat, secret: Elem)
    requires t > 0 && DealtWith(ds, dealt, t)
    requires MpkAccepted(ds, Commitments(dealt), Some(ScalarMulG2(G2Generator, secret)))
    ensures |Refreshed(ds, dealt, t)| == t && Refreshed(ds, dealt, t)[0] == secret
  {
    hide Red, Lambda, ImpliedKey;
    RefreshedConstant(ds, dealt, t, Commitments(dealt));
    ScalarMulGenerator(secret);
  }

  /** The smallest case. Three honest dealers a, b, c deal from their shares of any polynomial with at most two
      coefficients; one node has verified a and b, another b and c. Both pass the check with the key of that
      polynomial, and a threshold of their shares gives another secret. */
  lemma DivergentDealersGoUnnoticed(a: Address, b: Address, c: Address, source: Poly)
    requires DistinctPoints([a, b, c]) && NonzeroPoints([a, b, c]) && 1 <= |source| <= 2
    ensures var d1, d2, dealt := [a, b], [b, c], Tilted({a, b, c}, c, source, 2);
            && DealFrom([a, b, c], dealt, source)
            && BothAccept(d1, d2, dealt, 2, ScalarMulG2(G2Generator, source[0]))
            && !MixedRecovers(d1, d2, dealt, 2, [a, c], a, source[0])
  {
    hide Red, Lambda, Refreshed, MpkAccepted, ScalarMulG2, Line, Mixed, AtZeroZ, Slope, EvalAt;
    TriplePoints(a, b, c);
    var d1, d2 := [a, b], [b, c];
    var dealt := TiltedOnBoth(d1, d2, {a, b, c}, c, source, 2);
    SlopesDiffer(d1, d2, c);
    MixedLinesMiss([a, c], 0, source[0], Slope(d1, c), Slope(d2, c), 2);
    RedElem(source[0]);
  }

  lemma TriplePoints(a: Address, b: Address, c: Address)
    requires DistinctPoints([a, b, c]) && NonzeroPoints([a, b, c])
    ensures DistinctPoints([a, b]) && DistinctPoints([b, c]) && DistinctPoints([a, c])
    ensures NonzeroPoints([a, b]) && NonzeroPoints([b, c]) && NonzeroPoints([a, c])
    ensures a != b && a != c && b != c
  {
    var l := [a, b, c];
    assert l[0] in l && l[1] in l && l[2] in l;
    assert AddressToFr(l[0]) != AddressToFr(l[1]) && AddressToFr(l[1]) != AddressToFr(l[2]);
    assert AddressToFr(l[0]) != AddressToFr(l[2]);
  }
}
