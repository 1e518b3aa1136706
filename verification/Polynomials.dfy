/** pkg/bls/polynomial.go: secret sharing and share verification with reduced field arithmetic,
    each loop proved against the integer specification of Interpolation. */
module Polynomials {
  import opened Results
  import opened PrimeField
  import opened Addresses
  import opened Interpolation
  import opened Curve

  // Accumulator steps: an already reduced accumulator may absorb one more factor or term --------

  lemma AbsorbFactor(acc: Elem, f: int, rest: int, total: int)
    requires Red(acc * (f * rest)) == Red(total)
    ensures Red(Mul(acc, Red(f)) * rest) == Red(total)
  {
    CongRed(f);
    CongRed(acc * Red(f));
    CongMul(acc, acc, Red(f), f);
    CongMul(Mul(acc, Red(f)), acc * f, rest, rest);
    assert acc * f * rest == acc * (f * rest);
  }

  lemma AbsorbTerm(acc: Elem, u: Elem, v: Elem, rest: int, total: int)
    requires Red(acc + (u * v + rest)) == Red(total)
    ensures Red(Add(acc, Mul(u, v)) + rest) == Red(total)
  {
    CongRed(u * v);
    CongRed(acc + Mul(u, v));
    CongAdd(acc, acc, Mul(u, v), u * v);
    CongAdd(Add(acc, Mul(u, v)), acc + u * v, rest, rest);
  }

  lemma AddProduct(sum: int, u: Elem, v: Elem)
    ensures Add(Red(sum), Mul(u, v)) == Red(sum + u * v)
  {
    AddRed(sum, u * v);
  }

  lemma AddMirroredProduct(sum: int, u: Elem, v: Elem)
    ensures Add(Red(sum), Mul(v, u)) == Red(sum + u * v)
    ensures sum == 0 ==> Mul(v, u) == Red(sum + u * v)
  {
    AddRed(sum, u * v);
    assert u * v == v * u;
  }

  /** bls.ComputeLagrangeCoefficient. */
  method ComputeLagrangeCoefficient(i: Address, participants: seq<Address>) returns (lambda: Elem)
    ensures lambda == Lambda(i, participants)
  {
    hide Red, Mul, Inv;
    var numerator: Elem, denominator: Elem := 1, 1;
    var iFr := AddressToFr(i);
    for k := 0 to |participants|
      invariant Red(numerator * NumZ(i, participants[k..])) == Red(NumZ(i, participants))
      invariant Red(denominator * DenZ(i, participants[k..])) == Red(DenZ(i, participants))
    {
      var j := participants[k];
      assert participants[k..][1..] == participants[k + 1..];
      if i != j {
        var jFr := AddressToFr(j);
        AbsorbFactor(numerator, NumFactor(i, j), NumZ(i, participants[k + 1..]), NumZ(i, participants));
        AbsorbFactor(denominator, DenFactor(i, j), DenZ(i, participants[k + 1..]), DenZ(i, participants));
        numerator := Mul(numerator, Neg(jFr));
        denominator := Mul(denominator, Sub(iFr, jFr));
      }
    }
    RedElem(numerator);
    RedElem(denominator);
    lambda := Mul(Inv(denominator), numerator);
  }

  /** The share held by each operator; operators without one contribute zero. */
  function Values(shares: map<Address, Elem>): Address -> int {
    (a: Address) => if a in shares then shares[a] else 0
  }

  /** bls.RecoverSecret. Both range loops run in an arbitrary map order. */
  method RecoverSecret(shares: map<Address, Elem>) returns (r: Result<Elem>)
    ensures forall ps :: Enumerates(ps, shares.Keys) ==>
              r == (var s := Red(AtZeroZ(ps, Values(shares)));
                    if s == 0 then Err("secret cannot be zero, this should not happen") else Ok(s))
  {
    hide Red, Add, Mul, Lambda, AtZeroZ;
    var participants := [];
    var rest := shares.Keys;
    while rest != {}
      invariant rest <= shares.Keys
      invariant Enumerates(participants, shares.Keys - rest)
    {
      var addr :| addr in rest;
      participants, rest := participants + [addr], rest - {addr};
    }
    var secret: Elem := 0;
    ghost var visited: seq<Address> := [];
    ghost var f := Values(shares);
    rest := shares.Keys;
    RedElem(0);
    while rest != {}
      invariant rest <= shares.Keys
      invariant Enumerates(visited, shares.Keys - rest)
      invariant secret == Red(LagrangeZ(visited, participants, f))
    {
      var addr :| addr in rest;
      var lambda := ComputeLagrangeCoefficient(addr, participants);
      LagrangeAppend(visited, addr, participants, f);
      AddProduct(LagrangeZ(visited, participants, f), lambda, shares[addr]);
      secret := Add(secret, Mul(lambda, shares[addr]));
      visited, rest := visited + [addr], rest - {addr};
    }
    forall ps | Enumerates(ps, shares.Keys)
      ensures LagrangeZ(visited, participants, f) == AtZeroZ(ps, f)
    {
      LagrangeAnyOrder(visited, participants, ps, shares.Keys, f);
    }
    if secret == 0 {
      return Err("secret cannot be zero, this should not happen");
    }
    return Ok(secret);
  }

  /** One more summand at the end, as a Lagrange loop adds it. */
  lemma {:induction false} LagrangeAppend(qs: seq<Address>, a: Address, ps: seq<Address>, f: Address -> int)
    ensures LagrangeZ(qs + [a], ps, f) == LagrangeZ(qs, ps, f) + Lambda(a, ps) * f(a)
  {
    if qs == [] {
      assert (qs + [a])[1..] == [];
    } else {
      LagrangeAppend(qs[1..], a, ps, f);
      assert (qs + [a])[1..] == qs[1..] + [a];
    }
  }

  /** bls.GenerateShares. */
  method GenerateShares(poly: Poly, participants: seq<Address>) returns (shares: map<Address, Elem>)
    ensures shares == map a | a in participants :: EvalAt(poly, a)
  {
    shares := map[];
    for k := 0 to |participants|
      invariant shares == map a | a in participants[..k] :: EvalAt(poly, a)
    {
      shares := shares[participants[k] := EvalAt(poly, participants[k])];
      assert participants[..k + 1] == participants[..k] + [participants[k]];
    }
  }

  /** Any t or more shares of a polynomial with t coefficients recover its constant term. */
  lemma SharesRecoverSecret(poly: Poly, ps: seq<Address>, shares: map<Address, Elem>)
    requires 0 < |poly| <= |ps| && DistinctPoints(ps)
    requires forall a :: a in ps ==> a in shares && shares[a] == EvalAt(poly, a)
    ensures Red(AtZeroZ(ps, Values(shares))) == poly[0]
  {
    forall a | a in ps
      ensures Cong(Values(shares)(a), EvalZ(poly, AddressToFr(a)))
    {
      CongRed(EvalZ(poly, AddressToFr(a)));
    }
    InterpolatesAtZero(ps, poly, Values(shares));
    RedElem(poly[0]);
  }

  /** GenerateShares followed by RecoverSecret gives back a nonzero secret. */
  method ShareAndRecover(poly: Poly, participants: seq<Address>) returns (r: Result<Elem>)
    requires 0 < |poly| <= |participants| && DistinctPoints(participants)
    ensures r == if poly[0] == 0 then Err("secret cannot be zero, this should not happen") else Ok(poly[0])
  {
    var shares := GenerateShares(poly, participants);
    SharesRecoverSecret(poly, participants, shares);
    assert Enumerates(participants, shares.Keys);
    r := RecoverSecret(shares);
  }

  /** bls.CreateCommitments: coefficient k times the G2 generator. */
  method CreateCommitments(poly: Poly) returns (commitments: seq<G2Point>)
    ensures Logs(commitments) == poly
  {
    commitments := [];
    for k := 0 to |poly|
      invariant Logs(commitments) == poly[..k]
    {
      ScalarMulGenerator(poly[k]);
      commitments := commitments + [ScalarMulG2(G2Generator, poly[k])];
    }
  }

  // Share verification ------------------------------------------------------------------------

  /** The share opens the committed polynomial at the operator's point. */
  predicate Opens(share: Elem, commitments: seq<G2Point>, a: Address) {
    share == EvalAt(Logs(commitments), a)
  }

  /** The check shared by dkg.VerifyShare and reshare.VerifyNewShare: a running power of the point. */
  method VerifyWithRunningPower(a: Address, share: Option<Elem>, commitments: seq<G2Point>) returns (ok: bool)
    ensures ok <==> share.Some? && commitments != [] && Opens(share.value, commitments, a)
  {
    if |commitments| == 0 || share.None? {
      return false;
    }
    var leftSide := ScalarMulG2(G2Generator, share.value);
    ScalarMulGenerator(share.value);
    var jFr := AddressToFr(a);
    var jPower: Elem := 1;
    var rightSide := commitments[0];
    ghost var cs := Logs(commitments);
    ghost var total := EvalZ(cs, jFr);
    for k := 1 to |commitments|
      invariant Red(rightSide.log + jPower * (jFr * EvalZ(cs[k..], jFr))) == Red(total)
    {
      assert cs[k..][1..] == cs[k + 1..];
      RunningPowerStep(rightSide.log, jPower, jFr, cs[k], EvalZ(cs[k + 1..], jFr), total);
      jPower := Mul(jPower, jFr);
      var term := ScalarMulG2(commitments[k], jPower);
      rightSide := AddG2(rightSide, term);
    }
    RedElem(rightSide.log);
    assert cs[|commitments|..] == [];
    ok := leftSide == rightSide;
  }

  lemma RunningPowerStep(acc: Elem, power: Elem, x: Elem, c: Elem, rest: int, total: int)
    requires Red(acc + power * (x * (c + x * rest))) == Red(total)
    ensures var power' := Mul(power, x);
            Red(Add(acc, Mul(c, power')) + power' * (x * rest)) == Red(total)
  {
    hide Red;
    var power' := Mul(power, x);
    var tail := c + x * rest;
    CongRed(power * x);
    CongMul(power', power * x, tail, tail);
    CongAdd(acc, acc, power' * tail, power * x * tail);
    assert power * x * tail == power * (x * tail);
    assert power' * tail == c * power' + power' * (x * rest);
    AbsorbTerm(acc, c, power', power' * (x * rest), total);
  }

  /** bls12381.G2Affine.MultiExp. */
  function MultiExp(points: seq<G2Point>, scalars: seq<Elem>): G2Point
    requires |points| == |scalars|
  {
    if points == [] then ZeroG2
    else AddG2(ScalarMulG2(points[0], scalars[0]), MultiExp(points[1..], scalars[1..]))
  }

  lemma {:induction false} MultiExpEvaluates(points: seq<G2Point>, powers: seq<Elem>, x: Elem, scale: int)
    requires |points| == |powers|
    requires points != [] ==> powers[0] == Red(scale)
    requires forall i :: 0 < i < |powers| ==> powers[i] == Mul(powers[i - 1], x)
    ensures MultiExp(points, powers).log == Red(scale * EvalZ(Logs(points), x))
  {
    hide Red, Mul, Add;
    var cs := Logs(points);
    if points == [] {
      RedElem(0);
    } else {
      var next := scale * x;
      assert Logs(points[1..]) == cs[1..];
      if |points| > 1 {
        RedElem(x);
        MulRed(scale, x);
      }
      MultiExpEvaluates(points[1..], powers[1..], x, next);
      AddScaledTerm(cs[0], scale, x, EvalZ(cs[1..], x));
    }
  }

  lemma AddScaledTerm(c: Elem, scale: int, x: int, rest: int)
    ensures Add(Mul(c, Red(scale)), Red(scale * x * rest)) == Red(scale * (c + x * rest))
  {
    hide Red, Mul, Add;
    RedElem(c);
    MulRed(c, scale);
    AddRed(c * scale, scale * x * rest);
    Factor(c, scale, x, rest);
  }

  lemma Factor(c: int, s: int, x: int, rest: int)
    ensures c * s + s * x * rest == s * (c + x * rest)
  {
    assert s * x * rest == s * (x * rest);
  }

  /** bls.VerifyShare: a table of powers and one multi-exponentiation. A nil commitment is an error. */
  method VerifyShare(a: Address, share: Option<Elem>, commitments: seq<Option<G2Point>>) returns (r: Result<bool>)
    ensures r.Ok? <==> commitments != [] && share.Some? && None !in commitments
    ensures r.Ok? ==>
              (r.value <==> Opens(share.value, seq(|commitments|, i requires 0 <= i < |commitments| =>
                                  if commitments[i].Some? then commitments[i].value else ZeroG2), a))
  {
    if |commitments| == 0 {
      return Err("no commitments provided");
    }
    if share.None? {
      return Err("share is nil");
    }
    var shareCommitment := ScalarMulG2(G2Generator, share.value);
    ScalarMulGenerator(share.value);
    var n := |commitments|;
    var powers := new Elem[n];
    var nodeFr := AddressToFr(a);
    powers[0] := 1;
    for i := 1 to n
      invariant powers[0] == 1
      invariant forall k :: 0 < k < i ==> powers[k] == Mul(powers[k - 1], nodeFr)
    {
      powers[i] := Mul(powers[i - 1], nodeFr);
    }
    var points: seq<G2Point> := [];
    for i := 0 to n
      invariant |points| == i
      invariant forall k :: 0 <= k < i ==> commitments[k] == Some(points[k])
    {
      if commitments[i].None? {
        return Err("nil commitment");
      }
      points := points + [commitments[i].value];
    }
    RedElem(1);
    MultiExpEvaluates(points, powers[..], nodeFr, 1);
    assert points == seq(|commitments|, i requires 0 <= i < |commitments| =>
                         if commitments[i].Some? then commitments[i].value else ZeroG2);
    return Ok(shareCommitment == MultiExp(points, powers[..]));
  }
}
