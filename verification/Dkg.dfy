/** pkg/dkg/dkg.go: distributed key generation. */
module Dkg {
  import opened Results
  import opened PrimeField
  import opened Addresses
  import opened Interpolation
  import opened Combination
  import opened Curve
  import opened Polynomials

  /** The value part of types.KeyShareVersion as the protocols produce it. */
  datatype KeyShare = KeyShare(
    version: int,
    privateShare: Elem,
    commitments: seq<G2Point>,
    masterPublicKey: Option<G2Point>,
    isActive: bool,
    participantIDs: seq<Address>
  )

  /** dkg.CalculateThreshold: two thirds of n, rounded up. */
  function CalculateThreshold(n: nat): (t: nat)
    ensures 3 * t >= 2 * n && 3 * t < 2 * n + 3
    ensures n > 0 ==> 0 < t <= n
  {
    (2 * n + 2) / 3
  }

  /** The part of coefficient k that the combination loop adds: mismatched vectors are skipped. */
  function ContributionZ(all: seq<seq<G2Point>>, t: nat, k: nat): int
    requires k < t
  {
    if all == [] then 0
    else (if |all[0]| == t then all[0][k].log else 0) + ContributionZ(all[1..], t, k)
  }

  class DKG {
    const nodeAddress: Address
    const threshold: nat
    const operators: seq<Address>
    var poly: Poly

    constructor (nodeAddress: Address, threshold: nat, operators: seq<Address>)
      ensures this.nodeAddress == nodeAddress && this.threshold == threshold && this.operators == operators
      ensures poly == []
    {
      this.nodeAddress := nodeAddress;
      this.threshold := threshold;
      this.operators := operators;
      poly := [];
    }

    /** The sampled coefficients are the parameter `random`. */
    method GenerateShares(random: Poly) returns (shares: map<Address, Elem>, commitments: seq<G2Point>)
      requires |random| == threshold
      modifies this
      ensures poly == random
      ensures shares == map a | a in operators :: EvalAt(random, a)
      ensures Logs(commitments) == random
      ensures forall a :: a in operators ==> Opens(shares[a], commitments, a)
    {
      poly := random;
      shares := Polynomials.GenerateShares(poly, operators);
      commitments := CreateCommitments(poly);
    }

    /** Accepts exactly the opening of the commitments at this node's own point. */
    method VerifyShare(share: Option<Elem>, commitments: seq<G2Point>) returns (ok: bool)
      ensures ok <==> share.Some? && commitments != [] && Opens(share.value, commitments, nodeAddress)
    {
      ok := VerifyWithRunningPower(nodeAddress, share, commitments);
    }

    method FinalizeKeyShare(shares: map<Address, Elem>, allCommitments: seq<seq<G2Point>>,
                            participantIDs: seq<Address>) returns (key: KeyShare)
      ensures forall ps :: Enumerates(ps, shares.Keys) ==> key.privateShare == Red(SumZ(ps, Values(shares)))
      ensures |key.commitments| == if allCommitments == [] then 0 else threshold
      ensures forall k :: 0 <= k < |key.commitments| ==>
                key.commitments[k].log == Red(ContributionZ(allCommitments, threshold, k))
      ensures key.version == 0 && key.isActive && key.masterPublicKey == None && key.participantIDs == participantIDs
    {
      var privateShare := SumShares(shares);
      var combined: seq<G2Point> := [];
      if |allCommitments| > 0 {
        combined := CombineCommitments(allCommitments, threshold);
      }
      key := KeyShare(0, privateShare, combined, None, true, participantIDs);
    }
  }

  /** The range loop over the received shares, in an arbitrary map order. */
  method SumShares(shares: map<Address, Elem>) returns (sum: Elem)
    ensures forall ps :: Enumerates(ps, shares.Keys) ==> sum == Red(SumZ(ps, Values(shares)))
  {
    hide Red, Add;
    sum := 0;
    RedElem(0);
    ghost var f := Values(shares);
    ghost var visited: seq<Address> := [];
    var rest := shares.Keys;
    while rest != {}
      invariant rest <= shares.Keys
      invariant Enumerates(visited, shares.Keys - rest)
      invariant sum == Red(SumZ(visited, f))
    {
      var addr :| addr in rest;
      SumAppend(visited, addr, f);
      RedElem(shares[addr]);
      AddRed(SumZ(visited, f), shares[addr]);
      sum := Add(sum, shares[addr]);
      visited, rest := visited + [addr], rest - {addr};
    }
    forall ps | Enumerates(ps, shares.Keys)
      ensures SumZ(visited, f) == SumZ(ps, f)
    {
      SumAnyOrder(visited, ps, shares.Keys, f);
    }
  }

  lemma {:induction false} SumAppend(ps: seq<Address>, a: Address, f: Address -> int)
    ensures SumZ(ps + [a], f) == SumZ(ps, f) + f(a)
  {
    if ps == [] {
      assert (ps + [a])[1..] == [];
    } else {
      SumAppend(ps[1..], a, f);
      assert (ps + [a])[1..] == ps[1..] + [a];
    }
  }

  /** Element-wise sum of the commitment vectors, in place. */
  method CombineCommitments(all: seq<seq<G2Point>>, expectedLen: nat) returns (combined: seq<G2Point>)
    ensures |combined| == expectedLen
    ensures forall k :: 0 <= k < expectedLen ==> combined[k].log == Red(ContributionZ(all, expectedLen, k))
  {
    hide Red, Add;
    var acc := new G2Point[expectedLen](i => ZeroG2);
    RedElem(0);
    for i := 0 to |all|
      invariant forall k :: 0 <= k < expectedLen ==> acc[k].log == Red(ContributionZ(all[..i], expectedLen, k))
    {
      forall k | 0 <= k < expectedLen
        ensures ContributionZ(all[..i + 1], expectedLen, k) ==
                ContributionZ(all[..i], expectedLen, k) + (if |all[i]| == expectedLen then all[i][k].log else 0)
      {
        assert all[..i + 1] == all[..i] + [all[i]];
        ContributionAppend(all[..i], all[i], expectedLen, k);
      }
      if |all[i]| == expectedLen {
        for idx := 0 to expectedLen
          invariant forall k :: 0 <= k < idx ==> acc[k].log == Red(ContributionZ(all[..i + 1], expectedLen, k))
          invariant forall k :: idx <= k < expectedLen ==> acc[k].log == Red(ContributionZ(all[..i], expectedLen, k))
        {
          RedElem(all[i][idx].log);
          AddRed(ContributionZ(all[..i], expectedLen, idx), all[i][idx].log);
          acc[idx] := AddG2(acc[idx], all[i][idx]);
        }
      }
    }
    assert all[..|all|] == all;
    combined := acc[..];
  }

  lemma {:induction false} ContributionAppend(all: seq<seq<G2Point>>, c: seq<G2Point>, t: nat, k: nat)
    requires k < t
    ensures ContributionZ(all + [c], t, k) == ContributionZ(all, t, k) + (if |c| == t then c[k].log else 0)
  {
    if all == [] {
      assert (all + [c])[1..] == [];
    } else {
      ContributionAppend(all[1..], c, t, k);
      assert (all + [c])[1..] == all[1..] + [c];
    }
  }

  // The public side of a DKG --------------------------------------------------------------------

  /** all[i] is the commitment vector of dealer ps[i], to the polynomial that dealer dealt. */
  ghost predicate CommitTo(all: seq<seq<G2Point>>, ps: seq<Address>, dealt: map<Address, Poly>) {
    |all| == |ps| && forall i :: 0 <= i < |ps| ==> ps[i] in dealt && Logs(all[i]) == dealt[ps[i]]
  }

  /** With full-length vectors, the combined commitments are commitments to the sum of the dealt
      polynomials: the published side and the shares describe one polynomial. */
  lemma {:induction false} CombinedCommitmentsAreTheSum(all: seq<seq<G2Point>>, ps: seq<Address>,
                                                        one: Address -> int, dealt: map<Address, Poly>, t: nat, k: nat)
    requires CommitTo(all, ps, dealt) && DealtWith(ps, dealt, t) && k < t
    requires forall a :: one(a) == 1
    ensures Red(ContributionZ(all, t, k)) == Combine(ps, one, dealt, t)[k]
  {
    hide Red;
    if ps == [] {
      RedElem(0);
    } else {
      assert ps[0] in ps;
      CombinedCommitmentsAreTheSum(all[1..], ps[1..], one, dealt, t, k);
      var q := Combine(ps[1..], one, dealt, t);
      CongRed(ContributionZ(all[1..], t, k));
      CongAdd(all[0][k].log, all[0][k].log, q[k], ContributionZ(all[1..], t, k));
    }
  }

  /** A sum of verified shares lies on the sum of the dealt polynomials. */
  lemma SummedShareOnSummedPolynomial(j: Address, ps: seq<Address>, one: Address -> int,
                                      dealt: map<Address, Poly>, t: nat, shares: map<Address, Elem>)
    requires DealtWith(ps, dealt, t)
    requires forall a :: one(a) == 1
    requires forall d :: d in ps ==> d in shares && shares[d] == EvalAt(dealt[d], j)
    ensures Red(SumZ(ps, Values(shares))) == EvalAt(Combine(ps, one, dealt, t), j)
  {
    hide Red;
    var x := AddressToFr(j);
    forall d | d in ps
      ensures Cong(Values(shares)(d), one(d) * EvalZ(dealt[d], x))
    {
      CongRed(EvalZ(dealt[d], x));
    }
    CombineEval(ps, one, dealt, t, x, Values(shares));
  }
}
