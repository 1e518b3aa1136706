/** ComputeMasterPublicKey of pkg/crypto/bls.go: a client adds up the first commitment of every operator that
    answers. The key belongs to a list of dealers; the operators that answer may be others, so the sum is the key
    only as far as the two lists, or what their difference publishes, agree. */
module MasterPublicKeys {
  import opened Results
  import opened PrimeField
  import opened Addresses
  import opened Lists
  import opened Interpolation
  import opened Curve
  import opened Dkg
  import opened Resharing

  /** The sum of the first entries; empty vectors are skipped. */
  function FirstTermsZ(all: seq<seq<G2Point>>): int {
    if all == [] then 0
    else
      var last := all[|all| - 1];
      FirstTermsZ(all[..|all| - 1]) + (if last == [] then 0 else last[0].log)
  }

  method ComputeMasterPublicKey(allCommitments: seq<seq<G2Point>>) returns (r: Result<G2Point>)
    ensures var key := Red(FirstTermsZ(allCommitments));
            if key == 0 then r.Err? else r == Ok(G2Point(key))
  {
    hide Red, Add;
    var masterPK := ZeroG2;
    RedElem(0);
    for i := 0 to |allCommitments|
      invariant masterPK == G2Point(Red(FirstTermsZ(allCommitments[..i])))
    {
      var commitments := allCommitments[i];
      assert allCommitments[..i + 1][..i] == allCommitments[..i];
      if |commitments| > 0 {
        RedElem(commitments[0].log);
        AddRed(FirstTermsZ(allCommitments[..i]), commitments[0].log);
        masterPK := AddG2(masterPK, commitments[0]);
      }
    }
    assert allCommitments[..|allCommitments|] == allCommitments;
    if masterPK.IsZero() {
      return Err("computed master public key is zero");
    }
    return Ok(masterPK);
  }

  lemma {:induction false} FirstTermsAreASum(all: seq<seq<G2Point>>, ps: seq<Address>, f: Address -> int)
    requires |all| == |ps|
    requires forall i :: 0 <= i < |ps| ==> f(ps[i]) == if all[i] == [] then 0 else all[i][0].log
    ensures FirstTermsZ(all) == SumZ(ps, f)
  {
    if ps != [] {
      var n := |ps| - 1;
      FirstTermsAreASum(all[..n], ps[..n], f);
      SumAppend(ps[..n], ps[n], f);
      assert ps == ps[..n] + [ps[n]];
    }
  }

  // Sums over two lists -------------------------------------------------------------------------

  function NotIn(ds: seq<Address>): Address -> bool { (a: Address) => a !in ds }

  function AlsoIn(ds: seq<Address>): Address -> bool { (a: Address) => a in ds }

  /** The operators of hs that are not in ds. */
  function Beyond(hs: seq<Address>, ds: seq<Address>): (r: seq<Address>)
    ensures forall a :: a in r <==> a in hs && a !in ds
  {
    Filter(hs, NotIn(ds))
  }

  lemma {:induction false} SumSplits(hs: seq<Address>, ds: seq<Address>, f: Address -> int)
    ensures SumZ(hs, f) == SumZ(Filter(hs, AlsoIn(ds)), f) + SumZ(Beyond(hs, ds), f)
  {
    if hs != [] {
      var front, last := hs[..|hs| - 1], hs[|hs| - 1];
      SumSplits(front, ds, f);
      SumAppend(front, last, f);
      assert hs == front + [last];
      SumAppend(if last in ds then Filter(front, AlsoIn(ds)) else Beyond(front, ds), last, f);
    }
  }

  /** Two sums differ by what is in one list only. */
  lemma SumsOverTwoLists(hs: seq<Address>, ds: seq<Address>, f: Address -> int)
    requires Distinct(hs) && Distinct(ds)
    ensures SumZ(hs, f) + SumZ(Beyond(ds, hs), f) == SumZ(ds, f) + SumZ(Beyond(hs, ds), f)
  {
    hide Distinct;
    SumSplits(hs, ds, f);
    SumSplits(ds, hs, f);
    var p, q := Filter(hs, AlsoIn(ds)), Filter(ds, AlsoIn(hs));
    FilterDistinct(hs, AlsoIn(ds));
    FilterDistinct(ds, AlsoIn(hs));
    assert forall a :: a in q <==> a in ToSet(p);
    SumAnyOrder(p, q, ToSet(p), f);
  }

  lemma NothingBeyond(hs: seq<Address>, ds: seq<Address>, f: Address -> int)
    requires forall a :: a in hs ==> a in ds
    ensures SumZ(Beyond(hs, ds), f) == 0
  {
    if Beyond(hs, ds) != [] {
      HeadOccurs(Beyond(hs, ds));
    }
  }

  /** The only element of hs beyond ds. */
  lemma OneBeyond(hs: seq<Address>, ds: seq<Address>, j: Address, f: Address -> int)
    requires Distinct(hs) && j in hs && j !in ds && forall a :: a in hs && a != j ==> a in ds
    ensures SumZ(Beyond(hs, ds), f) == f(j)
  {
    var r := Beyond(hs, ds);
    FilterDistinct(hs, NotIn(ds));
    assert ToSet(r) == {j};
    DistinctCardinality(r);
    assert r[0] in r;
    assert r[1..] == [];
  }

  lemma DifferenceDecides(sum: int, key: int, extra: int, missing: int)
    requires Cong(sum + missing, key + extra)
    ensures Cong(sum, key) <==> Cong(extra, missing)
  {
    hide Red;
    if Cong(sum, key) {
      CongSub(sum + missing, key + extra, sum, key);
    }
    if Cong(extra, missing) {
      CongSub(sum + missing, key + extra, missing, extra);
    }
  }

  // After a reshare -----------------------------------------------------------------------------

  /** What operator `a` publishes after a round of `dealers` (see Reshare.ComputeNewKeyShare), whether or not it is
      one of them: every finalizing operator publishes, joiners and laggards too. */
  function Published(a: Address, dealers: seq<Address>, refreshed: Poly): seq<G2Point> {
    [G2Point(Mul(EvalAt(refreshed, a), Lambda(a, dealers)))]
  }

  function PublishedLog(dealers: seq<Address>, refreshed: Poly): Address -> int {
    (a: Address) => Mul(EvalAt(refreshed, a), Lambda(a, dealers))
  }

  /** The answers of the operators hs. */
  ghost predicate AnswersAfterReshare(all: seq<seq<G2Point>>, hs: seq<Address>, dealers: seq<Address>, refreshed: Poly) {
    |all| == |hs| && forall i :: 0 <= i < |hs| ==> all[i] == Published(hs[i], dealers, refreshed)
  }

  lemma DealersAddUp(dealers: seq<Address>, refreshed: Poly)
    requires DistinctPoints(dealers) && 0 < |refreshed| <= |dealers|
    ensures Red(SumZ(dealers, PublishedLog(dealers, refreshed))) == refreshed[0]
  {
    hide Red, Mul, Lambda, EvalAt;
    var published := map d | d in dealers :: G2Point(Mul(EvalAt(refreshed, d), Lambda(d, dealers)));
    PublishedCommitmentsAddUp(dealers, refreshed, published, PublishedLog(dealers, refreshed));
  }

  lemma AnswersAreASum(all: seq<seq<G2Point>>, hs: seq<Address>, dealers: seq<Address>, refreshed: Poly)
    requires AnswersAfterReshare(all, hs, dealers, refreshed)
    ensures FirstTermsZ(all) == SumZ(hs, PublishedLog(dealers, refreshed))
  {
    hide Mul, Lambda, EvalAt;
    FirstTermsAreASum(all, hs, PublishedLog(dealers, refreshed));
  }

  /** AFTER A RESHARE. What a client adds up over the answering operators is the group public key exactly when the
      operators that answered without being dealers publish the same sum as the dealers that did not answer. */
  lemma AggregateAfterReshareIff(all: seq<seq<G2Point>>, hs: seq<Address>, dealers: seq<Address>, refreshed: Poly)
    requires DistinctPoints(dealers) && Distinct(hs) && 0 < |refreshed| <= |dealers|
    requires AnswersAfterReshare(all, hs, dealers, refreshed)
    ensures var f := PublishedLog(dealers, refreshed);
            Red(FirstTermsZ(all)) == refreshed[0] <==>
            Cong(SumZ(Beyond(hs, dealers), f), SumZ(Beyond(dealers, hs), f))
  {
    hide Red, PublishedLog, AnswersAfterReshare, Beyond;
    var f := PublishedLog(dealers, refreshed);
    AnswersAreASum(all, hs, dealers, refreshed);
    DealersAddUp(dealers, refreshed);
    assert Distinct(dealers);
    SumsOverTwoLists(hs, dealers, f);
    DifferenceDecides(SumZ(hs, f), SumZ(dealers, f), SumZ(Beyond(hs, dealers), f), SumZ(Beyond(dealers, hs), f));
  }

  /** If exactly the dealers answer, in any order, the sum is the group public key. */
  lemma AggregateAfterReshare(all: seq<seq<G2Point>>, hs: seq<Address>, dealers: seq<Address>, refreshed: Poly)
    requires DistinctPoints(dealers) && Distinct(hs) && 0 < |refreshed| <= |dealers|
    requires AnswersAfterReshare(all, hs, dealers, refreshed) && ToSet(hs) == ToSet(dealers)
    ensures Red(FirstTermsZ(all)) == refreshed[0]
  {
    hide Red, PublishedLog, AnswersAfterReshare, Beyond, DistinctPoints;
    var f := PublishedLog(dealers, refreshed);
    AggregateAfterReshareIff(all, hs, dealers, refreshed);
    assert forall a :: a in hs <==> a in ToSet(dealers);
    NothingBeyond(hs, dealers, f);
    NothingBeyond(dealers, hs, f);
  }

  /** A published term is zero exactly when the operator's refreshed share is. */
  lemma TermIsZeroIff(a: Address, dealers: seq<Address>, refreshed: Poly)
    requires Apart(a, dealers) && forall b :: b in dealers && b != a ==> AddressToFr(b) != 0
    ensures Cong(PublishedLog(dealers, refreshed)(a), 0) <==> EvalAt(refreshed, a) == 0
  {
    hide Red, Lambda, EvalAt;
    var y: int, l: int := EvalAt(refreshed, a), Lambda(a, dealers);
    LambdaNonzero(a, dealers);
    CongRed(y * l);
    CongElems(EvalAt(refreshed, a), 0);
    if y != 0 {
      ProductNonzero(y, l);
    } else {
      assert y * l == 0;
    }
  }

  /** One operator that did not deal answers besides the dealers: a joiner, say. The sum is the key only if its
      refreshed share happens to be zero. */
  lemma ExtraOperatorIff(all: seq<seq<G2Point>>, hs: seq<Address>, dealers: seq<Address>, refreshed: Poly, j: Address)
    requires DistinctPoints(dealers) && NonzeroPoints(dealers) && Distinct(hs) && 0 < |refreshed| <= |dealers|
    requires AnswersAfterReshare(all, hs, dealers, refreshed)
    requires j !in dealers && Apart(j, dealers) && ToSet(hs) == ToSet(dealers) + {j}
    ensures Red(FirstTermsZ(all)) == refreshed[0] <==> EvalAt(refreshed, j) == 0
  {
    hide Red, PublishedLog, AnswersAfterReshare, Beyond, DistinctPoints, Lambda, EvalAt, Apart;
    var f := PublishedLog(dealers, refreshed);
    AggregateAfterReshareIff(all, hs, dealers, refreshed);
    assert forall a :: a in hs <==> a in ToSet(dealers) + {j};
    OneBeyond(hs, dealers, j, f);
    NothingBeyond(dealers, hs, f);
    TermIsZeroIff(j, dealers, refreshed);
  }

  /** One dealer does not answer. */
  lemma MissingDealerIff(all: seq<seq<G2Point>>, hs: seq<Address>, dealers: seq<Address>, refreshed: Poly, m: nat)
    requires DistinctPoints(dealers) && NonzeroPoints(dealers) && Distinct(hs) && 0 < |refreshed| <= |dealers|
    requires AnswersAfterReshare(all, hs, dealers, refreshed)
    requires m < |dealers| && ToSet(hs) == ToSet(dealers) - {dealers[m]}
    ensures Red(FirstTermsZ(all)) == refreshed[0] <==> EvalAt(refreshed, dealers[m]) == 0
  {
    hide Red, PublishedLog, AnswersAfterReshare, Beyond, Lambda, EvalAt, Apart;
    var f := PublishedLog(dealers, refreshed);
    AggregateAfterReshareIff(all, hs, dealers, refreshed);
    assert forall a :: a in hs <==> a in ToSet(dealers) - {dealers[m]};
    OneBeyond(dealers, hs, dealers[m], f);
    NothingBeyond(hs, dealers, f);
    DistinctIsApart(dealers, m);
    TermIsZeroIff(dealers[m], dealers, refreshed);
  }

  /** An instance: everybody dealt constants, one operator joined, all answer. The sum is never the key. */
  lemma JoinerBreaksTheAggregate(all: seq<seq<G2Point>>, dealers: seq<Address>, j: Address, secret: Elem)
    requires DistinctPoints(dealers) && NonzeroPoints(dealers) && dealers != [] && secret != 0
    requires j !in dealers && Apart(j, dealers) && AnswersAfterReshare(all, dealers + [j], dealers, [secret])
    ensures Red(FirstTermsZ(all)) != secret
  {
    hide Red, PublishedLog, AnswersAfterReshare, Beyond, Lambda;
    var hs := dealers + [j];
    assert Distinct(hs);
    assert ToSet(hs) == ToSet(dealers) + {j};
    ExtraOperatorIff(all, hs, dealers, [secret], j);
    assert [secret][1..] == [];
    assert EvalZ([secret], AddressToFr(j)) == secret;
    RedElem(secret);
  }

  // After a key generation ----------------------------------------------------------------------

  /** The constant terms of the vectors that FinalizeKeyShare skips for their length. */
  function SkippedZ(all: seq<seq<G2Point>>, t: nat): int {
    if all == [] then 0
    else
      var last := all[|all| - 1];
      SkippedZ(all[..|all| - 1], t) + (if last == [] || |last| == t then 0 else last[0].log)
  }

  lemma {:induction false} FirstTermsSplit(all: seq<seq<G2Point>>, t: nat)
    requires t > 0
    ensures FirstTermsZ(all) == ContributionZ(all, t, 0) + SkippedZ(all, t)
  {
    if all != [] {
      var front, last := all[..|all| - 1], all[|all| - 1];
      FirstTermsSplit(front, t);
      ContributionAppend(front, last, t, 0);
      assert all == front + [last];
    }
  }

  /** Over one list of vectors, the sum of the first entries is entry 0 of the combined vector exactly when the
      constant terms of the vectors skipped for their length cancel; in particular when none was skipped. */
  lemma FirstTermsFitIff(all: seq<seq<G2Point>>, t: nat)
    requires t > 0
    ensures Red(FirstTermsZ(all)) == Red(ContributionZ(all, t, 0)) <==> Cong(SkippedZ(all, t), 0)
    ensures (forall c :: c in all ==> |c| == t) ==> Red(FirstTermsZ(all)) == Red(ContributionZ(all, t, 0))
  {
    hide Red;
    FirstTermsSplit(all, t);
    var sum, kept, skipped := FirstTermsZ(all), ContributionZ(all, t, 0), SkippedZ(all, t);
    if Cong(sum, kept) {
      CongSub(sum, kept, kept, kept);
    }
    if Cong(skipped, 0) {
      CongAdd(kept, kept, skipped, 0);
    }
    if forall c :: c in all ==> |c| == t {
      NothingSkipped(all, t);
    }
  }

  lemma {:induction false} NothingSkipped(all: seq<seq<G2Point>>, t: nat)
    requires forall c :: c in all ==> |c| == t
    ensures SkippedZ(all, t) == 0
  {
    if all != [] {
      assert all[|all| - 1] in all;
      NothingSkipped(all[..|all| - 1], t);
    }
  }

  function InOrder(ds: seq<Address>, commitments: map<Address, seq<G2Point>>): (all: seq<seq<G2Point>>)
    requires forall d :: d in ds ==> d in commitments
    ensures |all| == |ds| && forall i :: 0 <= i < |ds| ==> all[i] == commitments[ds[i]]
  {
    seq(|ds|, i requires 0 <= i < |ds| => commitments[ds[i]])
  }

  /** AFTER A KEY GENERATION. Every operator publishes the vector it dealt, whether or not a node had it on its list
      of trusted dealers; the node caches entry 0 of the vector combined over its list. The client's sum over the
      answering operators is that key exactly when the vectors skipped for their length together with the extra
      answers add up to what the silent dealers dealt. */
  lemma AggregateAfterDkgIff(hs: seq<Address>, dealers: seq<Address>, commitments: map<Address, seq<G2Point>>, t: nat)
    requires t > 0 && Distinct(hs) && Distinct(dealers)
    requires forall a :: a in hs || a in dealers ==> a in commitments
    ensures var f := ConstantTerms(commitments);
            Red(FirstTermsZ(InOrder(hs, commitments))) == Red(ContributionZ(InOrder(dealers, commitments), t, 0)) <==>
            Cong(SkippedZ(InOrder(dealers, commitments), t) + SumZ(Beyond(hs, dealers), f), SumZ(Beyond(dealers, hs), f))
  {
    hide Red, Beyond, Distinct;
    var f := ConstantTerms(commitments);
    var h, d := InOrder(hs, commitments), InOrder(dealers, commitments);
    TermsInOrder(hs, commitments);
    TermsInOrder(dealers, commitments);
    FirstTermsSplit(d, t);
    SumsOverTwoLists(hs, dealers, f);
    DifferenceDecides(FirstTermsZ(h), ContributionZ(d, t, 0), SkippedZ(d, t) + SumZ(Beyond(hs, dealers), f),
                      SumZ(Beyond(dealers, hs), f));
  }

  lemma TermsInOrder(ps: seq<Address>, commitments: map<Address, seq<G2Point>>)
    requires forall a :: a in ps ==> a in commitments
    ensures FirstTermsZ(InOrder(ps, commitments)) == SumZ(ps, ConstantTerms(commitments))
  {
    FirstTermsAreASum(InOrder(ps, commitments), ps, ConstantTerms(commitments));
  }

  /** If exactly the trusted dealers answer and all vectors have threshold length, the sum is the cached key. */
  lemma AggregateAfterDkg(hs: seq<Address>, dealers: seq<Address>, commitments: map<Address, seq<G2Point>>, t: nat)
    requires t > 0 && Distinct(hs) && Distinct(dealers) && ToSet(hs) == ToSet(dealers)
    requires forall a :: a in dealers ==> a in commitments && |commitments[a]| == t
    ensures forall a :: a in hs ==> a in commitments
    ensures Red(FirstTermsZ(InOrder(hs, commitments))) == Red(ContributionZ(InOrder(dealers, commitments), t, 0))
  {
    hide Red, Beyond, Distinct;
    assert forall a :: a in hs <==> a in ToSet(dealers);
    AggregateAfterDkgIff(hs, dealers, commitments, t);
    NothingBeyond(hs, dealers, ConstantTerms(commitments));
    NothingBeyond(dealers, hs, ConstantTerms(commitments));
    NothingSkipped(InOrder(dealers, commitments), t);
  }

  /** One operator that a node did not trust answers too: the sum is that node's key only if it dealt zero. */
  lemma UntrustedOperatorIff(hs: seq<Address>, dealers: seq<Address>, commitments: map<Address, seq<G2Point>>, t: nat,
                             j: Address)
    requires t > 0 && Distinct(hs) && Distinct(dealers) && j !in dealers && ToSet(hs) == ToSet(dealers) + {j}
    requires j in commitments && commitments[j] != []
    requires forall a :: a in dealers ==> a in commitments && |commitments[a]| == t
    ensures forall a :: a in hs ==> a in commitments
    ensures Red(FirstTermsZ(InOrder(hs, commitments))) == Red(ContributionZ(InOrder(dealers, commitments), t, 0)) <==>
            commitments[j][0].IsZero()
  {
    hide Red, Beyond, Distinct;
    assert forall a :: a in hs <==> a in ToSet(dealers) + {j};
    AggregateAfterDkgIff(hs, dealers, commitments, t);
    OneBeyond(hs, dealers, j, ConstantTerms(commitments));
    NothingBeyond(dealers, hs, ConstantTerms(commitments));
    NothingSkipped(InOrder(dealers, commitments), t);
    CongElems(commitments[j][0].log, 0);
  }
}
