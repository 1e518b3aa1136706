/** The operator lists of pkg/node/node.go: who must deal in a reshare, who holds a share after it, and the
    overlap check that keeps the old threshold reachable. */
module OperatorSets {
  import opened Results
  import opened Addresses
  import opened Dkg
  import opened Lists

  function In(keep: set<Address>): Address -> bool { (d: Address) => d in keep }

  /** Previous holders that are still registered, in on-chain order; all operators when nobody is known to hold
      a share. `holders` is the active version's participant list, empty without an active version. */
  function ExpectedDealers(operators: seq<Address>, holders: seq<Address>): (r: seq<Address>) {
    if holders == [] then operators else Filter(operators, In(ToSet(holders)))
  }

  /** The operator is expected to deal by a node that knows these holders. */
  predicate MayDeal(holders: seq<Address>, a: Address) {
    holders == [] || a in holders
  }

  function MayDealBy(holders: seq<Address>): Address -> bool { (a: Address) => MayDeal(holders, a) }

  lemma ExpectedIsFilter(operators: seq<Address>, holders: seq<Address>)
    ensures ExpectedDealers(operators, holders) == Filter(operators, MayDealBy(holders))
  {
    if holders == [] {
      FilterAll(operators, MayDealBy(holders));
    } else {
      FilterSame(operators, In(ToSet(holders)), MayDealBy(holders));
    }
  }

  /** Two nodes whose active versions name different holders expect the same dealers exactly when the holders agree
      on the current operators. */
  lemma SameDealersExpectedIff(operators: seq<Address>, holders1: seq<Address>, holders2: seq<Address>)
    ensures ExpectedDealers(operators, holders1) == ExpectedDealers(operators, holders2) <==>
            forall a :: a in operators ==> (MayDeal(holders1, a) <==> MayDeal(holders2, a))
  {
    ExpectedIsFilter(operators, holders1);
    ExpectedIsFilter(operators, holders2);
    FilterSame(operators, MayDealBy(holders1), MayDealBy(holders2));
  }

  method ExpectedReshareDealers(operators: seq<Address>, holders: seq<Address>) returns (dealers: seq<Address>)
    ensures dealers == ExpectedDealers(operators, holders)
    ensures dealers == Filter(operators, (a: Address) => holders == [] || a in holders)
  {
    ExpectedIsFilter(operators, holders);
    FilterSame(operators, MayDealBy(holders), (a: Address) => holders == [] || a in holders);
    if |holders| == 0 {
      return operators;
    }
    var prevParticipants := {};
    for k := 0 to |holders|
      invariant prevParticipants == ToSet(holders[..k])
    {
      assert holders[..k + 1] == holders[..k] + [holders[k]];
      prevParticipants := prevParticipants + {holders[k]};
    }
    assert holders[..|holders|] == holders;
    dealers := [];
    for k := 0 to |operators|
      invariant dealers == Filter(operators[..k], In(prevParticipants))
    {
      assert operators[..k + 1][..k] == operators[..k];
      if operators[k] in prevParticipants {
        dealers := dealers + [operators[k]];
      }
    }
    assert operators[..|operators|] == operators;
  }

  /** sessionParticipantIDs: the holders after a round are the whole session operator set, not the dealers. */
  function SessionParticipantIDs(operators: seq<Address>): seq<Address> { operators }

  /** The finalize step on the result of ComputeNewKeyShare, whose participant list is the dealer list: version,
      flag and holders are set for the session. */
  function Finalized(key: KeyShare, sessionTimestamp: int, operators: seq<Address>): KeyShare {
    key.(version := sessionTimestamp, isActive := true, participantIDs := SessionParticipantIDs(operators))
  }

  /** No ratchet: whatever dealer list a round's key came with, the next round over the same operators expects
      every one of them to deal. Had the dealer list been kept, that would hold only if every operator dealt. */
  lemma HoldersDoNotShrink(key: KeyShare, sessionTimestamp: int, operators: seq<Address>)
    ensures ExpectedDealers(operators, Finalized(key, sessionTimestamp, operators).participantIDs) == operators
    ensures var f := Finalized(key, sessionTimestamp, operators);
            && f.version == sessionTimestamp && f.isActive && f.privateShare == key.privateShare
            && f.commitments == key.commitments && f.masterPublicKey == key.masterPublicKey
    ensures key.participantIDs != [] ==>
              (ExpectedDealers(operators, key.participantIDs) == operators <==>
               forall a :: a in operators ==> a in key.participantIDs)
  {
    var everyone := (a: Address) => true;
    FilterAll(operators, everyone);
    FilterSame(operators, In(ToSet(operators)), everyone);
    FilterSame(operators, In(ToSet(key.participantIDs)), everyone);
  }

  /** How many of the old participants remain. */
  function Overlap(before: seq<Address>, operators: set<Address>): nat {
    if before == [] then 0
    else Overlap(before[..|before| - 1], operators) + (if before[|before| - 1] in operators then 1 else 0)
  }

  method ValidateReshareOperatorOverlap(oldParticipants: seq<Address>, newOperators: seq<Address>) returns (r: Result<()>)
    ensures r.Ok? <==> oldParticipants == [] ||
                       Overlap(oldParticipants, ToSet(newOperators)) >= CalculateThreshold(|oldParticipants|)
  {
    if |oldParticipants| == 0 {
      return Ok(());
    }
    var addrs := ToSet(newOperators);
    var overlap := 0;
    for k := 0 to |oldParticipants|
      invariant overlap == Overlap(oldParticipants[..k], addrs)
    {
      assert oldParticipants[..k + 1][..k] == oldParticipants[..k];
      if oldParticipants[k] in addrs {
        overlap := overlap + 1;
      }
    }
    assert oldParticipants[..|oldParticipants|] == oldParticipants;
    if overlap < CalculateThreshold(|oldParticipants|) {
      return Err("insufficient operator overlap for reshare");
    }
    return Ok(());
  }

  lemma {:induction false} OverlapIsIntersection(ps: seq<Address>, operators: set<Address>)
    requires Distinct(ps)
    ensures Overlap(ps, operators) == |ToSet(ps) * operators|
  {
    if ps != [] {
      var front, last := ps[..|ps| - 1], ps[|ps| - 1];
      OverlapIsIntersection(front, operators);
      assert ToSet(ps) == ToSet(front) + {last};
      IntersectionStep(ToSet(front), last, operators);
    }
  }

  lemma IntersectionStep<T>(s: set<T>, x: T, keep: set<T>)
    requires x !in s
    ensures |(s + {x}) * keep| == |s * keep| + (if x in keep then 1 else 0)
  {
    assert (s + {x}) * keep == s * keep + (if x in keep then {x} else {});
  }

  /** The overlap check counts exactly the expected dealers: a round that passes it expects at least the old
      threshold of them. */
  lemma OverlapCountsExpectedDealers(holders: seq<Address>, operators: seq<Address>)
    requires Distinct(holders) && Distinct(operators) && holders != []
    ensures |ExpectedDealers(operators, holders)| == Overlap(holders, ToSet(operators))
  {
    OverlapIsIntersection(holders, ToSet(operators));
    FilterDistinct(operators, In(ToSet(holders)));
    var dealers := Filter(operators, In(ToSet(holders)));
    DistinctCardinality(dealers);
    assert ToSet(dealers) == ToSet(holders) * ToSet(operators);
  }
}
