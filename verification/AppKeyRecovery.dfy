/** pkg/crypto/bls.go: recovering an application private key from partial signatures, with retries over
    signature subsets when some signatures are wrong. */
module AppKeyRecovery {
  import opened Results
  import opened PrimeField
  import opened Addresses
  import opened Lists
  import opened Sorting
  import opened Interpolation
  import opened Curve
  import opened Polynomials
  import opened Binomials
  import opened Combinations

  type Signatures = map<Address, G1Point>

  function Self(): Address -> Address { (a: Address) => a }

  /** The keys of a map in address order: there is exactly one such list. */
  ghost predicate SortedKeys(ps: seq<Address>, keys: set<Address>) {
    Enumerates(ps, keys) && Sorted(ps, Self())
  }

  /** The same in byte order: each address comes strictly before the next ones. */
  lemma SortedKeysAscend(ps: seq<Address>, keys: set<Address>)
    ensures SortedKeys(ps, keys) <==> Enumerates(ps, keys) && forall i, j :: 0 <= i < j < |ps| ==> Before(ps[i], ps[j])
  {
    hide Before;
    SortedAscends(ps, Self());
  }

  /** The exponent of each signature; absent ones contribute nothing. */
  function SignatureLogs(sigs: Signatures): Address -> int {
    (a: Address) => if a in sigs then sigs[a].log else 0
  }

  /** Lagrange combination of the listed signatures. */
  function Combined(sigs: Signatures, ps: seq<Address>): G1Point {
    G1Point(Red(AtZeroZ(ps, SignatureLogs(sigs))))
  }

  method SortedParticipants(keys: set<Address>) returns (ps: seq<Address>)
    ensures SortedKeys(ps, keys) && |ps| == |keys|
  {
    var collected: seq<Address> := [];
    var rest := keys;
    while rest != {}
      invariant rest <= keys && |collected| == |keys| - |rest|
      invariant Enumerates(collected, keys - rest)
    {
      var addr :| addr in rest;
      collected, rest := collected + [addr], rest - {addr};
    }
    ps := SortSlice(collected, Self());
    PermutationEnumerates(collected, ps, keys);
  }

  lemma PermutationEnumerates(a: seq<Address>, b: seq<Address>, keys: set<Address>)
    requires Enumerates(a, keys) && multiset(a) == multiset(b)
    ensures Enumerates(b, keys)
  {
    forall x
      ensures x in b <==> x in keys
    {
      assert x in multiset(a) <==> x in multiset(b);
    }
    forall i, j | 0 <= i < j < |b|
      ensures b[i] != b[j]
    {
      if b[i] == b[j] {
        TwoOccurrences(b, i, j);
        DistinctOnce(a, b[i]);
      }
    }
  }

  lemma {:induction false} DistinctOnce(a: seq<Address>, x: Address)
    requires Distinct(a)
    ensures multiset(a)[x] <= 1
  {
    if a != [] {
      DistinctOnce(a[1..], x);
      assert a == [a[0]] + a[1..];
      if x == a[0] {
        assert x !in a[1..];
      }
    }
  }

  lemma SortedKeysUnique(ps: seq<Address>, qs: seq<Address>, keys: set<Address>)
    requires SortedKeys(ps, keys) && SortedKeys(qs, keys)
    ensures ps == qs
  {
    forall x
      ensures multiset(ps)[x] == multiset(qs)[x]
    {
      DistinctOnce(ps, x);
      DistinctOnce(qs, x);
      assert x in multiset(ps) <==> x in ps;
      assert x in multiset(qs) <==> x in qs;
    }
    SortedIsUnique(ps, qs, Self());
  }

  /** RecoverAppPrivateKey: the first `threshold` signers in address order. */
  method RecoverAppPrivateKey(sigs: Signatures, threshold: nat) returns (r: Result<G1Point>)
    ensures |sigs| < threshold ==> r.Err?
    ensures |sigs| >= threshold ==>
              forall ps :: Enumerates(ps, sigs.Keys) && (forall i, j :: 0 <= i < j < |ps| ==> Before(ps[i], ps[j])) ==>
                |ps| >= threshold &&
                var key := Combined(sigs, ps[..threshold]);
                r == if key.IsZero() then Err("recovered app private key is zero") else Ok(key)
    ensures |sigs| >= threshold ==>
              forall ps :: SortedKeys(ps, sigs.Keys) ==>
                |ps| >= threshold &&
                var key := Combined(sigs, ps[..threshold]);
                r == if key.IsZero() then Err("recovered app private key is zero") else Ok(key)
  {
    hide Combined, Sorted, Before;
    forall ps: seq<Address>
      ensures SortedKeys(ps, sigs.Keys) <==>
              Enumerates(ps, sigs.Keys) && forall i, j :: 0 <= i < j < |ps| ==> Before(ps[i], ps[j])
    {
      SortedKeysAscend(ps, sigs.Keys);
    }
    if |sigs| < threshold {
      return Err("insufficient partial signatures");
    }
    var all := SortedParticipants(sigs.Keys);
    forall ps | SortedKeys(ps, sigs.Keys)
      ensures ps == all
    {
      SortedKeysUnique(ps, all, sigs.Keys);
    }
    forall a | a in all[..threshold]
      ensures a in sigs
    {
      assert a in all;
    }
    var result := CombineSignatures(sigs, all[..threshold]);
    if result.IsZero() {
      return Err("recovered app private key is zero");
    }
    return Ok(result);
  }

  /** The loop that scales each signature by its coefficient and adds it to the accumulator. */
  method CombineSignatures(sigs: Signatures, participants: seq<Address>) returns (result: G1Point)
    requires forall a :: a in participants ==> a in sigs
    ensures result == Combined(sigs, participants)
  {
    hide Red, Add, Mul, Lambda;
    result := ZeroG1;
    ghost var f := SignatureLogs(sigs);
    RedElem(0);
    assert participants[..0] == [];
    for k := 0 to |participants|
      invariant result == G1Point(Red(LagrangeZ(participants[..k], participants, f)))
    {
      var addr := participants[k];
      var lambda := ComputeLagrangeCoefficient(addr, participants);
      assert participants[..k + 1] == participants[..k] + [addr];
      LagrangeAppend(participants[..k], addr, participants, f);
      AddMirroredProduct(LagrangeZ(participants[..k], participants, f), lambda, sigs[addr].log);
      result := AddG1(result, ScalarMulG1(sigs[addr], lambda));
    }
    assert participants[..|participants|] == participants;
  }

  // Retrying over subsets ---------------------------------------------------------------------

  /** The signers at the given positions. */
  function Pick(ps: seq<Address>, c: seq<nat>): (r: seq<Address>)
    requires forall i :: 0 <= i < |c| ==> c[i] < |ps|
    ensures |r| == |c|
  {
    seq(|c|, i requires 0 <= i < |c| => ps[c[i]])
  }

  /** The attempt on a subset succeeds: its combination is a nonzero key that the caller accepts. */
  predicate Recovers(sigs: Signatures, subset: seq<Address>, validate: G1Point -> bool) {
    var key := Combined(sigs, subset);
    !key.IsZero() && validate(key)
  }

  datatype Recovery =
    | Found(key: G1Point)
    | Insufficient
    | Exhausted(attempts: nat)
    | CapReached(attempts: nat, totalCombinations: int)

  ghost predicate Misses(sigs: Signatures, ps: seq<Address>, l: seq<seq<nat>>, k: nat, validate: G1Point -> bool)
    requires k < |l|
  {
    && (forall i :: 0 <= i < |l[k]| ==> l[k][i] < |ps|)
    && !Recovers(sigs, Pick(ps, l[k]), validate)
  }

  ghost predicate MissesBefore(sigs: Signatures, ps: seq<Address>, l: seq<seq<nat>>, k: nat, validate: G1Point -> bool)
    requires k <= |l|
  {
    forall j :: 0 <= j < k ==> Misses(sigs, ps, l, j, validate)
  }

  ghost predicate Hits(sigs: Signatures, ps: seq<Address>, l: seq<seq<nat>>, k: nat, validate: G1Point -> bool,
                       key: G1Point)
    requires k < |l|
  {
    && (forall i :: 0 <= i < |l[k]| ==> l[k][i] < |ps|)
    && Recovers(sigs, Pick(ps, l[k]), validate) && key == Combined(sigs, Pick(ps, l[k]))
  }

  /** The outcome in terms of the lexicographic list of subsets: the first one that recovers within the
      attempt cap, else "exhausted" after all of them, else "cap reached" after exactly that many. */
  ghost predicate RetryOutcome(r: Recovery, ps: seq<Address>, sigs: Signatures, threshold: nat,
                               validate: G1Point -> bool, maxAttempts: int)
    requires |ps| >= threshold
  {
    var l := Combos(0, |ps|, threshold);
    var limit := if maxAttempts < 1 then 1 else maxAttempts;
    match r
    case Insufficient => false
    case Found(key) =>
      exists k :: 0 <= k < |l| && k < limit && Hits(sigs, ps, l, k, validate, key) && MissesBefore(sigs, ps, l, k, validate)
    case Exhausted(attempts) =>
      attempts == |l| && attempts < limit && MissesBefore(sigs, ps, l, attempts, validate)
    case CapReached(attempts, total) =>
      && attempts == limit <= |l| && total == (if |l| < CAP then |l| else CAP)
      && MissesBefore(sigs, ps, l, attempts, validate)
  }

  method TrySubset(sigs: Signatures, subset: seq<Address>, validate: G1Point -> bool) returns (r: Option<G1Point>)
    requires Distinct(subset) && forall a :: a in subset ==> a in sigs
    ensures r.Some? <==> Recovers(sigs, subset, validate)
    ensures r.Some? ==> r.value == Combined(sigs, subset)
  {
    var subsetSigs: Signatures := map a | a in subset :: sigs[a];
    var recovered := RecoverAppPrivateKey(subsetSigs, |subset|);
    ghost var sorted := InsertionSorted(subset, Self());
    assert Enumerates(subset, subsetSigs.Keys);
    PermutationEnumerates(subset, sorted, subsetSigs.Keys);
    SameCardinality(sorted, subsetSigs.Keys);
    assert SortedKeys(sorted, subsetSigs.Keys) && sorted[..|subset|] == sorted;
    SubsetCombination(sigs, subsetSigs, subset, sorted);
    if recovered.Err? {
      return None;
    }
    if validate(recovered.value) {
      return Some(recovered.value);
    }
    return None;
  }

  lemma {:induction false} SameCardinality(ps: seq<Address>, keys: set<Address>)
    requires Enumerates(ps, keys)
    ensures |keys| == |ps|
  {
    if ps == [] {
      assert keys == {};
    } else {
      assert Without(ps, 0) == ps[1..];
      assert ps[0] in ps;
      WithoutEnumerates(ps, 0, keys);
      SameCardinality(ps[1..], keys - {ps[0]});
    }
  }

  lemma SubsetCombination(sigs: Signatures, subsetSigs: Signatures, subset: seq<Address>, sorted: seq<Address>)
    requires Enumerates(subset, subsetSigs.Keys) && Enumerates(sorted, subsetSigs.Keys)
    requires forall a :: a in subset ==> a in sigs && subsetSigs[a] == sigs[a]
    ensures Combined(subsetSigs, sorted) == Combined(sigs, subset)
  {
    hide Red, Lambda;
    var f, g := SignatureLogs(subsetSigs), SignatureLogs(sigs);
    LagrangeAnyOrder(sorted, sorted, subset, subsetSigs.Keys, f);
    var h := (a: Address) => Lambda(a, subset) * f(a);
    LagrangeIsSum(subset, subset, f, h);
    LagrangeIsSum(subset, subset, g, h);
  }

  lemma PickDistinct(ps: seq<Address>, c: seq<nat>)
    requires Distinct(ps) && IsCombo(c, 0, |ps|)
    ensures Distinct(Pick(ps, c)) && forall a :: a in Pick(ps, c) ==> a in ps
  {
  }

  /** recoverAppPrivateKeyWithRetry. The number of supplied signatures is bounded only so that the
      combination count for the error message fits a machine integer. */
  method RecoverAppPrivateKeyWithRetry(sigs: Signatures, threshold: nat, validate: G1Point -> bool, maxAttempts: int)
    returns (r: Recovery, ps: seq<Address>)
    requires |sigs| <= INT64_LIMIT / CAP
    ensures SortedKeys(ps, sigs.Keys) && |ps| == |sigs| && forall i, j :: 0 <= i < j < |ps| ==> Before(ps[i], ps[j])
    ensures r == Insufficient <==> |sigs| < threshold
    ensures |sigs| >= threshold ==> RetryOutcome(r, ps, sigs, threshold, validate, maxAttempts)
  {
    hide *;
    ps := SortedParticipants(sigs.Keys);
    SortedKeysAscend(ps, sigs.Keys);
    if |sigs| < threshold {
      return Insufficient, ps;
    }
    var n := |ps|;
    var totalCombinations := Binomial(n, threshold);
    ghost var l := Combos(0, n, threshold);
    ComboCount(0, n, threshold);
    ListFollowsSuccessors(0, n, threshold);
    var attempts: nat := 0;
    var indices := new nat[threshold](i => i);
    StartOfChain(l, n, threshold, indices[..]);
    NothingMissedYet(sigs, ps, l, validate);
    while true
      invariant attempts < |l| && indices[..] == l[attempts]
      invariant attempts == 0 || attempts < maxAttempts
      invariant MissesBefore(sigs, ps, l, attempts, validate)
      decreases |l| - attempts
    {
      EveryListedIsCombo(0, n, threshold, attempts);
      ParticipantsHold(ps, sigs, l[attempts]);
      var subset := Pick(ps, indices[..]);
      var recovered := TrySubset(sigs, subset, validate);
      Record(sigs, ps, l, attempts, validate, recovered);
      if recovered.Some? {
        FoundOutcome(Found(recovered.value), ps, sigs, threshold, validate, maxAttempts, attempts);
        return Found(recovered.value), ps;
      }
      attempts := attempts + 1;
      if attempts >= maxAttempts {
        CapOutcome(CapReached(attempts, totalCombinations), ps, sigs, threshold, validate, maxAttempts);
        return CapReached(attempts, totalCombinations), ps;
      }
      ChainStep(l, n, threshold, attempts - 1);
      var exhausted := Advance(indices, n);
      if exhausted {
        ExhaustedOutcome(Exhausted(attempts), ps, sigs, threshold, validate, maxAttempts);
        return Exhausted(attempts), ps;
      }
    }
  }

  lemma StartOfChain(l: seq<seq<nat>>, n: nat, t: nat, c: seq<nat>)
    requires SuccessorChain(l, 0, n, t) && |c| == t && forall i :: 0 <= i < t ==> c[i] == i
    ensures |l| > 0 && l[0] == c
  {
    assert c == Run(0, t);
  }

  lemma ChainStep(l: seq<seq<nat>>, n: nat, t: nat, k: nat)
    requires SuccessorChain(l, 0, n, t) && k < |l|
    ensures Next(l[k], n) == if k == |l| - 1 then None else Some(l[k + 1])
  {
  }

  lemma NothingMissedYet(sigs: Signatures, ps: seq<Address>, l: seq<seq<nat>>, validate: G1Point -> bool)
    ensures MissesBefore(sigs, ps, l, 0, validate)
  {
  }

  lemma Record(sigs: Signatures, ps: seq<Address>, l: seq<seq<nat>>, k: nat, validate: G1Point -> bool,
               recovered: Option<G1Point>)
    requires k < |l| && MissesBefore(sigs, ps, l, k, validate)
    requires forall i :: 0 <= i < |l[k]| ==> l[k][i] < |ps|
    requires recovered.Some? <==> Recovers(sigs, Pick(ps, l[k]), validate)
    requires recovered.Some? ==> recovered.value == Combined(sigs, Pick(ps, l[k]))
    ensures recovered.Some? ==> Hits(sigs, ps, l, k, validate, recovered.value)
    ensures recovered.None? ==> MissesBefore(sigs, ps, l, k + 1, validate)
  {
  }

  lemma FoundOutcome(r: Recovery, ps: seq<Address>, sigs: Signatures, threshold: nat, validate: G1Point -> bool,
                     maxAttempts: int, k: nat)
    requires r.Found? && |ps| >= threshold && k < |Combos(0, |ps|, threshold)| && (k == 0 || k < maxAttempts)
    requires Hits(sigs, ps, Combos(0, |ps|, threshold), k, validate, r.key)
    requires MissesBefore(sigs, ps, Combos(0, |ps|, threshold), k, validate)
    ensures RetryOutcome(r, ps, sigs, threshold, validate, maxAttempts)
  {
    hide Hits, MissesBefore, Combos;
  }

  lemma CapOutcome(r: Recovery, ps: seq<Address>, sigs: Signatures, threshold: nat, validate: G1Point -> bool,
                   maxAttempts: int)
    requires r.CapReached? && |ps| >= threshold && 0 < r.attempts <= |Combos(0, |ps|, threshold)|
    requires r.attempts == 1 || r.attempts - 1 < maxAttempts
    requires r.attempts >= maxAttempts
    requires var c := |Combos(0, |ps|, threshold)|; r.totalCombinations == if c < CAP then c else CAP
    requires MissesBefore(sigs, ps, Combos(0, |ps|, threshold), r.attempts, validate)
    ensures RetryOutcome(r, ps, sigs, threshold, validate, maxAttempts)
  {
    hide Hits, MissesBefore, Combos;
  }

  lemma ExhaustedOutcome(r: Recovery, ps: seq<Address>, sigs: Signatures, threshold: nat, validate: G1Point -> bool,
                         maxAttempts: int)
    requires r.Exhausted? && |ps| >= threshold && r.attempts == |Combos(0, |ps|, threshold)| < maxAttempts
    requires MissesBefore(sigs, ps, Combos(0, |ps|, threshold), r.attempts, validate)
    ensures RetryOutcome(r, ps, sigs, threshold, validate, maxAttempts)
  {
    hide Hits, MissesBefore, Combos;
  }

  lemma ParticipantsHold(ps: seq<Address>, sigs: Signatures, c: seq<nat>)
    requires SortedKeys(ps, sigs.Keys) && IsCombo(c, 0, |ps|)
    ensures forall i :: 0 <= i < |c| ==> c[i] < |ps|
    ensures Distinct(Pick(ps, c)) && forall a :: a in Pick(ps, c) ==> a in sigs
  {
    PickDistinct(ps, c);
  }
}
