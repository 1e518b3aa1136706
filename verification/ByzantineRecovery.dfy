/** What retry recovery guarantees when the pairing check validates its candidates
    (pkg/crypto/bls.go, RecoverAppPrivateKeyWithRetry with VerifyAppPrivateKey). */
module ByzantineRecovery {
  import opened PrimeField
  import opened Addresses
  import opened Lists
  import opened Interpolation
  import opened Curve
  import opened Binomials
  import opened Combinations
  import opened Dkg
  import opened Cluster
  import opened AppKeyRecovery

  /** Hash to G1, left open. */
  const HashToG1: string -> G1Point

  /** VerifyAppPrivateKey: e(key, G2) * e(-H(appID), mpk) == 1. */
  predicate VerifyAppPrivateKey(appID: string, key: G1Point, mpk: G2Point) {
    MulGT(Pair(key, G2Generator), Pair(NegG1(HashToG1(appID)), mpk)).IsOne()
  }

  function Check(appID: string, mpk: G2Point): G1Point -> bool {
    (key: G1Point) => VerifyAppPrivateKey(appID, key, mpk)
  }

  /** The application private key for a master secret. */
  function AppKey(appID: string, secret: Elem): G1Point { ScalarMulG1(HashToG1(appID), secret) }

  /** The product of pairings accepts exactly secret * H(appID). */
  lemma PairingAcceptsOnlyTheAppKey(appID: string, key: G1Point, secret: Elem)
    ensures VerifyAppPrivateKey(appID, key, ScalarMulG2(G2Generator, secret)) <==> key == AppKey(appID, secret)
  {
    hide Red;
    var h: int := HashToG1(appID).log;
    ScalarMulGenerator(secret);
    MulOne(key.log);
    CongRed(0 - h);
    CongMul(Red(0 - h), 0 - h, secret, secret);
    RedElem(key.log);
    AddRed(key.log, Red(0 - h) * secret);
    CongAdd(key.log, key.log, Red(0 - h) * secret, (0 - h) * secret);
    MovesAcross(key.log, h, secret);
    RedElem(0);
  }

  lemma MovesAcross(k: int, h: int, s: int)
    ensures Cong(k + (0 - h) * s, 0) <==> Cong(k, h * s)
  {
    hide Red;
    assert (0 - h) * s == -(h * s);
    if Cong(k + (0 - h) * s, 0) {
      CongAdd(k + (0 - h) * s, 0, h * s, h * s);
    }
    if Cong(k, h * s) {
      CongAdd(k, h * s, (0 - h) * s, (0 - h) * s);
    }
  }

  /** SOUNDNESS. Whatever the signatures are, a key that retry recovery returns is the application key. */
  lemma RecoveredKeyIsTheAppKey(r: Recovery, ps: seq<Address>, sigs: Signatures, threshold: nat, appID: string,
                                secret: Elem, maxAttempts: int)
    requires |ps| >= threshold && r.Found?
    requires RetryOutcome(r, ps, sigs, threshold, Check(appID, ScalarMulG2(G2Generator, secret)), maxAttempts)
    ensures r.key == AppKey(appID, secret)
  {
    hide Combined, AppKey, VerifyAppPrivateKey, ScalarMulG2;
    var validate := Check(appID, ScalarMulG2(G2Generator, secret));
    var k :| 0 <= k < |Combos(0, |ps|, threshold)| && Hits(sigs, ps, Combos(0, |ps|, threshold), k, validate, r.key);
    PairingAcceptsOnlyTheAppKey(appID, r.key, secret);
  }

  /** A signer's partial signature is correct for the sharing p. */
  predicate Correct(sigs: Signatures, a: Address, appID: string, p: Poly) {
    a in sigs && sigs[a] == ScalarMulG1(HashToG1(appID), EvalAt(p, a))
  }

  /** Lagrange combination of correct signatures gives the key for the shared secret. */
  lemma CorrectSubsetCombines(sigs: Signatures, subset: seq<Address>, appID: string, p: Poly)
    requires DistinctPoints(subset) && 0 < |p| <= |subset|
    requires forall a :: a in subset ==> Correct(sigs, a, appID, p)
    ensures Combined(sigs, subset) == AppKey(appID, p[0])
  {
    hide Red, Lambda;
    var h: int := HashToG1(appID).log;
    var f := SignatureLogs(sigs);
    var g := (a: Address) => EvalZ(p, AddressToFr(a));
    forall a | a in subset
      ensures Cong(f(a), h * g(a) + 0 * g(a))
    {
      assert Correct(sigs, a, appID, p);
      CongRed(EvalZ(p, AddressToFr(a)));
      CongRed(h * EvalAt(p, a));
      CongScale(h, EvalAt(p, a), g(a));
    }
    LagrangeLinear(subset, subset, f, h, g, 0, g);
    InterpolatesAtZero(subset, p, g);
    CongScale(h, AtZeroZ(subset, g), p[0]);
  }

  /** Positions below k of operators in `good`, increasing. */
  function Positions(ps: seq<Address>, good: set<Address>, k: nat): (c: seq<nat>)
    requires k <= |ps|
    ensures IsCombo(c, 0, k) && forall i :: 0 <= i < |c| ==> ps[c[i]] in good
  {
    if k == 0 then []
    else
      var c := Positions(ps, good, k - 1);
      if ps[k - 1] in good then c + [k - 1] else c
  }

  function Among(ps: seq<Address>, good: set<Address>): set<Address> {
    set a | a in good && a in ps
  }

  lemma AmongOneMore(ps: seq<Address>, x: Address, good: set<Address>)
    requires x !in ps
    ensures |Among(ps + [x], good)| == |Among(ps, good)| + (if x in good then 1 else 0)
  {
    assert Among(ps + [x], good) == Among(ps, good) + (if x in good then {x} else {});
  }

  lemma {:induction false} PositionCount(ps: seq<Address>, good: set<Address>, k: nat)
    requires k <= |ps| && Distinct(ps)
    ensures |Positions(ps, good, k)| == |Among(ps[..k], good)|
  {
    hide Among, IsCombo;
    if k == 0 {
      NoneAmong(good);
    } else {
      PositionCount(ps, good, k - 1);
      assert ps[..k] == ps[..k - 1] + [ps[k - 1]];
      AmongOneMore(ps[..k - 1], ps[k - 1], good);
    }
  }

  lemma NoneAmong(good: set<Address>)
    ensures |Among([], good)| == 0
  {
    assert Among([], good) == {};
  }

  /** Some t-subset in the list consists of good operators only. */
  lemma GoodSubsetIsListed(ps: seq<Address>, keys: set<Address>, good: set<Address>, t: nat) returns (k: nat)
    requires Enumerates(ps, keys) && good <= keys && |good| >= t && t <= |ps|
    ensures k < |Combos(0, |ps|, t)|
    ensures var c := Combos(0, |ps|, t)[k];
            |c| == t && IsCombo(c, 0, |ps|) && forall i :: 0 <= i < |c| ==> c[i] < |ps| && ps[c[i]] in good
  {
    var n := |ps|;
    assert ps[..n] == ps;
    assert Among(ps, good) == good;
    PositionCount(ps, good, n);
    var c := Positions(ps, good, n)[..t];
    k := EveryComboIsListed(c, 0, n);
  }

  lemma PickDistinctPoints(ps: seq<Address>, c: seq<nat>)
    requires DistinctPoints(ps) && IsCombo(c, 0, |ps|)
    ensures DistinctPoints(Pick(ps, c))
  {
  }

  /** COMPLETENESS AND SOUNDNESS TOGETHER. If at least t of the supplied signatures are correct shares of a
      secret with threshold t, and all C(n, t) subsets fit under the attempt cap, retry recovery returns the
      application key, whatever the remaining signatures are. */
  lemma ToleratesWrongSignatures(r: Recovery, ps: seq<Address>, sigs: Signatures, threshold: nat, appID: string,
                                 p: Poly, good: set<Address>, maxAttempts: int)
    requires SortedKeys(ps, sigs.Keys) && DistinctPoints(ps) && threshold <= |ps|
    requires 0 < |p| <= threshold <= |good| && good <= sigs.Keys
    requires RetryOutcome(r, ps, sigs, threshold, Check(appID, ScalarMulG2(G2Generator, p[0])), maxAttempts)
    requires forall a :: a in good ==> Correct(sigs, a, appID, p)
    requires p[0] != 0 && !HashToG1(appID).IsZero()
    requires Choose(|ps|, threshold) <= maxAttempts
    ensures r == Found(AppKey(appID, p[0]))
  {
    hide Red, Combined, AppKey, VerifyAppPrivateKey, Correct, ScalarMulG2, EvalAt, Combos, Lambda;
    var validate := Check(appID, ScalarMulG2(G2Generator, p[0]));
    ComboCount(0, |ps|, threshold);
    var k := GoodSubsetIsListed(ps, sigs.Keys, good, threshold);
    var c := Combos(0, |ps|, threshold)[k];
    PickDistinctPoints(ps, c);
    CorrectSubsetCombines(sigs, Pick(ps, c), appID, p);
    PairingAcceptsOnlyTheAppKey(appID, AppKey(appID, p[0]), p[0]);
    AppKeyNonzero(appID, p[0]);
    assert !Misses(sigs, ps, Combos(0, |ps|, threshold), k, validate);
    if r.Found? {
      RecoveredKeyIsTheAppKey(r, ps, sigs, threshold, appID, p[0], maxAttempts);
    }
  }

  lemma AppKeyNonzero(appID: string, secret: Elem)
    requires secret != 0 && !HashToG1(appID).IsZero()
    ensures !AppKey(appID, secret).IsZero()
  {
    hide Red;
    var h := HashToG1(appID).log;
    RedElem(0);
    CongElems(h, 0);
    CongElems(secret, 0);
    ProductNonzero(h, secret);
  }

  /** When no t-subset recovers, exactly min(C(n, t), cap) subsets are tried, and "exhausted" is reported only
      after all C(n, t) of them. The validator may accept any keys, as the pairing check does, as long as no
      subset combines to one of them. */
  lemma AttemptsWhenNothingValidates(r: Recovery, ps: seq<Address>, sigs: Signatures, threshold: nat,
                                     validate: G1Point -> bool, maxAttempts: int)
    requires threshold <= |ps| && maxAttempts >= 1
    requires RetryOutcome(r, ps, sigs, threshold, validate, maxAttempts)
    requires var l := Combos(0, |ps|, threshold); MissesBefore(sigs, ps, l, |l|, validate)
    ensures var total := Choose(|ps|, threshold);
            && (r.Exhausted? <==> total < maxAttempts)
            && (r.Exhausted? ==> r.attempts == total)
            && (!r.Exhausted? ==> r.CapReached? && r.attempts == maxAttempts <= total)
  {
    hide Combos, Combined, Hits, Misses;
    ComboCount(0, |ps|, threshold);
    if r.Found? {
      var l := Combos(0, |ps|, threshold);
      var k :| 0 <= k < |l| && Hits(sigs, ps, l, k, validate, r.key);
      HitIsNoMiss(sigs, ps, l, k, validate, r.key);
    }
  }

  lemma HitIsNoMiss(sigs: Signatures, ps: seq<Address>, l: seq<seq<nat>>, k: nat, validate: G1Point -> bool, key: G1Point)
    requires k < |l| && Hits(sigs, ps, l, k, validate, key)
    ensures !Misses(sigs, ps, l, k, validate)
  {
  }

  /** The hypothesis above for the pairing check: no subset of t signers combines to the application key. */
  lemma NothingValidatesIff(ps: seq<Address>, sigs: Signatures, threshold: nat, appID: string, secret: Elem)
    requires threshold <= |ps|
    ensures var l := Combos(0, |ps|, threshold);
            MissesBefore(sigs, ps, l, |l|, Check(appID, ScalarMulG2(G2Generator, secret))) <==>
            forall k :: 0 <= k < |l| ==>
              (forall i :: 0 <= i < |l[k]| ==> l[k][i] < |ps|) &&
              (Combined(sigs, Pick(ps, l[k])).IsZero() || Combined(sigs, Pick(ps, l[k])) != AppKey(appID, secret))
  {
    hide Combined, AppKey, VerifyAppPrivateKey, ScalarMulG2, Combos;
    var l := Combos(0, |ps|, threshold);
    var validate := Check(appID, ScalarMulG2(G2Generator, secret));
    forall k | 0 <= k < |l|
      ensures Misses(sigs, ps, l, k, validate) <==>
              (forall i :: 0 <= i < |l[k]| ==> l[k][i] < |ps|) &&
              (Combined(sigs, Pick(ps, l[k])).IsZero() || Combined(sigs, Pick(ps, l[k])) != AppKey(appID, secret))
    {
      if forall i :: 0 <= i < |l[k]| ==> l[k][i] < |ps| {
        PairingAcceptsOnlyTheAppKey(appID, Combined(sigs, Pick(ps, l[k])), secret);
      }
    }
  }

  /** END TO END. After any run of a cluster, a client that gathers partial signatures under one version's shares
      and validates against the served master public key recovers secret * H(appID), as long as a threshold of
      the signatures comes from holders of that version and the subsets fit under the attempt cap. */
  lemma ClusterServesTheAppKey(g: Dealing, s0: State, es: seq<Event>, v: Version, r: Recovery, ps: seq<Address>,
                               sigs: Signatures, appID: string, good: set<Address>, maxAttempts: int)
    requires IsRun(g, s0, es) && v in HistoryOf(g, es)
    requires SortedKeys(ps, sigs.Keys) && DistinctPoints(ps)
    requires CalculateThreshold(|HistoryOf(g, es)[v].operators|) <= |good| <= |ps| && good <= sigs.Keys
    requires forall a :: a in good ==>
               var s := After(g, s0, es);
               a in s && v in s[a].versions &&
               sigs[a] == ScalarMulG1(HashToG1(appID), s[a].versions[v].share)
    requires RetryOutcome(r, ps, sigs, CalculateThreshold(|HistoryOf(g, es)[v].operators|),
                          Check(appID, ScalarMulG2(G2Generator, SecretOf(g))), maxAttempts)
    requires SecretOf(g) != 0 && !HashToG1(appID).IsZero()
    requires Choose(|ps|, CalculateThreshold(|HistoryOf(g, es)[v].operators|)) <= maxAttempts
    ensures r == Found(AppKey(appID, SecretOf(g)))
  {
    hide Red, EvalAt, ScalarMulG1, ScalarMulG2, RetryOutcome, AppKey, SortedKeys, SecretOf, HistoryOf, Check;
    RunConservesSecret(g, s0, es);
    var s, h := After(g, s0, es), HistoryOf(g, es);
    forall a | a in good
      ensures Correct(sigs, a, appID, h[v].poly)
    {
      assert GoodNode(s[a], SecretOf(g), h, a);
    }
    ToleratesWrongSignatures(r, ps, sigs, |h[v].poly|, appID, h[v].poly, good, maxAttempts);
  }
}
