/** Whole runs of a cluster: one DKG, then any sequence of reshare rounds and active-version changes.
    A round is what the finalize parts of pkg/node/node.go do on the nodes that reach them. The nodes are honest. A
    dealer may deal from any share and withhold shares, but within one round all finalizing nodes use one dealer list
    and have one commitment vector from each dealer, of threshold length. For a reshare NodeRounds derives the one
    vector from the on-chain hashes; for a key generation it is assumed. */
module Cluster {
  import opened Results
  import opened PrimeField
  import opened Addresses
  import opened Interpolation
  import opened Combination
  import opened Curve
  import opened Polynomials
  import opened Dkg
  import opened Resharing

  type Version = int

  /** What one node stores for one key version. */
  datatype Holding = Holding(share: Elem, mpk: Option<G2Point>)

  /** A node: its stored versions and the active one, if it has any. */
  datatype Node = Node(versions: map<Version, Holding>, active: Option<Version>) {
    ghost predicate Valid() {
      active.Some? ==> active.value in versions
    }
  }

  type State = map<Address, Node>

  /** The messages of one protocol round: the one dealer list, the one commitment vector of each dealer and the share
      each recipient got from each dealer. finalizers are the nodes that reach the end of the round. */
  datatype Dealing = Dealing(
    version: Version,
    operators: seq<Address>,
    dealers: seq<Address>,
    commitments: map<Address, seq<G2Point>>,
    shares: map<Address, map<Address, Elem>>,
    finalizers: set<Address>
  ) {
    function Threshold(): nat { CalculateThreshold(|operators|) }

    /** The polynomials behind the commitments. */
    function Dealt(): map<Address, Poly> {
      map d | d in commitments :: Logs(commitments[d])
    }

    /** Facts that hold at every finalizing node: the dealers are operators, at least a threshold of them;
        every vector has threshold length; every share in use passed verification. */
    ghost predicate Verified() {
      && operators != [] && DistinctPoints(operators)
      && DistinctPoints(dealers) && (forall d :: d in dealers ==> d in operators)
      && |dealers| >= Threshold()
      && (forall d :: d in dealers ==> d in commitments && |commitments[d]| == Threshold())
      && (forall j :: j in finalizers ==> j in operators && j in shares)
      && (forall j, d :: j in finalizers && d in dealers ==>
            d in shares[j] && Opens(shares[j][d], commitments[d], j))
    }
  }

  datatype Event =
    | Round(dealing: Dealing, fetchedKeys: map<Address, G2Point>)
    | Reactivate(node: Address, version: Version)

  function NodeOf(s: State, a: Address): Node {
    if a in s then s[a] else Node(map[], None)
  }

  predicate IsExisting(s: State, a: Address) { NodeOf(s, a).active.Some? }

  /** The master public key an existing operator carries forward: that of its active version. */
  function CarriedKey(s: State, a: Address): Option<G2Point> {
    var n := NodeOf(s, a);
    if n.active.Some? && n.active.value in n.versions then n.versions[n.active.value].mpk else None
  }

  function Store(s: State, j: Address, v: Version, h: Holding): Node {
    Node(NodeOf(s, j).versions[v := h], Some(v))
  }

  // Key generation ----------------------------------------------------------------------------

  /** What each finalizing node stores after FinalizeKeyShare: the sum of its shares, and the combined
      first commitment as master public key. */
  ghost predicate Generates(g: Dealing, s: State) {
    && g.Verified()
    && s.Keys == g.finalizers
    && forall j :: j in s ==>
         s[j] == Node(map[g.version := Holding(Red(SumZ(g.dealers, Values(g.shares[j]))),
                                               Some(G2Point(Red(ContributionZ(Vectors(g), g.Threshold(), 0)))))],
                      Some(g.version))
  }

  function Vectors(g: Dealing): seq<seq<G2Point>>
    requires forall d :: d in g.dealers ==> d in g.commitments
  {
    seq(|g.dealers|, i requires 0 <= i < |g.dealers| => g.commitments[g.dealers[i]])
  }

  function One(): Address -> int { (a: Address) => 1 }

  /** The secret that a key generation creates, and the polynomial that shares it. */
  function GeneratedPoly(g: Dealing): Poly
    requires DealtWith(g.dealers, g.Dealt(), g.Threshold())
  {
    Combine(g.dealers, One(), g.Dealt(), g.Threshold())
  }

  lemma VerifiedDealt(g: Dealing)
    requires g.Verified()
    ensures DealtWith(g.dealers, g.Dealt(), g.Threshold()) && g.Threshold() > 0
    ensures forall d :: d in g.dealers ==> g.Dealt()[d] == Logs(g.commitments[d])
  {
  }

  // Reshare rounds ----------------------------------------------------------------------------

  /** When a finalizing node stores the result. An existing operator has passed the check against its
      carried master public key; a joining operator runs no check, so a round with joiners is taken
      together with at least one existing operator that finalized on the same dealer list. */
  ghost predicate RoundAllowed(s: State, e: Event)
    requires e.Round?
  {
    var g := e.dealing;
    && g.Verified()
    && (forall a :: a in s ==> g.version !in s[a].versions)
    && (forall j :: j in g.finalizers && IsExisting(s, j) ==> MpkAccepted(g.dealers, g.commitments, CarriedKey(s, j)))
    && (exists j :: j in g.finalizers && IsExisting(s, j))
    && (forall j :: j in e.fetchedKeys ==> exists a :: a in s && CarriedKey(s, a) == Some(e.fetchedKeys[j]))
  }

  /** The holding a finalizing node stores: ComputeNewKeyShare over the agreed dealers, with the master
      public key carried forward (existing operator) or fetched from the peers (joiner; may be missing). */
  function NewHolding(s: State, e: Event, j: Address): Holding
    requires e.Round? && j in e.dealing.shares
  {
    Holding(Red(AtZeroZ(e.dealing.dealers, Values(e.dealing.shares[j]))),
            if IsExisting(s, j) then CarriedKey(s, j)
            else if j in e.fetchedKeys then Some(e.fetchedKeys[j]) else None)
  }

  ghost predicate Allowed(s: State, e: Event) {
    match e
    case Round(_, _) => RoundAllowed(s, e)
    case Reactivate(a, v) => a in s && v in s[a].versions
  }

  ghost function Step(s: State, e: Event): State
    requires Allowed(s, e)
  {
    match e
    case Round(g, _) =>
      map a | a in s.Keys + g.finalizers ::
        if a in g.finalizers then Store(s, a, g.version, NewHolding(s, e, a)) else s[a]
    case Reactivate(a, v) => s[a := s[a].(active := Some(v))]
  }

  /** A run: a key generation followed by allowed events. */
  ghost predicate IsRun(g: Dealing, s0: State, es: seq<Event>)
    decreases |es|, 0
  {
    if es == [] then Generates(g, s0)
    else IsRun(g, s0, es[..|es| - 1]) && Allowed(After(g, s0, es[..|es| - 1]), es[|es| - 1])
  }

  ghost function After(g: Dealing, s0: State, es: seq<Event>): State
    requires IsRun(g, s0, es)
    decreases |es|, 1
  {
    if es == [] then s0 else Step(After(g, s0, es[..|es| - 1]), es[|es| - 1])
  }

  // The invariant -----------------------------------------------------------------------------

  /** How one version is shared: among which operators, and by which polynomial. */
  datatype Sharing = Sharing(operators: seq<Address>, poly: Poly) {
    /** As many coefficients as the threshold of the operator set, and the given constant term. */
    ghost predicate Shares(secret: Elem) {
      && operators != [] && DistinctPoints(operators)
      && |poly| == CalculateThreshold(|operators|) && poly[0] == secret
    }
  }

  type History = map<Version, Sharing>

  ghost predicate GoodHolding(x: Holding, secret: Elem, h: Sharing, a: Address) {
    && a in h.operators && x.share == EvalAt(h.poly, a)
    && (x.mpk.Some? ==> x.mpk.value == ScalarMulG2(G2Generator, secret))
  }

  ghost predicate GoodNode(n: Node, secret: Elem, h: History, a: Address) {
    && n.Valid()
    && forall v :: v in n.versions ==> v in h && GoodHolding(n.versions[v], secret, h[v], a)
  }

  /** Every stored share of a version is the value of that version's polynomial at the holder's point;
      every such polynomial has the secret as constant term; every known master public key is secret * G2. */
  ghost predicate Conserves(s: State, secret: Elem, h: History) {
    && (forall v :: v in h ==> h[v].Shares(secret))
    && (forall a :: a in s ==> GoodNode(s[a], secret, h, a))
  }

  /** How a round shares its version. */
  ghost function SharingOf(d: Dealing): Sharing {
    Sharing(d.operators,
            if DealtWith(d.dealers, d.Dealt(), d.Threshold())
            then Refreshed(d.dealers, d.Dealt(), d.Threshold()) else [])
  }

  ghost function GeneratedSharing(g: Dealing): Sharing {
    Sharing(g.operators, if DealtWith(g.dealers, g.Dealt(), g.Threshold()) then GeneratedPoly(g) else [])
  }

  /** The sharings that the dealings of a run define, version by version. */
  ghost function HistoryOf(g: Dealing, es: seq<Event>): History
    decreases |es|
  {
    if es == [] then map[g.version := GeneratedSharing(g)]
    else
      var h := HistoryOf(g, es[..|es| - 1]);
      match es[|es| - 1]
      case Round(d, _) => h[d.version := SharingOf(d)]
      case Reactivate(_, _) => h
  }

  /** The secret of a run is fixed by its key generation. */
  ghost function SecretOf(g: Dealing): Elem {
    var p := GeneratedSharing(g).poly;
    if p == [] then 0 else p[0]
  }

  lemma GenerationConserves(g: Dealing, s: State)
    requires Generates(g, s)
    ensures Conserves(s, SecretOf(g), HistoryOf(g, []))
  {
    hide Red, ScalarMulG2, GeneratedPoly;
    VerifiedDealt(g);
    var p := GeneratedPoly(g);
    GeneratedConstant(g);
    ScalarMulGenerator(p[0]);
    forall j | j in s
      ensures Red(SumZ(g.dealers, Values(g.shares[j]))) == EvalAt(p, j)
    {
      GeneratedShare(g, j);
    }
  }

  lemma GeneratedConstant(g: Dealing)
    requires g.Verified()
    ensures DealtWith(g.dealers, g.Dealt(), g.Threshold()) && g.Threshold() > 0
    ensures |GeneratedPoly(g)| == g.Threshold()
    ensures Red(ContributionZ(Vectors(g), g.Threshold(), 0)) == GeneratedPoly(g)[0]
  {
    VerifiedDealt(g);
    CombinedCommitmentsAreTheSum(Vectors(g), g.dealers, One(), g.Dealt(), g.Threshold(), 0);
  }

  lemma GeneratedShare(g: Dealing, j: Address)
    requires g.Verified() && j in g.finalizers && DealtWith(g.dealers, g.Dealt(), g.Threshold())
    ensures Red(SumZ(g.dealers, Values(g.shares[j]))) == EvalAt(GeneratedPoly(g), j)
  {
    hide Red;
    SummedShareOnSummedPolynomial(j, g.dealers, One(), g.Dealt(), g.Threshold(), g.shares[j]);
  }

  /** The constant term of a round's refreshed polynomial is the secret, whoever dealt: some existing
      operator accepted the dealers' first commitments against secret * G2. */
  lemma RoundKeepsSecret(s: State, e: Event, secret: Elem, h: History)
    requires e.Round? && RoundAllowed(s, e) && Conserves(s, secret, h)
    ensures SharingOf(e.dealing).Shares(secret)
  {
    hide Red, ScalarMulG2, Refreshed, ImpliedKey;
    var g := e.dealing;
    VerifiedDealt(g);
    var j :| j in g.finalizers && IsExisting(s, j);
    CarriedKeyIsGood(s, secret, h, j);
    RefreshedConstant(g.dealers, g.Dealt(), g.Threshold(), g.commitments);
    ScalarMulGenerator(secret);
  }

  lemma CarriedKeyIsGood(s: State, secret: Elem, h: History, a: Address)
    requires Conserves(s, secret, h)
    ensures CarriedKey(s, a).Some? ==> CarriedKey(s, a).value == ScalarMulG2(G2Generator, secret)
  {
    hide ScalarMulG2;
    if CarriedKey(s, a).Some? {
      assert a in s && GoodNode(s[a], secret, h, a);
      var v := s[a].active.value;
      assert v in s[a].versions && GoodHolding(s[a].versions[v], secret, h[v], a);
    }
  }

  lemma NewHoldingIsGood(s: State, e: Event, secret: Elem, h: History, j: Address)
    requires e.Round? && RoundAllowed(s, e) && Conserves(s, secret, h)
    requires j in e.dealing.finalizers
    ensures GoodHolding(NewHolding(s, e, j), secret, SharingOf(e.dealing), j)
  {
    hide Red, ScalarMulG2, Refreshed, GoodNode, CarriedKey;
    var g := e.dealing;
    VerifiedDealt(g);
    RefreshedShare(j, g.dealers, g.Dealt(), g.Threshold(), g.shares[j]);
    CarriedKeyIsGood(s, secret, h, j);
    if j in e.fetchedKeys {
      var a :| a in s && CarriedKey(s, a) == Some(e.fetchedKeys[j]);
      CarriedKeyIsGood(s, secret, h, a);
    }
  }

  lemma StoredNodeIsGood(s: State, secret: Elem, h: History, a: Address, v: Version, x: Holding, sh: Sharing)
    requires Conserves(s, secret, h) && (a in s ==> v !in s[a].versions)
    requires GoodHolding(x, secret, sh, a)
    ensures GoodNode(Store(s, a, v, x), secret, h[v := sh], a)
  {
    hide GoodHolding;
    assert GoodNode(NodeOf(s, a), secret, h, a);
  }

  lemma RoundConserves(s: State, e: Event, secret: Elem, h: History)
    requires e.Round? && RoundAllowed(s, e) && Conserves(s, secret, h)
    ensures Conserves(Step(s, e), secret, h[e.dealing.version := SharingOf(e.dealing)])
  {
    hide GoodHolding, NewHolding, SharingOf, Store;
    var g := e.dealing;
    var h' := h[g.version := SharingOf(g)];
    RoundKeepsSecret(s, e, secret, h);
    forall a | a in s.Keys + g.finalizers
      ensures GoodNode(Step(s, e)[a], secret, h', a)
    {
      if a in g.finalizers {
        NewHoldingIsGood(s, e, secret, h, a);
        StoredNodeIsGood(s, secret, h, a, g.version, NewHolding(s, e, a), SharingOf(g));
      } else {
        assert GoodNode(s[a], secret, h, a);
      }
    }
  }

  lemma ReactivateConserves(s: State, e: Event, secret: Elem, h: History)
    requires e.Reactivate? && Allowed(s, e) && Conserves(s, secret, h)
    ensures Conserves(Step(s, e), secret, h)
  {
    hide GoodHolding;
    assert GoodNode(s[e.node], secret, h, e.node);
  }

  /** SECRET CONSERVATION. After one DKG and any number of finalized reshare rounds, with operators joining and
      leaving, thresholds changing and dealers dealing from any share, all holders of a version hold points of one
      polynomial whose constant term is the DKG secret, and every stored master public key is secret * G2. */
  lemma {:induction false} RunConservesSecret(g: Dealing, s0: State, es: seq<Event>)
    requires IsRun(g, s0, es)
    ensures Conserves(After(g, s0, es), SecretOf(g), HistoryOf(g, es))
    decreases |es|
  {
    hide Conserves, Step, SecretOf, Generates, SharingOf, RoundAllowed;
    if es == [] {
      GenerationConserves(g, s0);
    } else {
      var front, e := es[..|es| - 1], es[|es| - 1];
      RunConservesSecret(g, s0, front);
      if e.Round? {
        RoundConserves(After(g, s0, front), e, SecretOf(g), HistoryOf(g, front));
      } else {
        ReactivateConserves(After(g, s0, front), e, SecretOf(g), HistoryOf(g, front));
      }
    }
  }

  // Nothing is lost -----------------------------------------------------------------------------

  /** What an event does, node by node. A finalizer gains the round's version, becomes active on it and keeps all its
      other versions; a re-pointed node changes its pointer only; everybody else stays as it is. */
  lemma StepEffect(s: State, e: Event)
    requires Allowed(s, e)
    ensures e.Round? ==>
              var g := e.dealing;
              && Step(s, e).Keys == s.Keys + g.finalizers
              && (forall a :: a in s && a !in g.finalizers ==> Step(s, e)[a] == s[a])
              && forall a :: a in g.finalizers ==>
                   var n, held := Step(s, e)[a], NodeOf(s, a).versions;
                   && n.active == Some(g.version) && n.versions.Keys == held.Keys + {g.version}
                   && (forall w :: w in held ==> n.versions[w] == held[w])
                   && n.versions[g.version].share == Red(AtZeroZ(g.dealers, Values(g.shares[a])))
                   && n.versions[g.version].mpk ==
                      if NodeOf(s, a).active.Some? then held[NodeOf(s, a).active.value].mpk
                      else if a in e.fetchedKeys then Some(e.fetchedKeys[a]) else None
    ensures e.Reactivate? ==>
              && Step(s, e).Keys == s.Keys && Step(s, e)[e.node].versions == s[e.node].versions
              && Step(s, e)[e.node].active == Some(e.version)
              && forall a :: a in s && a != e.node ==> Step(s, e)[a] == s[a]
  {
    hide Red, AtZeroZ;
    if e.Round? {
      forall a | a in e.dealing.finalizers
        ensures a in e.dealing.shares && a !in s ==> NodeOf(s, a) == Node(map[], None)
        ensures a in s ==> e.dealing.version !in s[a].versions
        ensures NodeOf(s, a).active.Some? ==> NodeOf(s, a).active.value in NodeOf(s, a).versions
      {
        assert IsExisting(s, a) ==> CarriedKey(s, a).Some?;
      }
    }
  }

  /** Everything a node holds in s it also holds in t, unchanged. */
  ghost predicate Keeps(s: State, t: State) {
    forall a, w :: a in s && w in s[a].versions ==>
      a in t && w in t[a].versions && t[a].versions[w] == s[a].versions[w]
  }

  lemma StepKeeps(s: State, e: Event)
    requires Allowed(s, e)
    ensures Keeps(s, Step(s, e))
  {
    StepEffect(s, e);
  }

  lemma KeepsTransitive(s: State, t: State, u: State)
    requires Keeps(s, t) && Keeps(t, u)
    ensures Keeps(s, u)
  {
  }

  /** What was held at any point of a run is still held at its end. */
  lemma {:induction false} RunKeeps(g: Dealing, s0: State, es: seq<Event>, i: nat)
    requires IsRun(g, s0, es) && i <= |es|
    ensures IsRun(g, s0, es[..i]) && Keeps(After(g, s0, es[..i]), After(g, s0, es))
    decreases |es|
  {
    hide Step, Allowed, Generates, Keeps;
    if i == |es| {
      assert es[..i] == es;
      KeepsItself(After(g, s0, es));
    } else {
      var front := es[..|es| - 1];
      assert front[..i] == es[..i];
      RunKeeps(g, s0, front, i);
      StepKeeps(After(g, s0, front), es[|es| - 1]);
      KeepsTransitive(After(g, s0, es[..i]), After(g, s0, front), After(g, s0, es));
    }
  }

  lemma KeepsItself(s: State)
    ensures Keeps(s, s)
  {
  }

  /** Every node that finalized a round still holds, at the end of the run, its point of that round's polynomial. */
  lemma FinalizersStillHold(g: Dealing, s0: State, es: seq<Event>, i: nat, a: Address)
    requires IsRun(g, s0, es) && i < |es| && es[i].Round? && a in es[i].dealing.finalizers
    ensures var v, s, h := es[i].dealing.version, After(g, s0, es), HistoryOf(g, es);
            && a in s && v in s[a].versions && v in h && a in h[v].operators && s[a].versions[v].share == EvalAt(h[v].poly, a)
  {
    var before, upTo := es[..i], es[..i + 1];
    hide Step, RoundAllowed, Generates, SecretOf, HistoryOf, EvalAt;
    RunKeeps(g, s0, es, i + 1);
    assert upTo[..i] == before && upTo[i] == es[i];
    StepEffect(After(g, s0, before), es[i]);
    assert After(g, s0, upTo) == Step(After(g, s0, before), es[i]);
    RunConservesSecret(g, s0, es);
    assert GoodNode(After(g, s0, es)[a], SecretOf(g), HistoryOf(g, es), a);
  }
}
