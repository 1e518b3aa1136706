/** Whole runs seen from the nodes: every finalizing node has its own messages and computes with them alone. With a
    collision-free hash, nodes that keep the same dealers compute on the same commitment vectors, so their rounds
    are rounds of Cluster and the secret is conserved. */
module NodeRounds {
  import opened Results
  import opened PrimeField
  import opened Addresses
  import opened Lists
  import opened Interpolation
  import opened Combination
  import opened Curve
  import opened Polynomials
  import opened Dkg
  import opened Resharing
  import opened Cluster
  import opened Divergence
  import SV = SourceVersions
  import DA = DealerAgreement

  /** What one node has when it finalizes a reshare: the commitments and source versions it received, a share for
      itself from each dealer it uses, and the source version it selected. */
  datatype NodeView = NodeView(
    commitments: map<Address, seq<G2Point>>,
    sources: map<Address, SV.Version>,
    shares: map<Address, Elem>,
    selected: SV.Version
  )

  function Encoded(cs: seq<G2Point>): (bs: seq<Bytes>)
    ensures |bs| == |cs| && SV.Encodings(bs, 96)
  {
    seq(|cs|, i requires 0 <= i < |cs| => MarshalG2(cs[i]))
  }

  lemma EncodedInjective(cs: seq<G2Point>, ds: seq<G2Point>)
    requires EncodingLaw() && Encoded(cs) == Encoded(ds)
    ensures cs == ds
  {
    assert |cs| == |Encoded(cs)| == |Encoded(ds)| == |ds|;
    forall i | 0 <= i < |cs|
      ensures cs[i] == ds[i]
    {
      assert MarshalG2(cs[i]) == Encoded(cs)[i] == Encoded(ds)[i] == MarshalG2(ds[i]);
      assert UnmarshalG2(MarshalG2(cs[i])) == Some(cs[i]) && UnmarshalG2(MarshalG2(ds[i])) == Some(ds[i]);
    }
  }

  /** The received data in the form it is hashed in. */
  function ReceivedBy(n: NodeView): SV.Received {
    SV.Received(map d | d in n.commitments :: Encoded(n.commitments[d]), n.sources)
  }

  /** One reshare round: the on-chain agreed set and the view of every node that finalizes. */
  datatype NodeRound = NodeRound(
    version: int,
    operators: seq<Address>,
    agreed: DA.Agreed,
    views: map<Address, NodeView>,
    fetchedKeys: map<Address, G2Point>
  ) {
    function Threshold(): nat { CalculateThreshold(|operators|) }

    /** The dealer list that node j computes with. */
    function Kept(j: Address): seq<Address>
      requires j in views
    {
      SV.KeptDealers(agreed.dealers, agreed.hashes, ReceivedBy(views[j]), views[j].selected)
    }

    /** What node j has established: its kept dealers are a threshold of agreed dealers bound to the version it
        selected (see SourceVersions.SelectSource), and each share it uses opens that dealer's commitments as j
        received them. That those have threshold length is not checked by the node; UnevenVectors is about rounds
        in which they have not. */
    ghost predicate Established(j: Address)
      requires j in views
    {
      && SV.SelectedBy(Kept(j), views[j].selected, agreed.dealers, agreed.hashes, ReceivedBy(views[j]), Threshold())
      && forall d :: d in Kept(j) ==> d in views[j].shares && d in views[j].commitments
                                      && |views[j].commitments[d]| == Threshold()
                                      && Opens(views[j].shares[d], views[j].commitments[d], j)
    }

    ghost predicate Valid() {
      && operators != [] && DistinctPoints(operators) && Distinct(agreed.dealers)
      && (forall d :: d in agreed.dealers ==> d in operators)
      && views != map[] && (forall j :: j in views ==> j in operators && Established(j))
    }

    /** All finalizing nodes keep the same dealers; SourceVersions.SameDealersKeptIff says when. */
    ghost predicate OneList() {
      forall j, k :: j in views && k in views ==> Kept(j) == Kept(k)
    }

    /** The round as one dealing, read off node j. */
    function AsDealing(j: Address): Dealing
      requires j in views
    {
      Dealing(version, operators, Kept(j), views[j].commitments, map k | k in views :: views[k].shares, views.Keys)
    }
  }

  /** Any two finalizing nodes have selected the same source version. If what reached them is what the dealers
      committed to, they keep one dealer list exactly when they have heard from the same dealers of that version. */
  lemma OneListIff(r: NodeRound, j: Address, k: Address)
    requires SV.Injective(SV.Sha256) && r.Valid() && j in r.views && k in r.views
    ensures r.views[j].selected == r.views[k].selected
    ensures SV.Delivered(r.agreed.dealers, r.agreed.hashes, ReceivedBy(r.views[j])) &&
            SV.Delivered(r.agreed.dealers, r.agreed.hashes, ReceivedBy(r.views[k])) ==>
              (r.Kept(j) == r.Kept(k) <==>
               forall d :: d in r.agreed.dealers && SV.CommittedTo(d, r.agreed.hashes, r.views[j].selected) ==>
                 (SV.Heard(d, ReceivedBy(r.views[j])) <==> SV.Heard(d, ReceivedBy(r.views[k]))))
  {
    hide SV.Injective, SV.KeptDealers, SV.SelectedBy, SV.Delivered, SV.CommittedTo, SV.Heard, Opens, EncodingLaw;
    assert r.Established(j) && r.Established(k);
    assert Distinct(r.operators);
    DistinctCardinality(r.operators);
    DA.SelectionsCompared(r.agreed, ToSet(r.operators), |r.operators|,
                          ReceivedBy(r.views[j]), (r.Kept(j), r.views[j].selected),
                          ReceivedBy(r.views[k]), (r.Kept(k), r.views[k].selected));
  }

  /** What every dealer sent, as far as it is used, is the same at all nodes. */
  lemma SameVectors(r: NodeRound, j: Address, k: Address, d: Address)
    requires SV.Injective(SV.Sha256) && EncodingLaw()
    requires r.Valid() && r.OneList() && j in r.views && k in r.views && d in r.Kept(j)
    ensures d in r.views[j].commitments && d in r.views[k].commitments
    ensures r.views[j].commitments[d] == r.views[k].commitments[d]
  {
    hide SV.Injective, SV.Bound, Opens, DistinctPoints, EncodingLaw;
    assert d in r.Kept(k);
    assert r.Established(j) && r.Established(k);
    SV.BoundDealersDealOneVector(d, r.agreed.hashes, ReceivedBy(r.views[j]), ReceivedBy(r.views[k]), 96);
    EncodedInjective(r.views[j].commitments[d], r.views[k].commitments[d]);
  }

  /** Nodes that keep the same dealers form one verified dealing, whatever each of them was sent. */
  lemma NodesFormOneDealing(r: NodeRound, j: Address)
    requires SV.Injective(SV.Sha256) && EncodingLaw() && r.Valid() && r.OneList() && j in r.views
    ensures r.AsDealing(j).Verified()
    ensures forall k, d :: k in r.views && d in r.Kept(k) ==>
              d in r.Kept(j) && r.views[k].commitments[d] == r.AsDealing(j).commitments[d]
  {
    hide SV.Injective, SV.KeptDealers, SV.SelectedBy, Opens, EncodingLaw, DistinctPoints, Distinct;
    var g := r.AsDealing(j);
    assert r.Established(j);
    KeptPoints(r, j);
    forall k, d | k in r.views && d in g.dealers
      ensures r.Kept(k) == r.Kept(j) && d in r.views[k].shares && d in r.views[k].commitments
      ensures r.views[k].commitments[d] == g.commitments[d] && Opens(r.views[k].shares[d], g.commitments[d], k)
    {
      OpensCommon(r, j, k, d);
    }
    EnoughKept(r, j);
  }

  lemma OpensCommon(r: NodeRound, j: Address, k: Address, d: Address)
    requires SV.Injective(SV.Sha256) && EncodingLaw() && r.Valid() && r.OneList()
    requires j in r.views && k in r.views && d in r.Kept(j)
    ensures d in r.Kept(k) && d in r.views[j].commitments && d in r.views[k].shares && d in r.views[k].commitments
    ensures r.views[k].commitments[d] == r.views[j].commitments[d]
    ensures Opens(r.views[k].shares[d], r.views[j].commitments[d], k)
  {
    hide SV.Injective, SV.KeptDealers, SV.SelectedBy, Opens, EncodingLaw, DistinctPoints, Distinct;
    SameVectors(r, j, k, d);
    assert r.Kept(k) == r.Kept(j);
    assert r.Established(k);
  }

  lemma EnoughKept(r: NodeRound, j: Address)
    requires r.Valid() && j in r.views
    ensures |r.Kept(j)| >= r.Threshold()
  {
    hide SV.KeptDealers, Opens, DistinctPoints;
    assert r.Established(j);
  }

  lemma KeptPoints(r: NodeRound, j: Address)
    requires r.Valid() && j in r.views
    ensures DistinctPoints(r.Kept(j)) && forall d :: d in r.Kept(j) ==> d in r.operators
  {
    hide SV.KeptDealers, Opens;
    assert r.Established(j);
    PointsOfSome(r.Kept(j), r.operators);
  }

  // Steps and runs ------------------------------------------------------------------------------

  /** What node j stores, from its own list, shares and key. */
  function StoredBy(s: State, r: NodeRound, j: Address): Holding
    requires j in r.views
  {
    Holding(Red(AtZeroZ(r.Kept(j), Values(r.views[j].shares))),
            if IsExisting(s, j) then CarriedKey(s, j)
            else if j in r.fetchedKeys then Some(r.fetchedKeys[j]) else None)
  }

  /** Every existing operator that finalizes has run the key check on its own commitments; at least one does. */
  ghost predicate NodesFinalize(s: State, r: NodeRound) {
    && r.Valid() && r.OneList()
    && (forall a :: a in s ==> r.version !in s[a].versions)
    && (forall j :: j in r.views && IsExisting(s, j) ==> MpkAccepted(r.Kept(j), r.views[j].commitments, CarriedKey(s, j)))
    && (exists j :: j in r.views && IsExisting(s, j))
    && (forall j :: j in r.fetchedKeys ==> exists a :: a in s && CarriedKey(s, a) == Some(r.fetchedKeys[j]))
  }

  datatype NodeEvent =
    | Finalize(round: NodeRound)
    | Repoint(node: Address, version: int)

  ghost predicate Possible(s: State, e: NodeEvent) {
    match e
    case Finalize(r) => NodesFinalize(s, r)
    case Repoint(a, v) => a in s && v in s[a].versions
  }

  ghost function Happens(s: State, e: NodeEvent): State
    requires Possible(s, e)
  {
    match e
    case Finalize(r) =>
      map a | a in s.Keys + r.views.Keys ::
        if a in r.views then Store(s, a, r.version, StoredBy(s, r, a)) else s[a]
    case Repoint(a, v) => s[a := s[a].(active := Some(v))]
  }

  lemma SameTermsSameVerdict(ds: seq<Address>, c1: map<Address, seq<G2Point>>, c2: map<Address, seq<G2Point>>,
                             mpk: Option<G2Point>)
    requires forall d :: d in ds ==> d in c1 && d in c2 && c1[d] == c2[d]
    ensures MpkAccepted(ds, c1, mpk) <==> MpkAccepted(ds, c2, mpk)
  {
    hide Red, Lambda;
    var h := (a: Address) => Lambda(a, ds) * ConstantTerms(c1)(a);
    LagrangeIsSum(ds, ds, ConstantTerms(c1), h);
    LagrangeIsSum(ds, ds, ConstantTerms(c2), h);
  }

  lemma FinalizeIsAllowed(s: State, r: NodeRound, j: Address)
    requires SV.Injective(SV.Sha256) && EncodingLaw() && NodesFinalize(s, r) && j in r.views
    ensures RoundAllowed(s, Cluster.Round(r.AsDealing(j), r.fetchedKeys))
  {
    hide SV.Injective, EncodingLaw, MpkAccepted, CarriedKey, IsExisting, r.Valid, r.Established;
    NodesFormOneDealing(r, j);
    var g := r.AsDealing(j);
    forall k | k in r.views && IsExisting(s, k)
      ensures MpkAccepted(g.dealers, g.commitments, CarriedKey(s, k))
    {
      SameVerdict(s, r, j, k);
    }
  }

  lemma SameVerdict(s: State, r: NodeRound, j: Address, k: Address)
    requires SV.Injective(SV.Sha256) && EncodingLaw() && r.Valid() && r.OneList() && j in r.views && k in r.views
    requires MpkAccepted(r.Kept(k), r.views[k].commitments, CarriedKey(s, k))
    ensures MpkAccepted(r.Kept(j), r.views[j].commitments, CarriedKey(s, k))
  {
    hide SV.Injective, EncodingLaw, MpkAccepted, CarriedKey, SV.KeptDealers, r.Established, r.Valid;
    assert r.Kept(k) == r.Kept(j);
    forall d | d in r.Kept(k)
      ensures d in r.views[k].commitments && d in r.views[j].commitments
      ensures r.views[k].commitments[d] == r.views[j].commitments[d]
    {
      SameVectors(r, k, j, d);
    }
    SameTermsSameVerdict(r.Kept(k), r.views[k].commitments, r.views[j].commitments, CarriedKey(s, k));
  }

  /** A round of the nodes is a round of the cluster, with the same outcome. */
  lemma FinalizeIsRound(s: State, r: NodeRound, j: Address)
    requires SV.Injective(SV.Sha256) && EncodingLaw() && NodesFinalize(s, r) && j in r.views
    ensures var e := Cluster.Round(r.AsDealing(j), r.fetchedKeys);
            Allowed(s, e) && Step(s, e) == Happens(s, Finalize(r))
  {
    hide SV.Injective, EncodingLaw, SV.KeptDealers, RoundAllowed, r.Valid, Red, Store, AtZeroZ;
    FinalizeIsAllowed(s, r, j);
    var e := Cluster.Round(r.AsDealing(j), r.fetchedKeys);
    forall a | a in r.views
      ensures NewHolding(s, e, a) == StoredBy(s, r, a)
    {
      assert r.Kept(a) == r.Kept(j);
    }
  }

  /** A run of the nodes, after a key generation. */
  ghost predicate IsNodeRun(g: Dealing, s0: State, es: seq<NodeEvent>)
    decreases |es|, 0
  {
    if es == [] then Generates(g, s0)
    else IsNodeRun(g, s0, es[..|es| - 1]) && Possible(AfterNodes(g, s0, es[..|es| - 1]), es[|es| - 1])
  }

  ghost function AfterNodes(g: Dealing, s0: State, es: seq<NodeEvent>): State
    requires IsNodeRun(g, s0, es)
    decreases |es|, 1
  {
    if es == [] then s0 else Happens(AfterNodes(g, s0, es[..|es| - 1]), es[|es| - 1])
  }

  /** Every run of the nodes is a run of the cluster. */
  lemma {:induction false} NodeRunIsRun(g: Dealing, s0: State, es: seq<NodeEvent>) returns (cs: seq<Cluster.Event>)
    requires SV.Injective(SV.Sha256) && EncodingLaw() && IsNodeRun(g, s0, es)
    ensures |cs| == |es| && IsRun(g, s0, cs) && After(g, s0, cs) == AfterNodes(g, s0, es)
    decreases |es|
  {
    hide SV.Injective, EncodingLaw, Step, Allowed, Happens, NodesFinalize, Generates;
    if es == [] {
      cs := [];
    } else {
      var front, e := es[..|es| - 1], es[|es| - 1];
      var before := NodeRunIsRun(g, s0, front);
      var c := NodeStepIsStep(AfterNodes(g, s0, front), e);
      cs := before + [c];
      assert cs[..|cs| - 1] == before;
    }
  }

  lemma NodeStepIsStep(s: State, e: NodeEvent) returns (c: Cluster.Event)
    requires SV.Injective(SV.Sha256) && EncodingLaw() && Possible(s, e)
    ensures Allowed(s, c) && Step(s, c) == Happens(s, e)
  {
    hide SV.Injective, EncodingLaw, Store, StoredBy, RoundAllowed;
    match e
    case Finalize(r) =>
      var j :| j in r.views && IsExisting(s, j);
      FinalizeIsRound(s, r, j);
      c := Cluster.Round(r.AsDealing(j), r.fetchedKeys);
    case Repoint(a, v) =>
      c := Reactivate(a, v);
  }

  /** SECRET CONSERVATION FOR THE NODES. After one key generation and any number of rounds in which every node works
      with what it was sent, the holders of every version hold points of one polynomial whose constant term is the
      generated secret, and every stored master public key is secret * G2. */
  lemma NodeRunsConserveSecret(g: Dealing, s0: State, es: seq<NodeEvent>) returns (h: History)
    requires SV.Injective(SV.Sha256) && EncodingLaw() && IsNodeRun(g, s0, es)
    ensures Conserves(AfterNodes(g, s0, es), SecretOf(g), h)
  {
    hide SV.Injective, EncodingLaw, IsRun, After, IsNodeRun, AfterNodes, Conserves, SecretOf, HistoryOf;
    var cs := NodeRunIsRun(g, s0, es);
    RunConservesSecret(g, s0, cs);
    h := HistoryOf(g, cs);
  }

  // Every run of the cluster is one of the nodes -------------------------------------------------

  /** What a node has when it was sent exactly the dealing: the dealers' vectors, all from source version 1. */
  function ViewOf(g: Dealing, j: Address): NodeView
    requires g.Verified() && j in g.finalizers
  {
    NodeView(map d | d in g.dealers :: g.commitments[d], map d | d in g.dealers :: 1, g.shares[j], 1)
  }

  function RoundOf(g: Dealing, fetchedKeys: map<Address, G2Point>): NodeRound
    requires g.Verified()
  {
    var hashes := map d | d in g.dealers :: SV.HashReshareCommitment(Encoded(g.commitments[d]), 1);
    NodeRound(g.version, g.operators, DA.Agreed(g.dealers, hashes), map j | j in g.finalizers :: ViewOf(g, j), fetchedKeys)
  }

  lemma EachIsBound(g: Dealing, fetchedKeys: map<Address, G2Point>, j: Address, d: Address)
    requires g.Verified() && j in g.finalizers && d in g.dealers
    ensures var r := RoundOf(g, fetchedKeys);
            SV.BoundTo(d, r.agreed.hashes, ReceivedBy(r.views[j]), r.views[j].selected)
  {
    hide SV.HashReshareCommitment, Opens, DistinctPoints;
    var n := RoundOf(g, fetchedKeys).views[j];
    assert ReceivedBy(n).commitments[d] == Encoded(g.commitments[d]);
    assert |g.commitments[d]| == g.Threshold() > 0;
  }

  lemma AllAreKept(g: Dealing, fetchedKeys: map<Address, G2Point>, j: Address)
    requires g.Verified() && j in g.finalizers
    ensures RoundOf(g, fetchedKeys).Kept(j) == g.dealers
  {
    hide SV.BoundTo, Opens, DistinctPoints;
    var r := RoundOf(g, fetchedKeys);
    var n := r.views[j];
    forall d | d in g.dealers
      ensures SV.BoundTo(d, r.agreed.hashes, ReceivedBy(n), n.selected)
    {
      EachIsBound(g, fetchedKeys, j, d);
    }
    FilterAll(g.dealers, SV.BoundToBy(r.agreed.hashes, ReceivedBy(n), n.selected));
  }

  lemma AllAreEstablished(g: Dealing, fetchedKeys: map<Address, G2Point>, j: Address)
    requires g.Verified() && j in g.finalizers
    ensures RoundOf(g, fetchedKeys).Established(j)
  {
    hide SV.BoundTo, SV.Bound, SV.KeptDealers, Opens, DistinctPoints, Distinct;
    AllAreKept(g, fetchedKeys, j);
    DistinctDealers(g);
    var r := RoundOf(g, fetchedKeys);
    forall d | d in g.dealers
      ensures SV.Bound(d, r.agreed.hashes, ReceivedBy(r.views[j])) && r.views[j].sources[d] == r.views[j].selected
    {
      EachIsBound(g, fetchedKeys, j, d);
      BoundToIsBound(d, r.agreed.hashes, ReceivedBy(r.views[j]), r.views[j].selected);
    }
  }

  lemma BoundToIsBound(d: Address, onChain: map<Address, SV.Digest>, m: SV.Received, v: SV.Version)
    requires SV.BoundTo(d, onChain, m, v)
    ensures SV.Bound(d, onChain, m)
  {
  }

  lemma RoundShape(g: Dealing, fetchedKeys: map<Address, G2Point>)
    requires g.Verified()
    ensures var r := RoundOf(g, fetchedKeys);
            && r.version == g.version && r.operators == g.operators && r.agreed.dealers == g.dealers
            && r.fetchedKeys == fetchedKeys && r.views.Keys == g.finalizers
            && (forall j :: j in g.finalizers ==> r.views[j].shares == g.shares[j])
            && forall j, d :: j in g.finalizers && d in g.dealers ==>
                 d in r.views[j].commitments && r.views[j].commitments[d] == g.commitments[d]
  {
    hide Opens, DistinctPoints;
  }

  lemma RoundIsValid(g: Dealing, fetchedKeys: map<Address, G2Point>)
    requires g.Verified() && g.finalizers != {}
    ensures RoundOf(g, fetchedKeys).Valid() && RoundOf(g, fetchedKeys).OneList()
  {
    var r := RoundOf(g, fetchedKeys);
    hide SV.KeptDealers, Opens, Distinct, DistinctPoints, RoundOf, r.Established, r.Valid, r.OneList;
    RoundShape(g, fetchedKeys);
    forall j | j in g.finalizers
      ensures r.Kept(j) == g.dealers && r.Established(j)
    {
      AllAreKept(g, fetchedKeys, j);
      AllAreEstablished(g, fetchedKeys, j);
    }
    DistinctDealers(g);
    NonemptyMap(r.views);
    ValidWhen(r, g.dealers);
  }

  lemma NonemptyMap<K, V>(m: map<K, V>)
    requires m.Keys != {}
    ensures m != map[]
  {
  }

  lemma ValidWhen(r: NodeRound, ds: seq<Address>)
    requires r.operators != [] && DistinctPoints(r.operators) && Distinct(r.agreed.dealers) && r.views != map[]
    requires forall d :: d in r.agreed.dealers ==> d in r.operators
    requires forall j :: j in r.views ==> j in r.operators && r.Kept(j) == ds && r.Established(j)
    ensures r.Valid() && r.OneList()
  {
    hide SV.KeptDealers, DistinctPoints, Distinct, r.Established, r.Kept;
  }

  lemma RoundIsFinalize(s: State, e: Cluster.Event) returns (r: NodeRound)
    requires e.Round? && RoundAllowed(s, e)
    ensures NodesFinalize(s, r) && Happens(s, Finalize(r)) == Step(s, e)
  {
    r := RoundOf(e.dealing, e.fetchedKeys);
    FitsRound(s, e);
    RoundShape(e.dealing, e.fetchedKeys);
    RoundIsValid(e.dealing, e.fetchedKeys);
    hide *;
    NodesFinalizeWhen(s, e, r);
    SameOutcome(s, e, r);
  }

  lemma NodesFinalizeWhen(s: State, e: Cluster.Event, r: NodeRound)
    requires e.Round? && RoundAllowed(s, e) && r.Valid() && r.OneList()
    requires r.version == e.dealing.version && r.fetchedKeys == e.fetchedKeys && r.views.Keys == e.dealing.finalizers
    requires forall j :: j in e.dealing.finalizers && IsExisting(s, j) ==>
               MpkAccepted(r.Kept(j), r.views[j].commitments, CarriedKey(s, j))
    ensures NodesFinalize(s, r)
  {
    hide MpkAccepted, CarriedKey, IsExisting, r.Kept, r.Valid, r.OneList, e.dealing.Verified;
  }

  lemma SameOutcome(s: State, e: Cluster.Event, r: NodeRound)
    requires e.Round? && RoundAllowed(s, e) && NodesFinalize(s, r)
    requires r.version == e.dealing.version && r.views.Keys == e.dealing.finalizers
    requires forall j :: j in e.dealing.finalizers ==> j in e.dealing.shares && StoredBy(s, r, j) == NewHolding(s, e, j)
    ensures Happens(s, Finalize(r)) == Step(s, e)
  {
    hide NodesFinalize, RoundAllowed, StoredBy, NewHolding, Store;
  }

  /** Every node reaches the verdict and the holding of the cluster's round. */
  lemma FitsRound(s: State, e: Cluster.Event)
    requires e.Round? && RoundAllowed(s, e)
    ensures e.dealing.finalizers != {}
    ensures var r := RoundOf(e.dealing, e.fetchedKeys);
            forall j :: j in e.dealing.finalizers ==>
              && j in r.views && j in e.dealing.shares && StoredBy(s, r, j) == NewHolding(s, e, j)
              && (IsExisting(s, j) ==> MpkAccepted(r.Kept(j), r.views[j].commitments, CarriedKey(s, j)))
  {
    var g, r := e.dealing, RoundOf(e.dealing, e.fetchedKeys);
    hide Opens, DistinctPoints, MpkAccepted, CarriedKey, IsExisting, RoundOf, SV.KeptDealers, StoredBy, NewHolding;
    RoundShape(g, e.fetchedKeys);
    forall j | j in g.finalizers
      ensures StoredBy(s, r, j) == NewHolding(s, e, j)
      ensures IsExisting(s, j) ==> MpkAccepted(r.Kept(j), r.views[j].commitments, CarriedKey(s, j))
    {
      AllAreKept(g, e.fetchedKeys, j);
      SameTermsSameVerdict(g.dealers, r.views[j].commitments, g.commitments, CarriedKey(s, j));
      SameHolding(s, e, r, j);
    }
  }

  lemma SameHolding(s: State, e: Cluster.Event, r: NodeRound, j: Address)
    requires e.Round? && j in e.dealing.shares && j in r.views && r.fetchedKeys == e.fetchedKeys
    requires r.Kept(j) == e.dealing.dealers && r.views[j].shares == e.dealing.shares[j]
    ensures StoredBy(s, r, j) == NewHolding(s, e, j)
  {
    hide Red, AtZeroZ, SV.KeptDealers, CarriedKey;
  }

  lemma DistinctDealers(g: Dealing)
    requires g.Verified()
    ensures Distinct(g.dealers)
  {
  }

  /** With NodeRunIsRun: the nodes and the cluster reach the same states. */
  lemma {:induction false} RunIsNodeRun(g: Dealing, s0: State, cs: seq<Cluster.Event>) returns (es: seq<NodeEvent>)
    requires IsRun(g, s0, cs)
    ensures |es| == |cs| && IsNodeRun(g, s0, es) && AfterNodes(g, s0, es) == After(g, s0, cs)
    decreases |cs|
  {
    hide Step, RoundAllowed, Happens, NodesFinalize, Generates;
    if cs == [] {
      es := [];
    } else {
      var front, c := cs[..|cs| - 1], cs[|cs| - 1];
      var before := RunIsNodeRun(g, s0, front);
      var e := StepIsNodeStep(After(g, s0, front), c);
      es := before + [e];
      assert es[..|es| - 1] == before;
    }
  }

  lemma StepIsNodeStep(s: State, c: Cluster.Event) returns (e: NodeEvent)
    requires Allowed(s, c)
    ensures Possible(s, e) && Happens(s, e) == Step(s, c)
  {
    hide RoundAllowed, NodesFinalize, Store, StoredBy, NewHolding;
    match c
    case Round(_, _) =>
      var r := RoundIsFinalize(s, c);
      e := Finalize(r);
    case Reactivate(a, v) =>
      e := Repoint(a, v);
  }

  // Key generation: one list, one vector per dealer ----------------------------------------------

  /** A key generation has no agreed dealer list either: two nodes' lists give the same polynomial on every dealing
      exactly when they list the same dealers. */
  lemma SameGenerationIffSameDealers(d1: seq<Address>, d2: seq<Address>, t: nat)
    requires t > 0 && Distinct(d1) && Distinct(d2)
    ensures (forall dealt :: DealtWith(d1, dealt, t) && DealtWith(d2, dealt, t) ==>
               Combine(d1, One(), dealt, t) == Combine(d2, One(), dealt, t)) <==>
            ToSet(d1) == ToSet(d2)
  {
    hide Red, Combine;
    if ToSet(d1) == ToSet(d2) {
      forall dealt | DealtWith(d1, dealt, t) && DealtWith(d2, dealt, t)
        ensures Combine(d1, One(), dealt, t) == Combine(d2, One(), dealt, t)
      {
        GeneratedAnyOrder(d1, d2, dealt, t);
      }
    } else {
      var x := InOnlyOne(d1, d2);
      var dealt := map d | d in ToSet(d1) + ToSet(d2) :: [if d == x then 1 else 0] + Zero(t - 1);
      OnlyXDeals(d1, x, dealt, t);
      OnlyXDeals(d2, x, dealt, t);
      OneNotZero();
      RedElem(0);
    }
  }

  lemma GeneratedAnyOrder(d1: seq<Address>, d2: seq<Address>, dealt: map<Address, Poly>, t: nat)
    requires Distinct(d1) && Distinct(d2) && ToSet(d1) == ToSet(d2)
    requires DealtWith(d1, dealt, t) && DealtWith(d2, dealt, t)
    ensures Combine(d1, One(), dealt, t) == Combine(d2, One(), dealt, t)
  {
    hide Red, Distinct;
    var p, q := Combine(d1, One(), dealt, t), Combine(d2, One(), dealt, t);
    SameMembers(d1, d2);
    forall k | 0 <= k < t
      ensures p[k] == q[k]
    {
      var h := (a: Address) => if a in dealt && k < |dealt[a]| then dealt[a][k] else 0;
      CombineCoefficient(d1, One(), dealt, t, k, h);
      CombineCoefficient(d2, One(), dealt, t, k, h);
      SumAnyOrder(d1, d2, ToSet(d1), h);
      CongElems(p[k], q[k]);
    }
  }

  lemma OnlyXDeals(ds: seq<Address>, x: Address, dealt: map<Address, Poly>, t: nat)
    requires t > 0 && Distinct(ds) && DealtWith(ds, dealt, t)
    requires forall d :: d in ds ==> dealt[d][0] == if d == x then 1 else 0
    ensures Cong(Combine(ds, One(), dealt, t)[0], if x in ds then 1 else 0)
  {
    hide Red;
    var h := (a: Address) => if a == x then 1 else 0;
    CombineCoefficient(ds, One(), dealt, t, 0, h);
    SumOfOne(ds, x, h);
  }

  /** Nothing in a key generation compares the vectors that a dealer sent to different nodes. If dealer x sends two
      nodes different vectors, and each verifies its share against its own, their polynomials agree exactly in the
      coefficients in which the vectors agree: in particular the cached keys are equal as soon as the first entries
      are, although the shares then belong to different polynomials. */
  lemma EquivocationSplitsIff(ds: seq<Address>, x: Address, c1: map<Address, Poly>, c2: map<Address, Poly>, t: nat,
                              k: nat)
    requires Distinct(ds) && x in ds && k < t && DealtWith(ds, c1, t) && DealtWith(ds, c2, t)
    requires forall d :: d in ds && d != x ==> c1[d] == c2[d]
    ensures Combine(ds, One(), c1, t)[k] == Combine(ds, One(), c2, t)[k] <==> c1[x][k] == c2[x][k]
  {
    hide Red;
    var p, q := Combine(ds, One(), c1, t), Combine(ds, One(), c2, t);
    var f := (a: Address) => if a in c1 && k < |c1[a]| then c1[a][k] else 0;
    var g := (a: Address) => if a in c2 && k < |c2[a]| then c2[a][k] else 0;
    CombineCoefficient(ds, One(), c1, t, k, f);
    CombineCoefficient(ds, One(), c2, t, k, g);
    var m :| 0 <= m < |ds| && ds[m] == x;
    SumWithout(ds, m, f);
    SumWithout(ds, m, g);
    var rest := Without(ds, m);
    forall a | a in rest
      ensures f(a) == g(a)
    {
      var i :| 0 <= i < |rest| && rest[i] == a;
      assert a == ds[if i < m then i else i + 1];
      assert a in ds && a != x;
    }
    SumEqual(rest, f, g);
    CongElems(p[k], q[k]);
    CongElems(c1[x][k], c2[x][k]);
    OneTermApart(p[k], q[k], c1[x][k], c2[x][k], SumZ(rest, f));
  }

  lemma OneTermApart(p: int, q: int, u: int, v: int, rest: int)
    requires Cong(p, u + rest) && Cong(q, v + rest)
    ensures Cong(p, q) <==> Cong(u, v)
  {
    hide Red;
    if Cong(p, q) {
      CongSub(u + rest, v + rest, rest, rest);
    }
    if Cong(u, v) {
      CongAdd(u, v, rest, rest);
    }
  }
}
