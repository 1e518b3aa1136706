/** Rounds in which everybody follows the protocol can always be finalized: the hypotheses of the conservation
    results are met by runs of every length. */
module HonestRuns {
  import opened Results
  import opened PrimeField
  import opened Addresses
  import opened Lists
  import opened Interpolation
  import opened Combination
  import opened Curve
  import opened Polynomials
  import opened Dkg
  import opened Resharing
  import opened Cluster
  import opened ClusterConsequences
  import opened OperatorSets
  import opened Divergence

  /** The listed dealers deal the given polynomials to all operators, and all operators finalize. */
  function HonestDealing(version: int, operators: seq<Address>, dealers: seq<Address>, dealt: map<Address, Poly>): Dealing {
    Dealing(version, operators, dealers, Commitments(dealt),
            map j | j in operators :: map d | d in dealers && d in dealt :: EvalAt(dealt[d], j),
            ToSet(operators))
  }

  lemma HonestIsVerified(version: int, operators: seq<Address>, dealers: seq<Address>, dealt: map<Address, Poly>)
    requires operators != [] && DistinctPoints(operators) && DistinctPoints(dealers)
    requires (forall d :: d in dealers ==> d in operators) && |dealers| >= CalculateThreshold(|operators|)
    requires DealtWith(dealers, dealt, CalculateThreshold(|operators|))
    ensures HonestDealing(version, operators, dealers, dealt).Verified()
  {
    hide EvalAt;
  }

  /** AN HONEST ROUND IS ALWAYS ALLOWED. In any state that conserves a secret, if at least a threshold of the holders
      of one version deal from their stored shares, with any other coefficients, every operator of the new set can
      finalize: no existing operator's check aborts the round. */
  lemma HonestRoundIsAllowed(s: State, secret: Elem, h: History, v: int, version: int, operators: seq<Address>,
                             dealers: seq<Address>, dealt: map<Address, Poly>, fetchedKeys: map<Address, G2Point>)
    requires Conserves(s, secret, h) && v in h && Holders(s, v, dealers)
    requires operators != [] && DistinctPoints(operators) && DistinctPoints(dealers)
    requires forall d :: d in dealers ==> d in operators
    requires |dealers| >= CalculateThreshold(|operators|) && |dealers| >= CalculateThreshold(|h[v].operators|)
    requires DealtWith(dealers, dealt, CalculateThreshold(|operators|))
    requires forall d :: d in dealers ==> dealt[d][0] == s[d].versions[v].share
    requires forall a :: a in s ==> version !in s[a].versions
    requires forall j :: j in operators && IsExisting(s, j) ==> CarriedKey(s, j).Some?
    requires exists j :: j in operators && IsExisting(s, j)
    requires forall j :: j in fetchedKeys ==> exists a :: a in s && CarriedKey(s, a) == Some(fetchedKeys[j])
    ensures RoundAllowed(s, Cluster.Round(HonestDealing(version, operators, dealers, dealt), fetchedKeys))
  {
    hide EvalAt, MpkAccepted, DistinctPoints, CarriedKey, Conserves;
    var g := HonestDealing(version, operators, dealers, dealt);
    HonestIsVerified(version, operators, dealers, dealt);
    forall j | j in g.finalizers && IsExisting(s, j)
      ensures MpkAccepted(g.dealers, g.commitments, CarriedKey(s, j))
    {
      HonestDealersAreAccepted(s, secret, h, v, dealers, g.commitments, j);
    }
    var j :| j in operators && IsExisting(s, j);
    assert j in g.finalizers;
  }

  /** Everybody deals this constant term and zeros. */
  function Constants(dealers: seq<Address>, c: Address -> Elem, t: nat): (dealt: map<Address, Poly>)
    requires t > 0
    ensures DealtWith(dealers, dealt, t) && forall d :: d in dealers ==> dealt[d][0] == c(d)
  {
    map d | d in dealers :: [c(d)] + Zero(t - 1)
  }

  function Generated(g: Dealing): State
    requires g.Verified()
  {
    map j | j in g.finalizers ::
      Node(map[g.version := Holding(Red(SumZ(g.dealers, Values(g.shares[j]))),
                                    Some(G2Point(Red(ContributionZ(Vectors(g), g.Threshold(), 0)))))],
           Some(g.version))
  }

  /** An active node that knows the key, with no version above v. */
  predicate Ready(n: Node, v: int) {
    && n.active.Some? && n.active.value in n.versions && n.versions[n.active.value].mpk.Some?
    && forall w :: w in n.versions ==> w <= v
  }

  /** The committee is active on version v; everybody, also those who left, is ready. */
  ghost predicate Current(s: State, committee: seq<Address>, v: int) {
    && (forall a :: a in s ==> Ready(s[a], v))
    && (forall a :: a in committee ==> a in s && s[a].active == Some(v))
  }

  /** Enough members of c stay in d to reach both thresholds. */
  ghost predicate CanHandOver(c: seq<Address>, d: seq<Address>) {
    && c != [] && DistinctPoints(c) && d != [] && DistinctPoints(d)
    && |ExpectedDealers(d, c)| >= CalculateThreshold(|c|) && |ExpectedDealers(d, c)| >= CalculateThreshold(|d|)
  }

  function SharesOf(s: State, v: int): Address -> Elem {
    (a: Address) => if a in s && v in s[a].versions then s[a].versions[v].share else 0
  }

  /** The expected dealers deal their shares of v; joiners fetch the key of c's first member. */
  function HandOver(s: State, c: seq<Address>, d: seq<Address>, v: int): Cluster.Event
    requires c != [] && d != []
  {
    var dealers := ExpectedDealers(d, c);
    var key := CarriedKey(s, c[0]);
    Cluster.Round(HonestDealing(v + 1, d, dealers, Constants(dealers, SharesOf(s, v), CalculateThreshold(|d|))),
                  map j | j in d && !IsExisting(s, j) && key.Some? :: key.value)
  }

  lemma ExpectedStay(c: seq<Address>, d: seq<Address>)
    requires CanHandOver(c, d)
    ensures var ds := ExpectedDealers(d, c);
            DistinctPoints(ds) && ds != [] && forall a :: a in ds ==> a in c && a in d
  {
    FilterDistinct(d, In(ToSet(c)));
    PointsOfSome(ExpectedDealers(d, c), d);
  }

  lemma HandOverIsAllowed(s: State, secret: Elem, h: History, c: seq<Address>, d: seq<Address>, v: int)
    requires Conserves(s, secret, h) && CanHandOver(c, d) && Current(s, c, v)
    requires v in h && h[v].operators == c
    ensures RoundAllowed(s, HandOver(s, c, d, v))
  {
    hide Conserves, RoundAllowed, DistinctPoints, HonestDealing, ExpectedDealers, Constants;
    var dealers := ExpectedDealers(d, c);
    var e := HandOver(s, c, d, v);
    ExpectedStay(c, d);
    assert dealers[0] in dealers && c[0] in c;
    assert forall a :: a in dealers ==> SharesOf(s, v)(a) == s[a].versions[v].share;
    HonestRoundIsAllowed(s, secret, h, v, v + 1, d, dealers,
                         Constants(dealers, SharesOf(s, v), CalculateThreshold(|d|)), e.fetchedKeys);
  }

  lemma HandOverIsCurrent(s: State, c: seq<Address>, d: seq<Address>, v: int)
    requires c != [] && d != [] && Current(s, c, v) && RoundAllowed(s, HandOver(s, c, d, v))
    ensures Current(Step(s, HandOver(s, c, d, v)), d, v + 1)
  {
    var e := HandOver(s, c, d, v);
    hide Store, NewHolding, Ready, RoundAllowed;
    HandOverShape(s, c, d, v);
    forall a | a in d
      ensures Ready(Store(s, a, v + 1, NewHolding(s, e, a)), v + 1)
      ensures Store(s, a, v + 1, NewHolding(s, e, a)).active == Some(v + 1)
    {
      StoredIsReady(s, e, a, v);
    }
    forall a | a in s
      ensures Ready(s[a], v + 1)
    {
      StaysReady(s[a], v);
    }
    RoundIsCurrent(s, e, d, v);
  }

  lemma HandOverShape(s: State, c: seq<Address>, d: seq<Address>, v: int)
    requires c != [] && d != [] && Current(s, c, v) && RoundAllowed(s, HandOver(s, c, d, v))
    ensures var e := HandOver(s, c, d, v);
            && e.Round? && e.dealing.version == v + 1 && e.dealing.finalizers == ToSet(d)
            && forall a :: a in d ==> a in e.dealing.shares && (!IsExisting(s, a) ==> a in e.fetchedKeys)
  {
    hide Constants, ExpectedDealers;
    assert c[0] in c && Ready(s[c[0]], v);
  }

  lemma RoundIsCurrent(s: State, e: Cluster.Event, d: seq<Address>, v: int)
    requires e.Round? && RoundAllowed(s, e) && e.dealing.version == v + 1 && e.dealing.finalizers == ToSet(d)
    requires forall a :: a in s ==> Ready(s[a], v + 1)
    requires forall a :: a in d ==> a in e.dealing.shares && Ready(Store(s, a, v + 1, NewHolding(s, e, a)), v + 1) &&
                                    Store(s, a, v + 1, NewHolding(s, e, a)).active == Some(v + 1)
    ensures Current(Step(s, e), d, v + 1)
  {
    hide Store, NewHolding, Ready, RoundAllowed;
  }

  lemma StaysReady(n: Node, v: int)
    requires Ready(n, v)
    ensures Ready(n, v + 1)
  {
  }

  lemma StoredIsReady(s: State, e: Cluster.Event, a: Address, v: int)
    requires e.Round? && a in e.dealing.shares && (a in s ==> Ready(s[a], v))
    requires !IsExisting(s, a) ==> a in e.fetchedKeys
    ensures var n := Store(s, a, v + 1, NewHolding(s, e, a)); Ready(n, v + 1) && n.active == Some(v + 1)
  {
    hide Red, AtZeroZ;
  }

  lemma GeneratedIsCurrent(g: Dealing)
    requires g.Verified() && g.finalizers == ToSet(g.operators)
    ensures Generates(g, Generated(g)) && Current(Generated(g), g.operators, g.version)
  {
    hide Opens, DistinctPoints, Red, SumZ, ContributionZ;
  }

  /** The first operator brings the secret, the others zeros. */
  function FirstDealing(operators: seq<Address>, secret: Elem): Dealing
    requires operators != []
  {
    var c := (a: Address) => if a == operators[0] then secret else 0;
    HonestDealing(0, operators, operators, Constants(operators, c, CalculateThreshold(|operators|)))
  }

  lemma FirstSecret(operators: seq<Address>, secret: Elem)
    requires operators != [] && DistinctPoints(operators)
    ensures SecretOf(FirstDealing(operators, secret)) == secret
  {
    hide Red, EvalAt;
    var g, t := FirstDealing(operators, secret), CalculateThreshold(|operators|);
    var h := (a: Address) => if a == operators[0] then secret as int else 0;
    assert DealtWith(operators, g.Dealt(), t) && operators[0] in operators;
    assert forall d :: d in operators ==> g.Dealt()[d][0] == h(d);
    CombineCoefficient(operators, One(), g.Dealt(), t, 0, h);
    assert Distinct(operators);
    SumOfOne(operators, operators[0], h);
    CongElems(GeneratedPoly(g)[0], secret);
  }

  lemma FirstRun(operators: seq<Address>, secret: Elem) returns (g: Dealing, s0: State)
    requires operators != [] && DistinctPoints(operators)
    ensures IsRun(g, s0, []) && Current(After(g, s0, []), operators, 0) && SecretOf(g) == secret
    ensures 0 in HistoryOf(g, []) && HistoryOf(g, [])[0].operators == operators
  {
    hide EvalAt, DistinctPoints, Current, Generates, Generated, GeneratedPoly, DealtWith, Constants, Commitments, SecretOf;
    g := FirstDealing(operators, secret);
    FirstSecret(operators, secret);
    var c := (a: Address) => if a == operators[0] then secret else 0;
    HonestIsVerified(0, operators, operators, Constants(operators, c, CalculateThreshold(|operators|)));
    s0 := Generated(g);
    GeneratedIsCurrent(g);
  }

  lemma ExtendedRun(g: Dealing, s0: State, front: seq<Cluster.Event>, e: Cluster.Event)
    requires IsRun(g, s0, front) && Allowed(After(g, s0, front), e) && e.Round?
    ensures var es := front + [e];
            && IsRun(g, s0, es) && After(g, s0, es) == Step(After(g, s0, front), e)
            && HistoryOf(g, es) == HistoryOf(g, front)[e.dealing.version := SharingOf(e.dealing)]
  {
    hide Step, Allowed, SharingOf, Generates;
    assert (front + [e])[..|front|] == front;
  }

  /** The rounds hand over from each committee to the next. */
  ghost predicate Follows(es: seq<Cluster.Event>, committees: seq<seq<Address>>) {
    && |committees| == |es| + 1
    && forall i :: 0 <= i < |es| ==> es[i].Round? && es[i].dealing.operators == committees[i + 1]
                                     && es[i].dealing.dealers == ExpectedDealers(committees[i + 1], committees[i])
  }

  /** Every member of every committee so far holds that committee's version. */
  ghost predicate AllHeld(s: State, h: History, committees: seq<seq<Address>>) {
    forall i :: 0 <= i < |committees| ==>
      && i in h && h[i].operators == committees[i]
      && forall a :: a in committees[i] ==> a in s && i in s[a].versions
  }

  lemma FirstHeld(s: State, h: History, committees: seq<seq<Address>>)
    requires |committees| == 1 && Current(s, committees[0], 0) && 0 in h && h[0].operators == committees[0]
    ensures AllHeld(s, h, committees)
  {
  }

  lemma MoreHeld(s: State, h: History, t: State, h2: History, committees: seq<seq<Address>>)
    requires committees != [] && Keeps(s, t)
    requires var n := |committees| - 1;
             && AllHeld(s, h, committees[..n]) && Current(t, committees[n], n)
             && n in h2 && h2[n].operators == committees[n]
             && forall i :: i in h && i != n ==> i in h2 && h2[i] == h[i]
    ensures AllHeld(t, h2, committees)
  {
    var n := |committees| - 1;
    forall i | 0 <= i < n
      ensures i in h2 && h2[i].operators == committees[i]
      ensures forall a :: a in committees[i] ==> a in t && i in t[a].versions
    {
      assert committees[..n][i] == committees[i];
    }
    assert forall a :: a in committees[n] ==> Ready(t[a], n);
  }

  /** RUNS EXIST. For every secret and every sequence of committees in which enough members stay from each to the
      next, there is a run that generates the secret and hands it over through all of them; at its end every member
      of every committee still holds that committee's version. */
  lemma {:induction false} RunsThroughCommittees(committees: seq<seq<Address>>, secret: Elem)
    returns (g: Dealing, s0: State, es: seq<Cluster.Event>)
    requires committees != [] && committees[0] != [] && DistinctPoints(committees[0])
    requires forall i :: 0 <= i < |committees| - 1 ==> CanHandOver(committees[i], committees[i + 1])
    ensures IsRun(g, s0, es) && SecretOf(g) == secret && Follows(es, committees)
    ensures var n := |es|;
            && Current(After(g, s0, es), committees[n], n)
            && n in HistoryOf(g, es) && HistoryOf(g, es)[n].operators == committees[n]
            && AllHeld(After(g, s0, es), HistoryOf(g, es), committees)
    decreases |committees|
  {
    hide IsRun, After, SecretOf, HistoryOf, Current, CanHandOver, DistinctPoints, Follows, AllHeld, Keeps;
    if |committees| == 1 {
      es := [];
      g, s0 := FirstRun(committees[0], secret);
      NothingFollows(committees);
      FirstHeld(After(g, s0, es), HistoryOf(g, es), committees);
    } else {
      var n := |committees| - 1;
      var front;
      g, s0, front := RunsThroughCommittees(committees[..n], secret);
      FollowsLength(front, committees[..n]);
      var e := LongerRun(g, s0, front, committees[n - 1], committees[n], n - 1);
      es := front + [e];
      FollowsMore(front, e, committees);
      MoreHeld(After(g, s0, front), HistoryOf(g, front), After(g, s0, es), HistoryOf(g, es), committees);
    }
  }

  lemma NothingFollows(committees: seq<seq<Address>>)
    requires |committees| == 1
    ensures Follows([], committees)
  {
  }

  lemma FollowsLength(es: seq<Cluster.Event>, committees: seq<seq<Address>>)
    requires Follows(es, committees)
    ensures |committees| == |es| + 1
  {
  }

  lemma FollowsMore(front: seq<Cluster.Event>, e: Cluster.Event, committees: seq<seq<Address>>)
    requires |committees| >= 2
    requires var n := |committees| - 1;
             && Follows(front, committees[..n]) && e.Round? && e.dealing.operators == committees[n]
             && e.dealing.dealers == ExpectedDealers(committees[n], committees[n - 1])
    ensures Follows(front + [e], committees)
  {
    hide ExpectedDealers;
  }

  lemma LongerRun(g: Dealing, s0: State, front: seq<Cluster.Event>, c: seq<Address>, d: seq<Address>, v: int)
    returns (e: Cluster.Event)
    requires IsRun(g, s0, front) && CanHandOver(c, d) && Current(After(g, s0, front), c, v)
    requires v in HistoryOf(g, front) && HistoryOf(g, front)[v].operators == c
    ensures e.Round? && e.dealing.operators == d && e.dealing.dealers == ExpectedDealers(d, c)
    ensures var es := front + [e];
            && IsRun(g, s0, es) && Current(After(g, s0, es), d, v + 1)
            && v + 1 in HistoryOf(g, es) && HistoryOf(g, es)[v + 1].operators == d
            && Keeps(After(g, s0, front), After(g, s0, es))
            && forall i :: i in HistoryOf(g, front) && i != v + 1 ==> i in HistoryOf(g, es) && HistoryOf(g, es)[i] == HistoryOf(g, front)[i]
  {
    hide IsRun, After, HistoryOf, DistinctPoints, Step, RoundAllowed, Current, Conserves, SecretOf, Constants, Commitments,
         ExpectedDealers;
    var s := After(g, s0, front);
    e := HandOver(s, c, d, v);
    RunConservesSecret(g, s0, front);
    HandOverIsAllowed(s, SecretOf(g), HistoryOf(g, front), c, d, v);
    HandOverIsCurrent(s, c, d, v);
    ExtendedRun(g, s0, front, e);
    StepKeeps(s, e);
  }

  /** In particular any number of rounds over one operator set, for any secret. */
  lemma RunsOfEveryLength(operators: seq<Address>, n: nat, secret: Elem)
    returns (g: Dealing, s0: State, es: seq<Cluster.Event>)
    requires operators != [] && DistinctPoints(operators)
    ensures IsRun(g, s0, es) && |es| == n && SecretOf(g) == secret && forall i :: 0 <= i < n ==> es[i].Round?
    ensures Current(After(g, s0, es), operators, n)
    ensures n in HistoryOf(g, es) && HistoryOf(g, es)[n].operators == operators
  {
    hide IsRun, After, SecretOf, HistoryOf, Current, DistinctPoints;
    var committees := seq(n + 1, i => operators);
    FilterAll(operators, In(ToSet(operators)));
    g, s0, es := RunsThroughCommittees(committees, secret);
  }
}
