/** Agreement on the dealer set: resolveCutoffL2 and deriveAgreedDealerSet of pkg/node/node.go over the block
    lookup of pkg/contractCaller/caller/blockLookup.go. Time is counted in reads: every read of a node is one
    tick, sees some prefix of the chains, and may fail. */
module DealerAgreement {
  import opened Results
  import opened Addresses
  import opened SourceVersions
  import opened Dkg
  import opened Lists
  import opened OperatorSets

  // The shared chains -------------------------------------------------------------------------

  /** An L2 block: its timestamp and the commitment hashes of this epoch registered up to it. */
  datatype Block = Block(timestamp: nat, registry: map<Address, Digest>)

  /** The append-only chains, as far as they ever grow: L1 header timestamps and L2 blocks. */
  datatype Chains = Chains(l1: seq<nat>, l2: seq<Block>) {
    ghost predicate Valid() {
      && l2 != []
      && forall i, j :: 0 <= i <= j < |l2| ==> l2[i].timestamp <= l2[j].timestamp
    }
  }

  /** The all-zero hash: nothing submitted. */
  const ZERO_HASH := Digest(0)

  /** GetCommitmentAt, when it can be read. */
  function HashAt(b: Block, dealer: Address): Digest {
    if dealer in b.registry then b.registry[dealer] else ZERO_HASH
  }

  // What is agreed, as a function of the chains alone -----------------------------------------

  /** The lowest block from `from` on whose timestamp reaches the target. */
  function FirstFrom(l2: seq<Block>, target: nat, from: nat): (r: Option<nat>)
    ensures r.Some? ==> from <= r.value < |l2| && l2[r.value].timestamp >= target
    ensures forall k :: from <= k < (if r.Some? then r.value else |l2|) ==> l2[k].timestamp < target
    decreases |l2| - from
  {
    if from >= |l2| then None
    else if l2[from].timestamp >= target then Some(from)
    else FirstFrom(l2, target, from + 1)
  }

  /** The L2 cutoff: the first block after genesis not older than the L1 deadline block. */
  function Cutoff(c: Chains, deadlineL1: nat): Option<nat> {
    if deadlineL1 >= |c.l1| then None else FirstFrom(c.l2, c.l1[deadlineL1], 1)
  }

  function SubmittedIn(b: Block): Address -> bool { (d: Address) => HashAt(b, d) != ZERO_HASH }

  /** The expected dealers that had submitted by a block, in the expected order. */
  function Submitters(b: Block, expected: seq<Address>): (r: seq<Address>)
    ensures forall d :: d in r <==> d in expected && HashAt(b, d) != ZERO_HASH
  {
    Filter(expected, SubmittedIn(b))
  }

  function Hashes(b: Block, dealers: seq<Address>): map<Address, Digest> {
    map d | d in dealers :: HashAt(b, d)
  }

  datatype Agreed = Agreed(dealers: seq<Address>, hashes: map<Address, Digest>)

  /** The dealer list and hashes of a round. */
  function Agreement(c: Chains, deadlineL1: nat, expected: seq<Address>): Option<Agreed> {
    match Cutoff(c, deadlineL1)
    case None => None
    case Some(k) => var b := c.l2[k]; Some(Agreed(Submitters(b, expected), Hashes(b, Submitters(b, expected))))
  }

  /** The cutoff in its own terms: the deadline block exists, and k is the first block after genesis whose timestamp
      is not below the deadline block's. */
  lemma CutoffIff(c: Chains, deadlineL1: nat, k: nat)
    ensures Cutoff(c, deadlineL1) == Some(k) <==>
            && deadlineL1 < |c.l1| && 1 <= k < |c.l2| && c.l2[k].timestamp >= c.l1[deadlineL1]
            && forall i :: 1 <= i < k ==> c.l2[i].timestamp < c.l1[deadlineL1]
  {
  }

  /** What is agreed, on the registry itself: an expected dealer is listed exactly when a nonzero hash is registered
      for it at the cutoff, in expected order, and the hash handed on is the registered one. */
  ghost predicate FromRegistry(x: Agreed, registry: map<Address, Digest>, expected: seq<Address>) {
    && x.dealers == Filter(expected, (d: Address) => d in registry && registry[d] != ZERO_HASH)
    && x.hashes.Keys == ToSet(x.dealers)
    && forall d :: d in x.dealers ==> d in registry && registry[d] != ZERO_HASH && x.hashes[d] == registry[d]
  }

  lemma AgreedFromRegistry(b: Block, expected: seq<Address>)
    ensures FromRegistry(Agreed(Submitters(b, expected), Hashes(b, Submitters(b, expected))), b.registry, expected)
  {
    FilterSame(expected, SubmittedIn(b), (d: Address) => d in b.registry && b.registry[d] != ZERO_HASH);
  }

  lemma AgreementFromRegistry(c: Chains, deadlineL1: nat, expected: seq<Address>)
    ensures Agreement(c, deadlineL1, expected).Some? <==> Cutoff(c, deadlineL1).Some?
    ensures Cutoff(c, deadlineL1).Some? ==>
              FromRegistry(Agreement(c, deadlineL1, expected).value, c.l2[Cutoff(c, deadlineL1).value].registry, expected)
  {
    hide FromRegistry, Submitters, Hashes;
    if Cutoff(c, deadlineL1).Some? {
      AgreedFromRegistry(c.l2[Cutoff(c, deadlineL1).value], expected);
    }
  }

  ghost predicate Grows(c: Chains, d: Chains) {
    c.l1 <= d.l1 && c.l2 <= d.l2
  }

  lemma {:induction false} FirstFromGrows(a: seq<Block>, b: seq<Block>, target: nat, from: nat)
    requires a <= b && FirstFrom(a, target, from).Some?
    ensures FirstFrom(b, target, from) == FirstFrom(a, target, from)
    decreases |a| - from
  {
    if a[from].timestamp < target {
      FirstFromGrows(a, b, target, from + 1);
    }
  }

  /** The cutoff, once defined, never changes as the chains grow, and neither does the agreed set. */
  lemma AgreementNeverChanges(c: Chains, d: Chains, deadlineL1: nat, expected: seq<Address>)
    requires Grows(c, d) && Cutoff(c, deadlineL1).Some?
    ensures Cutoff(d, deadlineL1) == Cutoff(c, deadlineL1)
    ensures Agreement(d, deadlineL1, expected) == Agreement(c, deadlineL1, expected)
  {
    FirstFromGrows(c.l2, d.l2, c.l1[deadlineL1], 1);
  }

  // One node's view of the chains -------------------------------------------------------------

  /** What one read sees: whether it fails, and the current heads. */
  datatype Sight = Sight(fails: bool, l1Head: nat, l2Head: nat)

  /** The two chain clients of a node and its clock. */
  class ChainReader {
    const chains: Chains
    const sights: nat -> Sight
    var now: nat

    ghost predicate Valid() {
      && chains.Valid() && |chains.l1| > 0
      && forall t :: sights(t).l1Head < |chains.l1| && sights(t).l2Head < |chains.l2|
    }

    /** From tick t on nothing fails and the L2 head is past the block. */
    ghost predicate ReadableFrom(t: nat, block: nat) {
      forall u: nat :: u >= t ==> !sights(u).fails && block <= sights(u).l2Head
    }

    /** Everything the round needs is readable from tick t on, and the L2 head never goes back. */
    ghost predicate SettledFrom(t: nat, deadlineL1: nat) {
      && Cutoff(chains, deadlineL1).Some? && ReadableFrom(t, Cutoff(chains, deadlineL1).value)
      && (forall u: nat :: u >= t ==> sights(u).l1Head >= deadlineL1)
      && HeadAdvances()
    }

    ghost predicate SettlesBefore(deadline: nat, deadlineL1: nat) {
      exists t: nat :: t < deadline && SettledFrom(t, deadlineL1)
    }

    ghost predicate HeadAdvances() {
      forall u: nat, v: nat :: u <= v ==> sights(u).l2Head <= sights(v).l2Head
    }

    constructor (chains: Chains, sights: nat -> Sight, now: nat)
      ensures this.chains == chains && this.sights == sights && this.now == now
    {
      this.chains, this.sights, this.now := chains, sights, now;
    }

    /** HeaderTimestampAt on the L1 client; block number 0 reads the head. */
    method L1TimestampAt(blockNumber: nat) returns (r: Result<nat>)
      requires Valid()
      modifies `now
      ensures now == old(now) + 1
      ensures var s := sights(old(now)); var n := if blockNumber == 0 then s.l1Head else blockNumber;
              if s.fails || n > s.l1Head then r.Err? else r == Ok(chains.l1[n])
    {
      var s := sights(now);
      now := now + 1;
      var n := if blockNumber == 0 then s.l1Head else blockNumber;
      if s.fails || n > s.l1Head {
        return Err("failed to fetch header");
      }
      return Ok(chains.l1[n]);
    }

    /** HeaderTimestampAt on the L2 client. */
    method L2TimestampAt(blockNumber: nat) returns (r: Result<nat>)
      requires Valid()
      modifies `now
      ensures now == old(now) + 1
      ensures var s := sights(old(now)); var n := if blockNumber == 0 then s.l2Head else blockNumber;
              if s.fails || n > s.l2Head then r.Err? else r == Ok(chains.l2[n].timestamp)
    {
      var s := sights(now);
      now := now + 1;
      var n := if blockNumber == 0 then s.l2Head else blockNumber;
      if s.fails || n > s.l2Head {
        return Err("failed to fetch header");
      }
      return Ok(chains.l2[n].timestamp);
    }

    method L2Head() returns (r: Result<nat>)
      requires Valid()
      modifies `now
      ensures now == old(now) + 1
      ensures r == if sights(old(now)).fails then Err("failed to fetch head header") else Ok(sights(old(now)).l2Head)
    {
      var s := sights(now);
      now := now + 1;
      if s.fails {
        return Err("failed to fetch head header");
      }
      return Ok(s.l2Head);
    }

    /** GetCommitmentAt pinned at a block; a block this view has not reached cannot be read. */
    method GetCommitmentAt(dealer: Address, block: nat) returns (r: Result<Digest>)
      requires Valid()
      modifies `now
      ensures now == old(now) + 1
      ensures var s := sights(old(now));
              if s.fails || block > s.l2Head then r.Err? else r == Ok(HashAt(chains.l2[block], dealer))
    {
      var s := sights(now);
      now := now + 1;
      if s.fails || block > s.l2Head {
        return Err("missing trie node");
      }
      return Ok(HashAt(chains.l2[block], dealer));
    }

    /** The binary search for the first block at or after the target timestamp; any failed lookup aborts it. */
    method FirstBlockAtOrAfterTimestamp(target: nat) returns (r: Result<nat>)
      requires Valid()
      modifies `now
      ensures now > old(now)
      ensures r.Ok? ==> FirstFrom(chains.l2, target, 1) == Some(r.value)
      ensures forall t: nat :: var f := FirstFrom(chains.l2, target, 1);
                f.Some? && ReadableFrom(t, f.value) && HeadAdvances() && r.Err? ==> old(now) < t && now <= t + 1
    {
      ghost var f := FirstFrom(chains.l2, target, 1);
      var h := L2Head();
      if h.Err? {
        return Err(h.reason);
      }
      var head := h.value;
      if head == 0 {
        return Err("no blocks available (head is 0)");
      }
      var ts := L2TimestampAt(head);
      if ts.Err? {
        return Err(ts.reason);
      }
      if ts.value < target {
        return Err("head block timestamp is below target");
      }
      var lo, hi := 1, head;
      while lo < hi
        invariant now > old(now)
        invariant 1 <= lo <= hi <= head < |chains.l2|
        invariant chains.l2[hi].timestamp >= target
        invariant forall k :: 1 <= k < lo ==> chains.l2[k].timestamp < target
        decreases hi - lo
      {
        var mid := lo + (hi - lo) / 2;
        var m := L2TimestampAt(mid);
        if m.Err? {
          return Err(m.reason);
        }
        if m.value >= target {
          hi := mid;
        } else {
          lo := mid + 1;
        }
      }
      return Ok(lo);
    }

    /** The L1 deadline block's timestamp, mapped to an L2 height. */
    method ResolveCutoffL2(deadlineL1: nat) returns (r: Result<nat>)
      requires Valid() && deadlineL1 > 0
      modifies `now
      ensures now > old(now)
      ensures r.Ok? ==> Cutoff(chains, deadlineL1) == Some(r.value)
      ensures forall t: nat :: SettledFrom(t, deadlineL1) && r.Err? ==> old(now) < t && now <= t + 1
    {
      var ts := L1TimestampAt(deadlineL1);
      if ts.Err? {
        return Err("L1 deadline block not readable yet");
      }
      r := FirstBlockAtOrAfterTimestamp(ts.value);
    }

    /** deriveAgreedDealerSet. The trigger block, interval and buffer fix the L1 deadline block; a failed read
        is retried until the deadline tick has passed, and then the whole round is aborted. No failure before
        the network settles aborts a round, as long as it settles before the deadline. */
    method DeriveAgreedDealerSet(triggerBlock: nat, interval: nat, buffer: nat, expected: seq<Address>, deadline: nat)
      returns (r: Result<Agreed>)
      requires Valid() && interval > buffer
      modifies `now
      ensures r.Ok? ==> Agreement(chains, triggerBlock + interval - buffer, expected) == Some(r.value)
      ensures r.Ok? ==>
                exists k: nat :: Cutoff(chains, triggerBlock + interval - buffer) == Some(k) &&
                                 FromRegistry(r.value, chains.l2[k].registry, expected)
      ensures expected == [] ==> r.Err?
      ensures expected != [] && SettlesBefore(deadline, triggerBlock + interval - buffer) ==> r.Ok?
    {
      if |expected| == 0 {
        return Err("no expected dealers for reshare");
      }
      var cutoff := ResolveWithRetry(triggerBlock + interval - buffer, deadline);
      if cutoff.Err? {
        return Err(cutoff.reason);
      }
      r := ReadCommitments(expected, cutoff.value, deadline);
    }

    /** Every expected dealer's commitment at the cutoff: a dealer is left out only if its read said so. */
    method ReadCommitments(expected: seq<Address>, block: nat, deadline: nat) returns (r: Result<Agreed>)
      requires Valid() && block < |chains.l2|
      modifies `now
      ensures var b := chains.l2[block];
              r.Ok? ==> r.value == Agreed(Submitters(b, expected), Hashes(b, Submitters(b, expected)))
      ensures r.Ok? ==> FromRegistry(r.value, chains.l2[block].registry, expected)
      ensures forall t: nat :: t < deadline && ReadableFrom(t, block) ==> r.Ok?
    {
      hide ReadableFrom, HashAt, FromRegistry;
      AgreedFromRegistry(chains.l2[block], expected);
      ghost var b := chains.l2[block];
      var submitted: seq<Address>, onChainHashes: map<Address, Digest> := [], map[];
      for k := 0 to |expected|
        invariant submitted == Submitters(b, expected[..k]) && onChainHashes == Hashes(b, submitted)
      {
        assert expected[..k + 1][..k] == expected[..k];
        var h := ReadWithRetry(expected[k], block, deadline);
        if h.Err? {
          return Err(h.reason);
        }
        if h.value != ZERO_HASH {
          submitted := submitted + [expected[k]];
          onChainHashes := onChainHashes[expected[k] := h.value];
        }
      }
      assert expected[..|expected|] == expected;
      return Ok(Agreed(submitted, onChainHashes));
    }

    method ResolveWithRetry(deadlineL1: nat, deadline: nat) returns (r: Result<nat>)
      requires Valid() && deadlineL1 > 0
      modifies `now
      ensures r.Ok? ==> Cutoff(chains, deadlineL1) == Some(r.value)
      ensures forall t: nat :: t < deadline && SettledFrom(t, deadlineL1) ==> r.Ok?
    {
      while true
        decreases deadline + 1 - now
      {
        r := ResolveCutoffL2(deadlineL1);
        if r.Ok? || now > deadline {
          return;
        }
      }
    }

    method ReadWithRetry(dealer: Address, block: nat, deadline: nat) returns (r: Result<Digest>)
      requires Valid() && block < |chains.l2|
      modifies `now
      ensures r.Ok? ==> r.value == HashAt(chains.l2[block], dealer)
      ensures forall t: nat :: t < deadline && ReadableFrom(t, block) ==> r.Ok?
    {
      while true
        decreases deadline + 1 - now
      {
        r := GetCommitmentAt(dealer, block);
        if r.Ok? || now > deadline {
          return;
        }
      }
    }
  }

  /** DEALER-SET AGREEMENT. Two nodes with the same trigger block and expected list, reading at different times
      through different views with different failures, return the same dealers and hashes if both return. */
  method TwoNodesAgree(a: ChainReader, b: ChainReader, triggerBlock: nat, interval: nat, buffer: nat,
                       expected: seq<Address>, deadlineA: nat, deadlineB: nat)
    returns (ra: Result<Agreed>, rb: Result<Agreed>)
    requires a != b && a.Valid() && b.Valid() && Grows(a.chains, b.chains) && interval > buffer
    modifies a, b
    ensures ra.Ok? && rb.Ok? ==> ra.value == rb.value
  {
    ra := a.DeriveAgreedDealerSet(triggerBlock, interval, buffer, expected, deadlineA);
    rb := b.DeriveAgreedDealerSet(triggerBlock, interval, buffer, expected, deadlineB);
    if ra.Ok? {
      AgreementNeverChanges(a.chains, b.chains, triggerBlock + interval - buffer, expected);
    }
  }

  lemma SubmittersOfExpected(b: Block, operators: seq<Address>, holders1: seq<Address>, holders2: seq<Address>)
    ensures Submitters(b, ExpectedDealers(operators, holders1)) == Submitters(b, ExpectedDealers(operators, holders2)) <==>
            forall a :: a in operators && HashAt(b, a) != ZERO_HASH ==> (MayDeal(holders1, a) <==> MayDeal(holders2, a))
  {
    hide HashAt, MayDeal;
    var p := (a: Address) => MayDeal(holders1, a) && HashAt(b, a) != ZERO_HASH;
    var q := (a: Address) => MayDeal(holders2, a) && HashAt(b, a) != ZERO_HASH;
    ExpectedIsFilter(operators, holders1);
    ExpectedIsFilter(operators, holders2);
    FilterTwice(operators, MayDealBy(holders1), SubmittedIn(b), p);
    FilterTwice(operators, MayDealBy(holders2), SubmittedIn(b), q);
    FilterSame(operators, p, q);
  }

  /** The same with each node's own expected list, computed from the holders its active version names: if both
      return, their dealer lists agree exactly when the holder lists agree on the operators that had submitted. */
  method TwoNodesAgreeIff(a: ChainReader, b: ChainReader, triggerBlock: nat, interval: nat, buffer: nat,
                          operators: seq<Address>, holdersA: seq<Address>, holdersB: seq<Address>,
                          deadlineA: nat, deadlineB: nat)
    returns (ra: Result<Agreed>, rb: Result<Agreed>)
    requires a != b && a.Valid() && b.Valid() && Grows(a.chains, b.chains) && interval > buffer
    modifies a, b
    ensures ra.Ok? && rb.Ok? ==>
              Cutoff(a.chains, triggerBlock + interval - buffer).Some? &&
              var block := a.chains.l2[Cutoff(a.chains, triggerBlock + interval - buffer).value];
              (ra.value == rb.value <==>
               forall d :: d in operators && HashAt(block, d) != ZERO_HASH ==> (MayDeal(holdersA, d) <==> MayDeal(holdersB, d)))
  {
    hide HashAt, MayDeal, Submitters, ExpectedDealers;
    var expectedA := ExpectedReshareDealers(operators, holdersA);
    var expectedB := ExpectedReshareDealers(operators, holdersB);
    ra := a.DeriveAgreedDealerSet(triggerBlock, interval, buffer, expectedA, deadlineA);
    rb := b.DeriveAgreedDealerSet(triggerBlock, interval, buffer, expectedB, deadlineB);
    if ra.Ok? && rb.Ok? {
      ghost var deadlineL1 := triggerBlock + interval - buffer;
      AgreementNeverChanges(a.chains, b.chains, deadlineL1, expectedB);
      SubmittersOfExpected(a.chains.l2[Cutoff(a.chains, deadlineL1).value], operators, holdersA, holdersB);
    }
  }

  lemma SubmittersDistinct(b: Block, expected: seq<Address>)
    requires Distinct(expected)
    ensures Distinct(Submitters(b, expected))
  {
    FilterDistinct(expected, SubmittedIn(b));
  }

  lemma TooFewCannotSelect(agreed: Agreed, received: Received, threshold: nat)
    ensures CanSelect(agreed.dealers, agreed.hashes, received, threshold) ==> |agreed.dealers| >= threshold
  {
    hide BoundTo;
    if CanSelect(agreed.dealers, agreed.hashes, received, threshold) {
      var v: SourceVersions.Version :|
        v != 0 && |KeptDealers(agreed.dealers, agreed.hashes, received, v)| >= threshold;
      FilterNotLonger(agreed.dealers, BoundToBy(agreed.hashes, received, v));
    }
  }

  /** What a node does before it computes its share: derive the agreed set, require the threshold, verify the
      dealers' versions against the chain, and select the majority version. */
  method AgreeOnSource(node: ChainReader, triggerBlock: nat, interval: nat, buffer: nat, expected: seq<Address>,
                       deadline: nat, received: Received, threshold: nat)
    returns (r: Result<(seq<Address>, SourceVersions.Version)>, ghost agreed: Agreed)
    requires node.Valid() && interval > buffer && threshold > 0
    modifies node
    ensures r.Ok? ==>
              && Agreement(node.chains, triggerBlock + interval - buffer, expected) == Some(agreed)
              && |agreed.dealers| >= threshold
              && SelectedBy(r.value.0, r.value.1, agreed.dealers, agreed.hashes, received, threshold)
              && r.value.0 == KeptDealers(agreed.dealers, agreed.hashes, received, r.value.1)
              && forall w: SourceVersions.Version :: w != 0 ==>
                   |KeptDealers(agreed.dealers, agreed.hashes, received, w)| <= |r.value.0|
    ensures expected != [] && node.SettlesBefore(deadline, triggerBlock + interval - buffer) ==>
              && Agreement(node.chains, triggerBlock + interval - buffer, expected) == Some(agreed)
              && (r.Ok? <==> CanSelect(agreed.dealers, agreed.hashes, received, threshold))
  {
    hide KeptDealers, CanSelect, SelectedBy;
    agreed := Agreed([], map[]);
    var a := node.DeriveAgreedDealerSet(triggerBlock, interval, buffer, expected, deadline);
    if a.Err? {
      return Err(a.reason), agreed;
    }
    agreed := a.value;
    TooFewCannotSelect(agreed, received, threshold);
    if |a.value.dealers| < threshold {
      return Err("agreed dealer set too small"), agreed;
    }
    r := SelectSource(a.value.dealers, a.value.hashes, received, threshold);
  }

  /** What two selections over one agreed set have in common. */
  lemma SelectionsCompared(agreed: Agreed, operators: set<Address>, n: nat,
                           m1: Received, s1: (seq<Address>, SourceVersions.Version),
                           m2: Received, s2: (seq<Address>, SourceVersions.Version))
    requires Injective(Sha256) && Distinct(agreed.dealers)
    requires n > 0 && |operators| <= n && forall d :: d in agreed.dealers ==> d in operators
    requires SelectedBy(s1.0, s1.1, agreed.dealers, agreed.hashes, m1, CalculateThreshold(n))
    requires SelectedBy(s2.0, s2.1, agreed.dealers, agreed.hashes, m2, CalculateThreshold(n))
    requires s1.0 == KeptDealers(agreed.dealers, agreed.hashes, m1, s1.1)
    requires s2.0 == KeptDealers(agreed.dealers, agreed.hashes, m2, s2.1)
    ensures s1.1 == s2.1
    ensures Delivered(agreed.dealers, agreed.hashes, m1) && Delivered(agreed.dealers, agreed.hashes, m2) ==>
              (s1.0 == s2.0 <==>
               forall d :: d in agreed.dealers && CommittedTo(d, agreed.hashes, s1.1) ==> (Heard(d, m1) <==> Heard(d, m2)))
  {
    hide KeptDealers, SelectedBy, Delivered, CommittedTo, Heard, Distinct, Injective;
    SourceVersionAgreement(agreed.dealers, agreed.hashes, operators, n, m1, s1.0, s1.1, m2, s2.0, s2.1);
    if Delivered(agreed.dealers, agreed.hashes, m1) && Delivered(agreed.dealers, agreed.hashes, m2) {
      SameDealersKeptIff(agreed.dealers, agreed.hashes, m1, m2, s1.1);
    }
  }

  /** From chain reads to source version: two nodes that both get through a round finalize on the same version,
      whatever their reads saw and whatever the dealers sent each of them. If what reached them is what the dealers
      committed to, they finalize on the same dealer list exactly when they have heard from the same agreed dealers
      of that version. */
  method TwoNodesAgreeOnSource(a: ChainReader, b: ChainReader, triggerBlock: nat, interval: nat, buffer: nat,
                               expected: seq<Address>, operators: set<Address>, n: nat,
                               deadlineA: nat, deadlineB: nat, receivedA: Received, receivedB: Received)
    returns (ra: Result<(seq<Address>, SourceVersions.Version)>, rb: Result<(seq<Address>, SourceVersions.Version)>,
             ghost agreed: Agreed)
    requires a != b && a.Valid() && b.Valid() && Grows(a.chains, b.chains) && interval > buffer
    requires Injective(Sha256) && Distinct(expected) && n > 0 && |operators| <= n
    requires forall d :: d in expected ==> d in operators
    modifies a, b
    ensures ra.Ok? && rb.Ok? ==>
              && Agreement(a.chains, triggerBlock + interval - buffer, expected) == Some(agreed)
              && ra.value.1 == rb.value.1
              && (Delivered(agreed.dealers, agreed.hashes, receivedA) && Delivered(agreed.dealers, agreed.hashes, receivedB) ==>
                    (ra.value.0 == rb.value.0 <==>
                     forall d :: d in agreed.dealers && CommittedTo(d, agreed.hashes, ra.value.1) ==>
                       (Heard(d, receivedA) <==> Heard(d, receivedB))))
  {
    hide KeptDealers, SelectedBy, Delivered, CommittedTo, Heard, Submitters, Hashes, Distinct, Injective;
    ghost var agreedB;
    ra, agreed := AgreeOnSource(a, triggerBlock, interval, buffer, expected, deadlineA, receivedA, CalculateThreshold(n));
    rb, agreedB := AgreeOnSource(b, triggerBlock, interval, buffer, expected, deadlineB, receivedB, CalculateThreshold(n));
    if ra.Ok? && rb.Ok? {
      ghost var deadlineL1 := triggerBlock + interval - buffer;
      AgreementNeverChanges(a.chains, b.chains, deadlineL1, expected);
      SubmittersDistinct(a.chains.l2[Cutoff(a.chains, deadlineL1).value], expected);
      SelectionsCompared(agreed, operators, n, receivedA, ra.value, receivedB, rb.value);
    }
  }
}
