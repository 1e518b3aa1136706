/** Agreement on the source version of a reshare: VerifyDealerSourceVersions and
    SelectMajoritySourceVersion of pkg/reshare/reshare.go over the hash of pkg/crypto/bls.go. */
module SourceVersions {
  import opened Results
  import opened Addresses
  import opened Dkg
  import opened Lists
  import opened NumberTheory

  /** int64 */
  type Version = v: int | -0x8000_0000_0000_0000 <= v < 0x8000_0000_0000_0000 witness 0

  /** A 32-byte digest. Which bytes it holds does not matter, only which preimages share it. */
  datatype Digest = Digest(id: int)

  ghost predicate Injective(h: Bytes -> Digest) {
    forall x, y :: h(x) == h(y) ==> x == y
  }

  /** SHA-256 over a byte string, left open; agreement is proved for collision-free inputs. */
  const Sha256: Bytes -> Digest

  // The hashed preimage -----------------------------------------------------------------------

  /** Concatenated compressed commitments, of any lengths. */
  function Concat(cs: seq<Bytes>): Bytes {
    if cs == [] then [] else cs[0] + Concat(cs[1..])
  }

  /** Big-endian bytes of x, least significant last. */
  function BigEndian(x: nat, size: nat): (b: Bytes)
    ensures |b| == size
  {
    if size == 0 then [] else BigEndian(x / 256, size - 1) + [x % 256]
  }

  /** uint64(sourceVersion): two's complement. */
  function AsUint64(v: Version): nat {
    if v < 0 then v + 0x1_0000_0000_0000_0000 else v
  }

  function Preimage(commitments: seq<Bytes>, sourceVersion: Version): Bytes {
    Concat(commitments) + BigEndian(AsUint64(sourceVersion), 8)
  }

  function HashReshareCommitment(commitments: seq<Bytes>, sourceVersion: Version): Digest {
    Sha256(Preimage(commitments, sourceVersion))
  }

  /** Byte i counts 256 to the power of the number of bytes after it: most significant first, as PutUint64 writes. */
  lemma {:induction false} BigEndianDigit(x: nat, size: nat, i: nat)
    requires i < size
    ensures BigEndian(x, size)[i] == (x / Pow256(size - 1 - i)) % 256
  {
    if i == size - 1 {
      assert Pow256(0) == 1;
    } else {
      BigEndianDigit(x / 256, size - 1, i);
      DivideTwice(x, 256, Pow256(size - 2 - i));
    }
  }

  lemma DivideTwice(x: nat, a: nat, b: nat)
    requires a > 0 && b > 0
    ensures a * b > 0 && x / (a * b) == (x / a) / b
  {
    var q, r := x / a, x % a;
    var u, v := q / b, q % b;
    assert x == a * q + r && q == b * u + v;
    assert a * b > 0;
    calc {
      x;
      a * (b * u + v) + r;
      { assert a * (b * u) == u * (a * b); }
      u * (a * b) + (a * v + r);
    }
    assert a * v + a <= a * b by { assert v + 1 <= b; MulMonotone(a, v + 1, b); }
    ModUnique(x, a * b, u, a * v + r);
  }

  lemma MulMonotone(a: nat, x: nat, y: nat)
    requires x <= y
    ensures a * x <= a * y
  {
  }

  /** The layout: the commitments one after another, then the eight version bytes. */
  lemma PreimageLayout(commitments: seq<Bytes>, v: Version)
    ensures var p := Preimage(commitments, v);
            && |p| == |Concat(commitments)| + 8 && p[..|p| - 8] == Concat(commitments)
            && forall k :: |p| - 8 <= k < |p| ==>
                 p[k] == (if v < 0 then v + 0x1_0000_0000_0000_0000 else v) / Pow256(|p| - 1 - k) % 256
  {
    hide BigEndian, Pow256;
    var p := Preimage(commitments, v);
    forall k | |p| - 8 <= k < |p|
      ensures p[k] == AsUint64(v) / Pow256(|p| - 1 - k) % 256
    {
      BigEndianDigit(AsUint64(v), 8, k - (|p| - 8));
    }
  }

  /** Commitment k starts where the ones before it end. */
  lemma {:induction false} ConcatLayout(cs: seq<Bytes>, k: nat)
    requires k < |cs|
    ensures var at := |Concat(cs[..k])|;
            at + |cs[k]| <= |Concat(cs)| && Concat(cs)[at..at + |cs[k]|] == cs[k]
  {
    if k > 0 {
      ConcatLayout(cs[1..], k - 1);
      assert cs[1..][..k - 1] == cs[..k][1..];
      assert Concat(cs) == cs[0] + Concat(cs[1..]);
    }
  }

  function Pow256(k: nat): (p: nat)
    ensures p > 0
  {
    if k == 0 then 1 else 256 * Pow256(k - 1)
  }

  lemma {:induction false} BigEndianInjective(x: nat, y: nat, size: nat)
    requires x < Pow256(size) && y < Pow256(size)
    requires BigEndian(x, size) == BigEndian(y, size)
    ensures x == y
  {
    if size > 0 {
      var high, high2 := BigEndian(x / 256, size - 1), BigEndian(y / 256, size - 1);
      assert BigEndian(x, size)[..size - 1] == high && BigEndian(y, size)[..size - 1] == high2;
      assert BigEndian(x, size)[size - 1] == x % 256 && BigEndian(y, size)[size - 1] == y % 256;
      BigEndianInjective(x / 256, y / 256, size - 1);
    }
  }

  /** The version is the last eight bytes of the preimage, whatever the commitments are. */
  lemma PreimageFixesVersion(cs: seq<Bytes>, v: Version, ds: seq<Bytes>, w: Version)
    requires Preimage(cs, v) == Preimage(ds, w)
    ensures v == w
  {
    var p, q := Preimage(cs, v), Preimage(ds, w);
    assert p[|p| - 8..] == BigEndian(AsUint64(v), 8);
    assert q[|q| - 8..] == BigEndian(AsUint64(w), 8);
    assert Pow256(8) == 0x1_0000_0000_0000_0000 by {
      assert Pow256(4) == 256 * (256 * (256 * 256));
      assert Pow256(8) == 256 * (256 * (256 * (256 * Pow256(4))));
    }
    BigEndianInjective(AsUint64(v), AsUint64(w), 8);
  }

  // Verification against the on-chain hashes --------------------------------------------------

  /** What one node received from the dealers over P2P. */
  datatype Received = Received(commitments: map<Address, seq<Bytes>>, versions: map<Address, Version>)

  /** The dealer's received commitments and version hash to what it submitted on chain. */
  predicate Bound(d: Address, onChain: map<Address, Digest>, m: Received) {
    && d in onChain && d in m.versions && d in m.commitments && m.commitments[d] != []
    && HashReshareCommitment(m.commitments[d], m.versions[d]) == onChain[d]
  }

  function BoundBy(onChain: map<Address, Digest>, m: Received): Address -> bool {
    (d: Address) => Bound(d, onChain, m)
  }

  /** The agreed dealers whose received data is bound by the chain, in input order. */
  function BoundDealers(agreed: seq<Address>, onChain: map<Address, Digest>, m: Received): (r: seq<Address>)
    ensures forall d :: d in r <==> d in agreed && Bound(d, onChain, m)
  {
    Filter(agreed, BoundBy(onChain, m))
  }

  /** The versions of the listed dealers. */
  function VersionsOf(dealers: seq<Address>, m: Received): map<Address, Version> {
    map d | d in dealers && d in m.versions :: m.versions[d]
  }

  lemma BoundIff(agreed: seq<Address>, onChain: map<Address, Digest>, m: Received)
    ensures forall d :: d in agreed ==>
              (Bound(d, onChain, m) <==>
               && d in onChain && d in m.versions && d in m.commitments && m.commitments[d] != []
               && onChain[d] == Sha256(Concat(m.commitments[d]) + BigEndian(AsUint64(m.versions[d]), 8)))
  {
    hide BigEndian, Concat;
  }

  method VerifyDealerSourceVersions(agreed: seq<Address>, onChain: map<Address, Digest>, m: Received)
    returns (verified: seq<Address>, versions: map<Address, Version>)
    ensures verified == BoundDealers(agreed, onChain, m)
    ensures versions == VersionsOf(verified, m)
    ensures forall d :: d in verified <==>
              && d in agreed && d in onChain && d in m.versions && d in m.commitments && m.commitments[d] != []
              && onChain[d] == Sha256(Concat(m.commitments[d]) + BigEndian(AsUint64(m.versions[d]), 8))
    ensures versions.Keys == ToSet(verified) && forall d :: d in verified ==> versions[d] == m.versions[d]
  {
    BoundIff(agreed, onChain, m);
    hide Bound;
    verified, versions := [], map[];
    for k := 0 to |agreed|
      invariant verified == BoundDealers(agreed[..k], onChain, m)
      invariant versions == VersionsOf(verified, m)
    {
      var dealer := agreed[k];
      assert agreed[..k + 1][..k] == agreed[..k];
      if Bound(dealer, onChain, m) {
        BoundHasVersion(dealer, onChain, m);
        verified := verified + [dealer];
        versions := versions[dealer := m.versions[dealer]];
      }
    }
    assert agreed[..|agreed|] == agreed;
  }

  lemma BoundHasVersion(d: Address, onChain: map<Address, Digest>, m: Received)
    requires Bound(d, onChain, m)
    ensures d in m.versions
  {
  }

  // Majority selection ------------------------------------------------------------------------

  /** The known version of a dealer; 0 and "absent" both mean unknown. */
  function KnownVersion(d: Address, versions: map<Address, Version>): Version {
    if d in versions then versions[d] else 0
  }

  function OnVersion(versions: map<Address, Version>, v: Version): Address -> bool {
    (d: Address) => KnownVersion(d, versions) == v
  }

  /** The dealers on one version, in input order. */
  function Supporters(dealers: seq<Address>, versions: map<Address, Version>, v: Version): (r: seq<Address>)
    ensures forall d :: d in r <==> d in dealers && KnownVersion(d, versions) == v
  {
    Filter(dealers, OnVersion(versions, v))
  }

  function Support(dealers: seq<Address>, versions: map<Address, Version>, v: Version): nat {
    |Supporters(dealers, versions, v)|
  }

  /** (v, c) is the best entry of the tally restricted to `seen`: most dealers, ties to the higher version. */
  ghost predicate Best(v: Version, c: nat, seen: set<Version>, counts: map<Version, nat>)
    requires seen <= counts.Keys
  {
    && (seen == {} ==> v == 0 && c == 0)
    && (seen != {} ==> v in seen && c == counts[v])
    && forall w :: w in seen ==> counts[w] < c || (counts[w] == c && w <= v)
  }

  /** The tally of the known versions. */
  ghost predicate Tallies(counts: map<Version, nat>, dealers: seq<Address>, versions: map<Address, Version>) {
    && 0 !in counts
    && (forall v: Version :: v != 0 ==> (v in counts <==> Support(dealers, versions, v) > 0))
    && forall v :: v in counts ==> counts[v] == Support(dealers, versions, v)
  }

  /** The counts map is read in an arbitrary order. */
  method SelectMajoritySourceVersion(dealers: seq<Address>, versions: map<Address, Version>, threshold: int)
    returns (r: Result<(seq<Address>, Version)>)
    ensures r.Ok? <==> dealers != [] &&
                       (threshold <= 0 || exists v: Version :: v != 0 && Support(dealers, versions, v) >= threshold)
    ensures r.Ok? ==> r.value.0 == Supporters(dealers, versions, r.value.1)
    ensures r.Ok? && r.value.1 != 0 ==>
              forall d :: d in r.value.0 <==> d in dealers && d in versions && versions[d] == r.value.1
    ensures r.Ok? && threshold > 0 ==> r.value.1 != 0 && |r.value.0| >= threshold
    ensures r.Ok? && r.value.1 != 0 ==>
              forall w: Version :: w != 0 ==>
                Support(dealers, versions, w) < |r.value.0| ||
                (Support(dealers, versions, w) == |r.value.0| && w <= r.value.1)
    ensures r.Ok? && r.value.1 == 0 ==> forall w: Version :: w != 0 ==> Support(dealers, versions, w) == 0
  {
    if |dealers| == 0 {
      return Err("no dealers provided for source-version selection");
    }
    var counts := Tally(dealers, versions);
    var bestVersion: Version, bestCount: nat := 0, 0;
    var rest := counts.Keys;
    while rest != {}
      invariant rest <= counts.Keys
      invariant Best(bestVersion, bestCount, counts.Keys - rest, counts)
    {
      var v :| v in rest;
      var c := counts[v];
      assert c == Support(dealers, versions, v) && c > 0;
      if c > bestCount || (c == bestCount && v > bestVersion) {
        bestVersion, bestCount := v, c;
      }
      rest := rest - {v};
    }
    assert counts.Keys - rest == counts.Keys;
    if bestCount < threshold {
      return Err("majority source version has too few dealers; aborting");
    }
    var kept := KeepVersion(dealers, versions, bestVersion);
    return Ok((kept, bestVersion));
  }

  method Tally(dealers: seq<Address>, versions: map<Address, Version>) returns (counts: map<Version, nat>)
    ensures Tallies(counts, dealers, versions)
  {
    counts := map[];
    for k := 0 to |dealers|
      invariant Tallies(counts, dealers[..k], versions)
    {
      var v := KnownVersion(dealers[k], versions);
      assert dealers[..k + 1][..k] == dealers[..k];
      assert forall w: Version :: Support(dealers[..k + 1], versions, w) ==
                                  Support(dealers[..k], versions, w) + (if v == w then 1 else 0);
      if v != 0 {
        counts := counts[v := (if v in counts then counts[v] else 0) + 1];
      }
    }
    assert dealers[..|dealers|] == dealers;
  }

  method KeepVersion(dealers: seq<Address>, versions: map<Address, Version>, v: Version) returns (kept: seq<Address>)
    ensures kept == Supporters(dealers, versions, v)
  {
    kept := [];
    for k := 0 to |dealers|
      invariant kept == Supporters(dealers[..k], versions, v)
    {
      assert dealers[..k + 1][..k] == dealers[..k];
      if KnownVersion(dealers[k], versions) == v {
        kept := kept + [dealers[k]];
      }
    }
    assert dealers[..|dealers|] == dealers;
  }

  // Quorum intersection -----------------------------------------------------------------------

  /** Two quorums of two thirds among n operators share an operator. */
  lemma QuorumsIntersect(p: seq<Address>, q: seq<Address>, operators: set<Address>, n: nat) returns (common: Address)
    requires Distinct(p) && Distinct(q) && |operators| <= n && n > 0
    requires (forall a :: a in p ==> a in operators) && (forall a :: a in q ==> a in operators)
    requires |p| >= CalculateThreshold(n) && |q| >= CalculateThreshold(n)
    ensures common in p && common in q
  {
    DistinctCardinality(p);
    DistinctCardinality(q);
    var both := ToSet(p) * ToSet(q);
    assert |ToSet(p) + ToSet(q)| == |ToSet(p)| + |ToSet(q)| - |both|;
    SubsetNotLarger(ToSet(p) + ToSet(q), operators);
    assert both != {};
    common :| common in both;
  }

  /** Some known version has a threshold of agreed dealers that this node can bind to it. */
  ghost predicate CanSelect(agreed: seq<Address>, onChain: map<Address, Digest>, m: Received, threshold: nat) {
    exists v: Version :: v != 0 && |KeptDealers(agreed, onChain, m, v)| >= threshold
  }

  /** What one node does with one round's data: verify against the chain, require enough verified dealers,
      select the majority version. It succeeds exactly when some version has a threshold of bound dealers, and then
      selects the version with the most, the higher one on a tie. */
  method SelectSource(agreed: seq<Address>, onChain: map<Address, Digest>, m: Received, threshold: nat)
    returns (r: Result<(seq<Address>, Version)>)
    requires threshold > 0
    ensures r.Ok? <==> CanSelect(agreed, onChain, m, threshold)
    ensures r.Ok? ==> SelectedBy(r.value.0, r.value.1, agreed, onChain, m, threshold)
    ensures r.Ok? ==> r.value.0 == KeptDealers(agreed, onChain, m, r.value.1)
    ensures r.Ok? ==>
              forall w: Version :: w != 0 ==>
                var c := |KeptDealers(agreed, onChain, m, w)|;
                c < |r.value.0| || (c == |r.value.0| && w <= r.value.1)
  {
    hide KeptDealers, BoundDealers, Distinct, CanSelect, Supporters;
    var verified, versions := VerifyDealerSourceVersions(agreed, onChain, m);
    forall w: Version
      ensures Support(verified, versions, w) == |KeptDealers(agreed, onChain, m, w)| <= |verified|
    {
      KeptInTwoSteps(agreed, onChain, m, w);
      SupportIsAtMost(verified, versions, w);
    }
    CanSelectIff(agreed, onChain, m, verified, versions, threshold);
    if |verified| < threshold {
      return Err("verified reshare dealer set too small");
    }
    r := SelectMajoritySourceVersion(verified, versions, threshold);
    if r.Ok? {
      KeptInTwoSteps(agreed, onChain, m, r.value.1);
      if Distinct(agreed) {
        FilterDistinct(agreed, BoundToBy(onChain, m, r.value.1));
        KeptIsFilter(agreed, onChain, m, r.value.1);
      }
    }
  }

  lemma KeptIsFilter(agreed: seq<Address>, onChain: map<Address, Digest>, m: Received, v: Version)
    ensures KeptDealers(agreed, onChain, m, v) == Filter(agreed, BoundToBy(onChain, m, v))
  {
  }

  lemma SupportIsAtMost(dealers: seq<Address>, versions: map<Address, Version>, v: Version)
    ensures Support(dealers, versions, v) <= |dealers|
  {
    FilterNotLonger(dealers, OnVersion(versions, v));
  }

  lemma CanSelectIff(agreed: seq<Address>, onChain: map<Address, Digest>, m: Received, verified: seq<Address>,
                     versions: map<Address, Version>, threshold: nat)
    requires threshold > 0
    requires forall w: Version :: Support(verified, versions, w) == |KeptDealers(agreed, onChain, m, w)| <= |verified|
    ensures CanSelect(agreed, onChain, m, threshold) <==>
            |verified| >= threshold && exists v: Version :: v != 0 && Support(verified, versions, v) >= threshold
  {
    hide KeptDealers, Support;
    if CanSelect(agreed, onChain, m, threshold) {
      var v: Version :| v != 0 && |KeptDealers(agreed, onChain, m, v)| >= threshold;
      assert Support(verified, versions, v) >= threshold;
    }
    if v: Version :| v != 0 && Support(verified, versions, v) >= threshold {
      assert |KeptDealers(agreed, onChain, m, v)| >= threshold;
    }
  }

  /** The kept dealers are verified agreed dealers that all dealt from v, at least a threshold of them. */
  ghost predicate SelectedBy(kept: seq<Address>, v: Version, agreed: seq<Address>, onChain: map<Address, Digest>,
                             m: Received, threshold: nat) {
    && v != 0 && |kept| >= threshold && (Distinct(agreed) ==> Distinct(kept))
    && forall d :: d in kept ==> d in agreed && Bound(d, onChain, m) && m.versions[d] == v
  }

  /** SOURCE-VERSION AGREEMENT. Two nodes that both succeed over the same on-chain hashes, with at most n
      operators and the two-thirds threshold, pick the same source version even if the dealers sent them
      different commitments or versions: the quorums share a dealer, and its hash fixes its version. */
  lemma SourceVersionAgreement(agreed: seq<Address>, onChain: map<Address, Digest>, operators: set<Address>, n: nat,
                               m1: Received, kept1: seq<Address>, v1: Version,
                               m2: Received, kept2: seq<Address>, v2: Version)
    requires Injective(Sha256) && Distinct(agreed)
    requires n > 0 && |operators| <= n && forall d :: d in agreed ==> d in operators
    requires SelectedBy(kept1, v1, agreed, onChain, m1, CalculateThreshold(n))
    requires SelectedBy(kept2, v2, agreed, onChain, m2, CalculateThreshold(n))
    ensures v1 == v2
  {
    var d := QuorumsIntersect(kept1, kept2, operators, n);
    var p, q := Preimage(m1.commitments[d], v1), Preimage(m2.commitments[d], v2);
    assert Sha256(p) == Sha256(q);
    PreimageFixesVersion(m1.commitments[d], v1, m2.commitments[d], v2);
  }

  /** At most one version reaches the two-thirds threshold, so the map order of the tally is irrelevant: the
      most supported version is the only one with threshold support, hence also the highest such. */
  lemma ThresholdVersionUnique(dealers: seq<Address>, versions: map<Address, Version>, operators: set<Address>, n: nat,
                               v: Version, w: Version)
    requires Distinct(dealers) && n > 0 && |operators| <= n && forall d :: d in dealers ==> d in operators
    requires Support(dealers, versions, v) >= CalculateThreshold(n)
    requires Support(dealers, versions, w) >= CalculateThreshold(n)
    ensures v == w
  {
    FilterDistinct(dealers, OnVersion(versions, v));
    FilterDistinct(dealers, OnVersion(versions, w));
    var d := QuorumsIntersect(Supporters(dealers, versions, v), Supporters(dealers, versions, w), operators, n);
  }

  // The kept dealers need not agree -----------------------------------------------------------

  /** This node can bind the dealer to version v. */
  predicate BoundTo(d: Address, onChain: map<Address, Digest>, m: Received, v: Version) {
    Bound(d, onChain, m) && m.versions[d] == v
  }

  function BoundToBy(onChain: map<Address, Digest>, m: Received, v: Version): Address -> bool {
    (d: Address) => BoundTo(d, onChain, m, v)
  }

  /** The agreed dealers bound to v, in input order. */
  function KeptDealers(agreed: seq<Address>, onChain: map<Address, Digest>, m: Received, v: Version): (r: seq<Address>)
    ensures forall d :: d in r <==> d in agreed && BoundTo(d, onChain, m, v)
  {
    Filter(agreed, BoundToBy(onChain, m, v))
  }

  /** Verifying first and selecting the version's supporters afterwards is one pass over the agreed list. */
  lemma KeptInTwoSteps(agreed: seq<Address>, onChain: map<Address, Digest>, m: Received, v: Version)
    ensures var verified := BoundDealers(agreed, onChain, m);
            Supporters(verified, VersionsOf(verified, m), v) == KeptDealers(agreed, onChain, m, v)
  {
    hide HashReshareCommitment;
    var verified := BoundDealers(agreed, onChain, m);
    var known := (d: Address) => d in m.versions && m.versions[d] == v;
    FilterSame(verified, OnVersion(VersionsOf(verified, m), v), known);
    FilterTwice(agreed, BoundBy(onChain, m), known, BoundToBy(onChain, m, v));
  }

  /** The node has received commitments and a version from the dealer. */
  predicate Heard(d: Address, m: Received) {
    d in m.versions && d in m.commitments && m.commitments[d] != []
  }

  /** What the node has received from an agreed dealer, if anything, is what the dealer committed on chain. */
  predicate Delivered(agreed: seq<Address>, onChain: map<Address, Digest>, m: Received) {
    forall d :: d in agreed && Heard(d, m) ==> Bound(d, onChain, m)
  }

  /** The hash that the dealer put on chain is for version v: a fact of the chain, whoever heard what. */
  ghost predicate CommittedTo(d: Address, onChain: map<Address, Digest>, v: Version) {
    d in onChain && exists cs: seq<Bytes> :: cs != [] && onChain[d] == HashReshareCommitment(cs, v)
  }

  lemma BoundToIff(d: Address, onChain: map<Address, Digest>, m: Received, v: Version)
    requires Injective(Sha256) && (Heard(d, m) ==> Bound(d, onChain, m))
    ensures BoundTo(d, onChain, m, v) <==> Heard(d, m) && CommittedTo(d, onChain, v)
  {
    if Heard(d, m) && CommittedTo(d, onChain, v) {
      var cs :| cs != [] && onChain[d] == HashReshareCommitment(cs, v);
      var p, q := Preimage(cs, v), Preimage(m.commitments[d], m.versions[d]);
      assert Sha256(p) == Sha256(q);
      PreimageFixesVersion(cs, v, m.commitments[d], m.versions[d]);
    }
  }

  /** Two nodes whose deliveries match the chain keep the same dealers for a version exactly when they have heard
      from the same ones among the agreed dealers that committed to that version on chain. */
  lemma SameDealersKeptIff(agreed: seq<Address>, onChain: map<Address, Digest>, m1: Received, m2: Received, v: Version)
    requires Injective(Sha256) && Delivered(agreed, onChain, m1) && Delivered(agreed, onChain, m2)
    ensures KeptDealers(agreed, onChain, m1, v) == KeptDealers(agreed, onChain, m2, v) <==>
            forall d :: d in agreed && CommittedTo(d, onChain, v) ==> (Heard(d, m1) <==> Heard(d, m2))
  {
    hide BoundTo, Bound, Heard, CommittedTo, Injective;
    forall d | d in agreed
      ensures BoundTo(d, onChain, m1, v) <==> Heard(d, m1) && CommittedTo(d, onChain, v)
      ensures BoundTo(d, onChain, m2, v) <==> Heard(d, m2) && CommittedTo(d, onChain, v)
    {
      BoundToIff(d, onChain, m1, v);
      BoundToIff(d, onChain, m2, v);
    }
    FilterSame(agreed, BoundToBy(onChain, m1, v), BoundToBy(onChain, m2, v));
  }

  /** What a node received when it heard from the listed dealers, all honest and all on version v. */
  function HeardFrom(dealers: set<Address>, cs: seq<Bytes>, v: Version): Received {
    Received(map d | d in dealers :: cs, map d | d in dealers :: v)
  }

  /** Four honest dealers submitted for one version; one node has not heard from the last of them, another not
      from the first. Both get through with the threshold of three, on different dealer lists. */
  lemma KeptDealersMayDiffer(a: Address, b: Address, c: Address, d: Address, cs: seq<Bytes>, v: Version)
    requires Distinct([a, b, c, d]) && cs != [] && v != 0
    ensures var agreed, h := [a, b, c, d], HashReshareCommitment(cs, v);
            var onChain := map[a := h, b := h, c := h, d := h];
            var m1, m2 := HeardFrom({a, b, c}, cs, v), HeardFrom({b, c, d}, cs, v);
            && SelectedBy(KeptDealers(agreed, onChain, m1, v), v, agreed, onChain, m1, CalculateThreshold(4))
            && SelectedBy(KeptDealers(agreed, onChain, m2, v), v, agreed, onChain, m2, CalculateThreshold(4))
            && KeptDealers(agreed, onChain, m1, v) != KeptDealers(agreed, onChain, m2, v)
  {
    hide BoundTo, Bound, KeptDealers, SelectedBy, Distinct, HashReshareCommitment;
    var agreed, h := [a, b, c, d], HashReshareCommitment(cs, v);
    var onChain := map[a := h, b := h, c := h, d := h];
    FourDiffer(a, b, c, d);
    HeardKept(agreed, onChain, {a, b, c}, cs, v);
    HeardKept(agreed, onChain, {b, c, d}, cs, v);
    KeptOfFour(a, b, c, d, onChain, HeardFrom({a, b, c}, cs, v), v);
    KeptOfFour(a, b, c, d, onChain, HeardFrom({b, c, d}, cs, v), v);
    assert [a, b, c][0] != [b, c, d][0];
    KeptAreSelected(agreed, onChain, HeardFrom({a, b, c}, cs, v), v, 3);
    KeptAreSelected(agreed, onChain, HeardFrom({b, c, d}, cs, v), v, 3);
  }

  lemma FourDiffer(a: Address, b: Address, c: Address, d: Address)
    requires Distinct([a, b, c, d])
    ensures a != b && a != c && a != d && b != c && b != d && c != d
  {
    var l := [a, b, c, d];
    assert l[0] != l[1] && l[0] != l[2] && l[0] != l[3] && l[1] != l[2] && l[1] != l[3] && l[2] != l[3];
  }

  /** A dealer that was heard from and submitted what it sent is bound; one not heard from is not. */
  lemma HeardKept(agreed: seq<Address>, onChain: map<Address, Digest>, heard: set<Address>, cs: seq<Bytes>, v: Version)
    requires cs != [] && forall d :: d in agreed ==> d in onChain && onChain[d] == HashReshareCommitment(cs, v)
    ensures forall d :: d in agreed ==> (BoundTo(d, onChain, HeardFrom(heard, cs, v), v) <==> d in heard)
  {
    hide HashReshareCommitment;
  }

  lemma KeptAreSelected(agreed: seq<Address>, onChain: map<Address, Digest>, m: Received, v: Version, threshold: nat)
    requires v != 0 && Distinct(agreed) && |KeptDealers(agreed, onChain, m, v)| >= threshold
    ensures SelectedBy(KeptDealers(agreed, onChain, m, v), v, agreed, onChain, m, threshold)
  {
    hide Bound;
    FilterDistinct(agreed, BoundToBy(onChain, m, v));
  }

  lemma KeptOfFour(a: Address, b: Address, c: Address, d: Address, onChain: map<Address, Digest>, m: Received, v: Version)
    ensures KeptDealers([a, b, c, d], onChain, m, v) ==
            (if BoundTo(a, onChain, m, v) then [a] else []) + (if BoundTo(b, onChain, m, v) then [b] else []) +
            (if BoundTo(c, onChain, m, v) then [c] else []) + (if BoundTo(d, onChain, m, v) then [d] else [])
  {
    hide BoundTo;
    var p := BoundToBy(onChain, m, v);
    assert [a, b, c, d][..3] == [a, b, c] && [a, b, c][..2] == [a, b] && [a, b][..1] == [a] && [a][..0] == [];
    assert Filter([a], p) == if p(a) then [a] else [];
    assert Filter([a, b], p) == Filter([a], p) + (if p(b) then [b] else []);
    assert Filter([a, b, c], p) == Filter([a, b], p) + (if p(c) then [c] else []);
  }

  // One vector per dealer ---------------------------------------------------------------------

  /** Every encoded point has the same size. */
  ghost predicate Encodings(cs: seq<Bytes>, size: nat) {
    forall i :: 0 <= i < |cs| ==> |cs[i]| == size
  }

  lemma {:induction false} ConcatInjective(cs: seq<Bytes>, ds: seq<Bytes>, size: nat)
    requires size > 0 && Encodings(cs, size) && Encodings(ds, size) && Concat(cs) == Concat(ds)
    ensures cs == ds
  {
    if cs != [] && ds != [] {
      assert cs[0] == Concat(cs)[..size] && ds[0] == Concat(ds)[..size];
      assert Concat(cs[1..]) == Concat(cs)[size..] && Concat(ds[1..]) == Concat(ds)[size..];
      ConcatInjective(cs[1..], ds[1..], size);
      assert cs == [cs[0]] + cs[1..] && ds == [ds[0]] + ds[1..];
    } else {
      OnlyEmptyIsEmpty(cs, size);
      OnlyEmptyIsEmpty(ds, size);
    }
  }

  lemma OnlyEmptyIsEmpty(cs: seq<Bytes>, size: nat)
    requires size > 0 && Encodings(cs, size)
    ensures Concat(cs) == [] <==> cs == []
  {
  }

  /** A dealer that two nodes bind to its on-chain hash has sent both the same commitments and version: in a reshare
      no dealer can deal different vectors to different finalizing nodes. */
  lemma BoundDealersDealOneVector(d: Address, onChain: map<Address, Digest>, m1: Received, m2: Received, size: nat)
    requires Injective(Sha256) && Bound(d, onChain, m1) && Bound(d, onChain, m2)
    requires size > 0 && Encodings(m1.commitments[d], size) && Encodings(m2.commitments[d], size)
    ensures m1.commitments[d] == m2.commitments[d] && m1.versions[d] == m2.versions[d]
  {
    var cs, ds := m1.commitments[d], m2.commitments[d];
    var p, q := Preimage(cs, m1.versions[d]), Preimage(ds, m2.versions[d]);
    assert Sha256(p) == Sha256(q);
    PreimageFixesVersion(cs, m1.versions[d], ds, m2.versions[d]);
    assert p[..|p| - 8] == Concat(cs) && q[..|q| - 8] == Concat(ds);
    ConcatInjective(cs, ds, size);
  }
}
