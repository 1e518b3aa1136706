/** pkg/merkle/merkle.go: acknowledgements in canonical order and the leaves built from them. The tree over the
    leaves (go-merkletree) is left open. */
module Merkle {
  import opened Results
  import opened Addresses
  import opened Lists
  import opened Sorting
  import opened SourceVersions

  type Bytes32 = b: Bytes | |b| == 32 witness seq(32, i => 0)

  datatype Acknowledgement = Acknowledgement(
    dealerAddress: Address,
    playerAddress: Address,
    sessionTimestamp: SourceVersions.Version,
    shareHash: Bytes32,
    commitmentHash: Bytes32
  )

  datatype MerkleTree = MerkleTree(leaves: seq<Bytes32>, root: Bytes32)

  const Keccak: Bytes -> Bytes32

  /** The root that go-merkletree computes for a leaf sequence. */
  const RootOf: seq<Bytes32> -> Bytes32

  function Player(): Acknowledgement -> Address { (ack: Acknowledgement) => ack.playerAddress }

  /** abi.encodePacked(player, dealer, uint64 timestamp, shareHash, commitmentHash). */
  function LeafPreimage(ack: Acknowledgement): Bytes {
    ack.playerAddress + ack.dealerAddress + BigEndian(AsUint64(ack.sessionTimestamp), 8) + ack.shareHash + ack.commitmentHash
  }

  function HashAcknowledgementForMerkle(ack: Acknowledgement): Bytes32 { Keccak(LeafPreimage(ack)) }

  /** The packed layout: player, dealer, eight timestamp bytes with the most significant first, share hash and
      commitment hash. */
  lemma LeafPreimageLayout(ack: Acknowledgement)
    ensures var p := LeafPreimage(ack);
            && |p| == 112 && p[..20] == ack.playerAddress && p[20..40] == ack.dealerAddress
            && p[48..80] == ack.shareHash && p[80..] == ack.commitmentHash
            && forall k :: 40 <= k < 48 ==>
                 p[k] == (if ack.sessionTimestamp < 0 then ack.sessionTimestamp + 0x1_0000_0000_0000_0000
                          else ack.sessionTimestamp) / Pow256(47 - k) % 256
  {
    hide BigEndian, Pow256;
    var p := LeafPreimage(ack);
    assert p[40..48] == BigEndian(AsUint64(ack.sessionTimestamp), 8);
    forall k | 40 <= k < 48
      ensures p[k] == AsUint64(ack.sessionTimestamp) / Pow256(47 - k) % 256
    {
      BigEndianDigit(AsUint64(ack.sessionTimestamp), 8, k - 40);
      assert p[k] == p[40..48][k - 40];
    }
  }

  /** The packed layout loses nothing: different acknowledgements have different leaf preimages. */
  lemma LeafPreimageInjective(a: Acknowledgement, b: Acknowledgement)
    requires LeafPreimage(a) == LeafPreimage(b)
    ensures a == b
  {
    var p, q := LeafPreimage(a), LeafPreimage(b);
    assert p[..20] == a.playerAddress && q[..20] == b.playerAddress;
    assert p[20..40] == a.dealerAddress && q[20..40] == b.dealerAddress;
    assert p[40..48] == BigEndian(AsUint64(a.sessionTimestamp), 8) && q[40..48] == BigEndian(AsUint64(b.sessionTimestamp), 8);
    assert p[48..80] == a.shareHash && q[48..80] == b.shareHash;
    assert p[80..] == a.commitmentHash && q[80..] == b.commitmentHash;
    PreimageFixesVersion([], a.sessionTimestamp, [], b.sessionTimestamp);
  }

  /** Sorted by player address, the same acknowledgements. */
  ghost predicate IsCanonical(sorted: seq<Acknowledgement>, acks: seq<Acknowledgement>) {
    Sorted(sorted, Player()) && multiset(sorted) == multiset(acks)
  }

  ghost predicate DistinctPlayers(acks: seq<Acknowledgement>) {
    forall i, j :: 0 <= i < j < |acks| ==> acks[i].playerAddress != acks[j].playerAddress
  }

  /** Works on a copy: the caller's slice keeps its order. */
  method SortAcknowledgements(acks: array<Acknowledgement>) returns (sorted: array<Acknowledgement>)
    ensures fresh(sorted) && sorted.Length == acks.Length
    ensures IsCanonical(sorted[..], acks[..]) && Ascends(sorted[..], Player())
  {
    var s := SortSlice(acks[..], Player());
    sorted := new Acknowledgement[acks.Length](i requires 0 <= i < |s| => s[i]);
    assert sorted[..] == s;
    SortedAscends(s, Player());
  }

  function Leaves(sorted: seq<Acknowledgement>): (r: seq<Bytes32>)
    ensures |r| == |sorted| && forall i :: 0 <= i < |r| ==> r[i] == HashAcknowledgementForMerkle(sorted[i])
  {
    seq(|sorted|, i requires 0 <= i < |sorted| => HashAcknowledgementForMerkle(sorted[i]))
  }

  method BuildMerkleTree(acks: array<Acknowledgement>) returns (r: Result<MerkleTree>, ghost sorted: seq<Acknowledgement>)
    ensures r.Ok? <==> acks.Length > 0
    ensures r.Ok? ==> IsCanonical(sorted, acks[..]) && Ascends(sorted, Player())
    ensures r.Ok? ==>
              && |r.value.leaves| == |sorted| && r.value.root == RootOf(r.value.leaves)
              && forall i :: 0 <= i < |sorted| ==> r.value.leaves[i] == Keccak(LeafPreimage(sorted[i]))
    ensures r.Ok? ==> r.value == MerkleTree(Leaves(sorted), RootOf(Leaves(sorted)))
  {
    sorted := [];
    if acks.Length == 0 {
      return Err("cannot build merkle tree from empty acknowledgement list"), sorted;
    }
    var sortedAcks := SortAcknowledgements(acks);
    sorted := sortedAcks[..];
    var leaves := new Bytes32[sortedAcks.Length];
    for i := 0 to sortedAcks.Length
      invariant sortedAcks[..] == sorted
      invariant leaves[..i] == Leaves(sorted)[..i]
    {
      leaves[i] := HashAcknowledgementForMerkle(sortedAcks[i]);
    }
    assert leaves[..] == Leaves(sorted);
    r := Ok(MerkleTree(leaves[..], RootOf(leaves[..])));
  }

  lemma DistinctAfterSorting(sorted: seq<Acknowledgement>, acks: seq<Acknowledgement>)
    requires DistinctPlayers(acks) && multiset(sorted) == multiset(acks)
    ensures DistinctPlayers(sorted)
  {
    forall i, j | 0 <= i < j < |sorted|
      ensures sorted[i].playerAddress != sorted[j].playerAddress
    {
      assert sorted[i] in multiset(acks) && sorted[j] in multiset(acks);
      var m :| 0 <= m < |acks| && acks[m] == sorted[i];
      var n :| 0 <= n < |acks| && acks[n] == sorted[j];
      if m == n {
        TwoOccurrences(sorted, i, j);
        OnlyOnce(acks, m);
      }
    }
  }

  lemma OnlyOnce(acks: seq<Acknowledgement>, m: nat)
    requires DistinctPlayers(acks) && m < |acks|
    ensures multiset(acks)[acks[m]] == 1
  {
    assert acks == acks[..m] + [acks[m]] + acks[m + 1..];
    assert acks[m] !in acks[..m] && acks[m] !in acks[m + 1..];
  }

  /** CANONICAL ORDER. With distinct players, every reordering of the acknowledgements (the map order they were
      collected in) gives the same sorted list, so the same leaves and the same root. */
  lemma OrderDoesNotMatter(acks1: seq<Acknowledgement>, sorted1: seq<Acknowledgement>,
                           acks2: seq<Acknowledgement>, sorted2: seq<Acknowledgement>)
    requires DistinctPlayers(acks1) && multiset(acks1) == multiset(acks2)
    requires IsCanonical(sorted1, acks1) && IsCanonical(sorted2, acks2)
    ensures sorted1 == sorted2
  {
    DistinctAfterSorting(sorted1, acks1);
    SortedIsUnique(sorted1, sorted2, Player());
  }

  /** The dealer sorts and builds independently; the position at which it finds a recipient in its own sorted
      list is the position of that recipient's leaf, and of no other. */
  lemma RecipientIndexIsLeafIndex(acks: seq<Acknowledgement>, built: seq<Acknowledgement>,
                                  sorted: seq<Acknowledgement>, k: nat)
    requires DistinctPlayers(acks) && IsCanonical(built, acks) && IsCanonical(sorted, acks) && k < |sorted|
    ensures k < |Leaves(built)| && Leaves(built)[k] == HashAcknowledgementForMerkle(sorted[k])
    ensures forall i :: 0 <= i < |built| && built[i].playerAddress == sorted[k].playerAddress ==> i == k
  {
    OrderDoesNotMatter(acks, built, acks, sorted);
    DistinctAfterSorting(sorted, acks);
  }

  /** The lookup of BroadcastCommitmentsWithProofs in pkg/transport/client.go: the index it hands to the proof
      generator is that of the operator's own acknowledgement among the leaves of the built tree. */
  method LeafIndexFor(acks: array<Acknowledgement>, operator: Address, ghost built: seq<Acknowledgement>)
    returns (r: Result<nat>)
    requires DistinctPlayers(acks[..]) && IsCanonical(built, acks[..])
    ensures r.Ok? <==> exists k :: 0 <= k < acks.Length && acks[k].playerAddress == operator
    ensures r.Ok? ==> r.value < |built| && built[r.value].playerAddress == operator &&
                      Leaves(built)[r.value] == HashAcknowledgementForMerkle(built[r.value])
  {
    var sortedAcks := SortAcknowledgements(acks);
    ghost var sorted := sortedAcks[..];
    OrderDoesNotMatter(acks[..], built, acks[..], sorted);
    SameMembers(sorted, acks[..]);
    for idx := 0 to sortedAcks.Length
      invariant forall k :: 0 <= k < idx ==> sorted[k].playerAddress != operator
    {
      if sortedAcks[idx].playerAddress == operator {
        assert sorted[idx] in acks[..];
        return Ok(idx);
      }
    }
    assert forall k :: 0 <= k < acks.Length ==> acks[..][k] in sorted;
    return Err("no ack found for operator");
  }

  lemma SameMembers(a: seq<Acknowledgement>, b: seq<Acknowledgement>)
    requires multiset(a) == multiset(b)
    ensures forall x :: x in a <==> x in b
  {
    forall x
      ensures x in a <==> x in b
    {
      assert x in a <==> x in multiset(a);
      assert x in b <==> x in multiset(b);
    }
  }
}
