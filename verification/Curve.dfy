/** The pairing groups G1, G2 and GT. Each is cyclic of prime order R, so a group element is
    represented by its exponent with respect to a fixed generator: point addition adds exponents,
    scalar multiplication multiplies them, and the pairing multiplies across groups.
    Points outside the groups are not part of this representation. */
module Curve {
  import opened Results
  import opened PrimeField
  import opened Addresses

  datatype G1Point = G1Point(log: Elem) {
    predicate IsZero() { log == 0 }
  }

  datatype G2Point = G2Point(log: Elem) {
    predicate IsZero() { log == 0 }
  }

  datatype GTPoint = GTPoint(log: Elem) {
    predicate IsOne() { log == 0 }
  }

  const G1Generator := G1Point(1)
  const G2Generator := G2Point(1)
  const ZeroG1 := G1Point(0)
  const ZeroG2 := G2Point(0)

  function ScalarMulG1(p: G1Point, k: Elem): G1Point { G1Point(Mul(p.log, k)) }
  function ScalarMulG2(p: G2Point, k: Elem): G2Point { G2Point(Mul(p.log, k)) }
  function AddG1(a: G1Point, b: G1Point): G1Point { G1Point(Add(a.log, b.log)) }
  function AddG2(a: G2Point, b: G2Point): G2Point { G2Point(Add(a.log, b.log)) }
  function NegG1(a: G1Point): G1Point { G1Point(Neg(a.log)) }

  function Pair(a: G1Point, b: G2Point): GTPoint { GTPoint(Mul(a.log, b.log)) }
  function MulGT(a: GTPoint, b: GTPoint): GTPoint { GTPoint(Add(a.log, b.log)) }
  function ExpGT(a: GTPoint, k: Elem): GTPoint { GTPoint(Mul(a.log, k)) }

  /** The exponents behind a list of commitments. */
  function Logs(cs: seq<G2Point>): (s: seq<Elem>)
    ensures |s| == |cs|
    ensures forall i :: 0 <= i < |cs| ==> s[i] == cs[i].log
  {
    seq(|cs|, i requires 0 <= i < |cs| => cs[i].log)
  }

  lemma MulOne(k: Elem)
    ensures Mul(1, k) == k && Mul(k, 1) == k
  {
    RedElem(k);
  }

  lemma ScalarMulGenerator(k: Elem)
    ensures ScalarMulG2(G2Generator, k) == G2Point(k)
    ensures ScalarMulG1(G1Generator, k) == G1Point(k)
  {
    MulOne(k);
  }

  // Compressed encodings ------------------------------------------------------------------------

  type G2Bytes = b: Bytes | |b| == 96 witness seq(96, i => 0)

  const MarshalG2: G2Point -> G2Bytes
  const UnmarshalG2: G2Bytes -> Option<G2Point>

  /** Decoding inverts encoding. */
  ghost predicate EncodingLaw() {
    forall p :: UnmarshalG2(MarshalG2(p)) == Some(p)
  }
}
