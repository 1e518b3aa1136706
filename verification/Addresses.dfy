/** Operator addresses: 20 bytes, ordered byte by byte (bytes.Compare in pkg/crypto/bls.go, and the
    explicit byte loop of pkg/merkle/merkle.go), and the field point derived from one. */
module Addresses {
  import opened PrimeField
  import opened Lists

  type Byte = b: int | 0 <= b < 256 witness 0
  type Bytes = seq<Byte>
  type Address = a: Bytes | |a| == 20 witness seq(20, i => 0)

  /** Keccak-256 read as a big-endian integer; which function it is does not matter here. */
  const Keccak256: Address -> nat

  /** bls.AddressToFr: SetBytes reduces the hash modulo the group order. */
  function AddressToFr(a: Address): Elem { Red(Keccak256(a)) }

  lemma PointIsTheHash(a: Address)
    ensures Cong(AddressToFr(a), Keccak256(a))
  {
    CongRed(Keccak256(a));
  }

  /** Lexicographic order on byte strings of equal length, decided at the first differing byte. */
  predicate BytesLess(a: Bytes, b: Bytes)
    requires |a| == |b|
  {
    a != [] && if a[0] != b[0] then a[0] < b[0] else BytesLess(a[1..], b[1..])
  }

  predicate Less(a: Address, b: Address) { BytesLess(a, b) }

  /** The first k bytes agree and byte k is smaller in a: ascending byte order. */
  ghost predicate Before(a: Bytes, b: Bytes)
    requires |a| == |b|
  {
    exists k :: 0 <= k < |a| && a[..k] == b[..k] && a[k] < b[k]
  }

  lemma {:induction false} LessIff(a: Bytes, b: Bytes)
    requires |a| == |b|
    ensures BytesLess(a, b) <==> Before(a, b)
  {
    if a != [] {
      LessIff(a[1..], b[1..]);
      if a[0] == b[0] && Before(a[1..], b[1..]) {
        var k :| 0 <= k < |a[1..]| && a[1..][..k] == b[1..][..k] && a[1..][k] < b[1..][k];
        assert a[..k + 1] == [a[0]] + a[1..][..k] && b[..k + 1] == [b[0]] + b[1..][..k];
        assert a[k + 1] < b[k + 1];
      }
      if k :| 0 <= k < |a| && a[..k] == b[..k] && a[k] < b[k] {
        if k > 0 {
          assert a[0] == a[..k][0] == b[..k][0] == b[0];
          assert a[1..][..k - 1] == a[..k][1..] && b[1..][..k - 1] == b[..k][1..];
          assert a[1..][k - 1] < b[1..][k - 1];
        }
      }
    }
  }

  lemma {:induction false} BytesTrichotomy(a: Bytes, b: Bytes)
    requires |a| == |b|
    ensures BytesLess(a, b) || BytesLess(b, a) || a == b
    ensures !(BytesLess(a, b) && BytesLess(b, a)) && !BytesLess(a, a)
  {
    if a != [] {
      BytesTrichotomy(a[1..], b[1..]);
      assert a == [a[0]] + a[1..] && b == [b[0]] + b[1..];
    }
  }

  lemma {:induction false} BytesLessTransitive(a: Bytes, b: Bytes, c: Bytes)
    requires |a| == |b| == |c|
    requires BytesLess(a, b) && BytesLess(b, c)
    ensures BytesLess(a, c)
  {
    if a[0] == b[0] == c[0] {
      BytesLessTransitive(a[1..], b[1..], c[1..]);
    }
  }

  /** The addresses in play hash to different field points. */
  ghost predicate DistinctPoints(ps: seq<Address>) {
    forall i, j :: 0 <= i < j < |ps| ==> AddressToFr(ps[i]) != AddressToFr(ps[j])
  }

  lemma PointsOfSome(ds: seq<Address>, ps: seq<Address>)
    requires DistinctPoints(ps) && Distinct(ds) && forall d :: d in ds ==> d in ps
    ensures DistinctPoints(ds)
  {
    forall i, k | 0 <= i < k < |ds|
      ensures AddressToFr(ds[i]) != AddressToFr(ds[k])
    {
      assert ds[i] in ds && ds[k] in ds && ds[i] != ds[k];
      var m :| 0 <= m < |ps| && ps[m] == ds[i];
      var n :| 0 <= n < |ps| && ps[n] == ds[k];
      assert m < n || n < m;
    }
  }

  ghost predicate NonzeroPoints(ps: seq<Address>) {
    forall a :: a in ps ==> AddressToFr(a) != 0
  }

  function Without<T>(s: seq<T>, i: nat): seq<T>
    requires i < |s|
  {
    s[..i] + s[i + 1..]
  }
}
