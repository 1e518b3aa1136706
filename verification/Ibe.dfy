/** Identity-based encryption of pkg/crypto/bls.go: the ciphertext format and the round trip. HKDF (section 2 of
    RFC 5869), AES-GCM and the point encodings are left open; what is used of them is PrimitivesLaw. A Go string
    is a byte string: each char stands for one byte. */
module Ibe {
  import opened Results
  import opened PrimeField
  import opened Addresses
  import opened Curve
  import opened ByzantineRecovery

  const MAGIC: Bytes := [0x49, 0x42, 0x45] // "IBE"
  const VERSION: Byte := 1
  const MAGIC_SIZE := 3
  const HEADER_SIZE := 4
  const G2_SIZE := 96
  const NONCE_SIZE := 12
  const TAG_SIZE := 16
  const MIN_CIPHERTEXT_SIZE := HEADER_SIZE + G2_SIZE + NONCE_SIZE + TAG_SIZE
  const HKDF_SALT := "eigenx-kms-go-ibe-encryption"

  type Nonce = b: Bytes | |b| == 12 witness seq(12, i => 0)
  type AesKey = b: Bytes | |b| == 32 witness seq(32, i => 0)

  const MarshalGT: GTPoint -> Bytes
  const Hkdf: (Bytes, Bytes, Bytes) -> AesKey
  const Seal: (AesKey, Nonce, Bytes, Bytes) -> Bytes
  const Open: (AesKey, Nonce, Bytes, Bytes) -> Option<Bytes>

  /** Decoding inverts encoding; opening inverts sealing under the same key, nonce and additional data; sealing
      appends a tag. */
  ghost predicate PrimitivesLaw() {
    && EncodingLaw()
    && (forall k, n, p, aad :: Open(k, n, Seal(k, n, p, aad), aad) == Some(p))
    && (forall k, n, p, aad :: |Seal(k, n, p, aad)| == |p| + TAG_SIZE)
  }

  function StringBytes(s: string): (b: Bytes)
    ensures |b| == |s| && forall i :: 0 <= i < |s| ==> b[i] == s[i] as int % 256
  {
    seq(|s|, i requires 0 <= i < |s| => s[i] as int % 256)
  }

  /** util.ValidateAppID. */
  function ValidateAppID(appID: string): Result<()> {
    if appID == "" then Err("appID is empty")
    else if |appID| < 5 then Err("appID is too short (minimum 5 characters)")
    else Ok(())
  }

  /** %d of a byte. */
  function Decimal(v: nat): string {
    var digit := "0123456789"[v % 10];
    if v < 10 then [digit] else Decimal(v / 10) + [digit]
  }

  /** The info string binds the key to the version and the application. */
  function KeyInfo(version: Byte, appID: string): string {
    "IBE-encryption|v" + Decimal(version) + "|" + appID
  }

  function DeriveKeyMaterial(gID: GTPoint, version: Byte, appID: string): AesKey {
    Hkdf(MarshalGT(gID), StringBytes(HKDF_SALT), StringBytes(KeyInfo(version, appID)))
  }

  function BuildAAD(appID: string, version: Byte, c1: G2Bytes): Bytes {
    StringBytes(appID) + [version] + c1
  }

  /** The wire layout: magic, version, C1, nonce, sealed data. */
  function Assemble(c1: G2Bytes, nonce: Nonce, sealed: Bytes): Bytes {
    MAGIC + [VERSION] + c1 + nonce + sealed
  }

  /** EncryptForApp; r and the nonce are the random draws. */
  function EncryptForApp(appID: string, masterPublicKey: G2Point, plaintext: Bytes, r: Elem, nonce: Nonce): Result<Bytes> {
    if ValidateAppID(appID).Err? then Err("invalid app ID for encryption")
    else if masterPublicKey.IsZero() then Err("invalid master public key: zero/infinity point")
    else
      var c1 := ScalarMulG2(G2Generator, r);
      if c1.IsZero() then Err("internal error: C1 is infinity point")
      else
        var pairing := Pair(HashToG1(appID), masterPublicKey);
        if pairing.IsOne() then Err("invalid pairing result: identity element")
        else
          var gID := ExpGT(pairing, r);
          if gID.IsOne() then Err("invalid g_ID: identity element")
          else
            var key := DeriveKeyMaterial(gID, VERSION, appID);
            var c1Bytes := MarshalG2(c1);
            var sealed := Seal(key, nonce, plaintext, BuildAAD(appID, VERSION, c1Bytes));
            Ok(Assemble(c1Bytes, nonce, sealed))
  }

  function ValidateCiphertextFormat(c: Bytes): Result<()> {
    if |c| < MIN_CIPHERTEXT_SIZE then Err("ciphertext too short")
    else if c[..MAGIC_SIZE] != MAGIC then Err("invalid ciphertext format: missing or incorrect magic number")
    else if c[MAGIC_SIZE] != VERSION then Err("unsupported ciphertext version")
    else Ok(())
  }

  function C1Field(c: Bytes): G2Bytes
    requires |c| >= MIN_CIPHERTEXT_SIZE
  {
    c[HEADER_SIZE..HEADER_SIZE + G2_SIZE]
  }

  function NonceField(c: Bytes): Nonce
    requires |c| >= MIN_CIPHERTEXT_SIZE
  {
    c[HEADER_SIZE + G2_SIZE..HEADER_SIZE + G2_SIZE + NONCE_SIZE]
  }

  function SealedField(c: Bytes): Bytes
    requires |c| >= MIN_CIPHERTEXT_SIZE
  {
    c[HEADER_SIZE + G2_SIZE + NONCE_SIZE..]
  }

  function DecryptForApp(appID: string, appPrivateKey: G1Point, c: Bytes): Result<Bytes> {
    if ValidateAppID(appID).Err? then Err("invalid app ID")
    else if ValidateCiphertextFormat(c).Err? then Err(ValidateCiphertextFormat(c).reason)
    else if appPrivateKey.IsZero() then Err("invalid app private key: zero/infinity point")
    else
      var c1 := UnmarshalG2(C1Field(c));
      if c1.None? then Err("failed to convert C1 to G2Affine")
      else if c1.value.IsZero() then Err("invalid ciphertext: C1 is infinity point")
      else
        var gID := Pair(appPrivateKey, c1.value);
        if gID.IsOne() then Err("invalid pairing result: identity element")
        else
          var version := c[MAGIC_SIZE];
          var key := DeriveKeyMaterial(gID, version, appID);
          match Open(key, NonceField(c), SealedField(c), BuildAAD(appID, version, C1Field(c)))
          case None => Err("failed to decrypt")
          case Some(plaintext) => Ok(plaintext)
  }

  // What the key and the additional data are bound to -------------------------------------------

  predicate AllDigits(s: string) {
    forall i :: 0 <= i < |s| ==> '0' <= s[i] <= '9'
  }

  lemma {:induction false} DecimalIsDigits(v: nat)
    ensures AllDigits(Decimal(v)) && Decimal(v) != []
  {
    if v >= 10 {
      DecimalIsDigits(v / 10);
    }
  }

  lemma {:induction false} DecimalInjective(v: nat, w: nat)
    requires Decimal(v) == Decimal(w)
    ensures v == w
  {
    var d, e := Decimal(v), Decimal(w);
    assert d[|d| - 1] == "0123456789"[v % 10] && e[|e| - 1] == "0123456789"[w % 10];
    if v >= 10 {
      DecimalIsDigits(v / 10);
    }
    if w >= 10 {
      DecimalIsDigits(w / 10);
    }
    assert v < 10 <==> w < 10;
    if v >= 10 {
      assert d[..|d| - 1] == Decimal(v / 10) && e[..|e| - 1] == Decimal(w / 10);
      DecimalInjective(v / 10, w / 10);
    }
  }

  /** Different versions or applications never share an info string. */
  lemma KeyInfoInjective(v: Byte, a: string, w: Byte, b: string)
    requires KeyInfo(v, a) == KeyInfo(w, b)
    ensures v == w && a == b
  {
    hide Decimal;
    var n, d, e := |"IBE-encryption|v"|, Decimal(v), Decimal(w);
    DecimalIsDigits(v);
    DecimalIsDigits(w);
    var s, t := KeyInfo(v, a)[n..], KeyInfo(w, b)[n..];
    assert s == d + "|" + a && t == e + "|" + b;
    SeparatorPosition(d, a, e, b);
    assert s[..|d|] == d && t[..|e|] == e && s[|d| + 1..] == a && t[|e| + 1..] == b;
    DecimalInjective(v, w);
  }

  lemma {:induction false} SeparatorPosition(d: string, a: string, e: string, b: string)
    requires AllDigits(d) && AllDigits(e) && d + "|" + a == e + "|" + b
    ensures |d| == |e|
  {
    assert (d + "|" + a)[0] == if d == [] then '|' else d[0];
    assert (e + "|" + b)[0] == if e == [] then '|' else e[0];
    if d != [] && e != [] {
      assert (d + "|" + a)[1..] == d[1..] + "|" + a;
      assert (e + "|" + b)[1..] == e[1..] + "|" + b;
      SeparatorPosition(d[1..], a, e[1..], b);
    }
  }

  lemma KeyInfoOfVersion(appID: string)
    ensures KeyInfo(VERSION, appID) == "IBE-encryption|v1|" + appID
  {
    assert Decimal(1) == "1";
  }

  /** The additional data is the application ID, the version and C1, in this order, and nothing else. */
  lemma AADLayout(appID: string, version: Byte, c1: G2Bytes)
    ensures var aad, n := BuildAAD(appID, version, c1), |appID|;
            && |aad| == n + 97 && aad[n] == version && aad[n + 1..] == c1
            && forall i :: 0 <= i < n ==> aad[i] == appID[i] as int % 256
  {
  }

  /** The key of version 1, with nothing left to definitions. */
  function KeyFor(gID: GTPoint, appID: string): AesKey {
    Hkdf(MarshalGT(gID), StringBytes("eigenx-kms-go-ibe-encryption"), StringBytes("IBE-encryption|v1|" + appID))
  }

  // The format ----------------------------------------------------------------------------------

  /** A byte string passes the format check exactly when it is an assembly of fields of the right sizes, and the
      fields read from it are those. */
  lemma FormatIsExact(c: Bytes)
    ensures ValidateCiphertextFormat(c).Ok? <==>
            exists c1: G2Bytes, nonce: Nonce, sealed: Bytes :: |sealed| >= TAG_SIZE && c == Assemble(c1, nonce, sealed)
    ensures ValidateCiphertextFormat(c).Ok? ==> c == Assemble(C1Field(c), NonceField(c), SealedField(c))
  {
    if ValidateCiphertextFormat(c).Ok? {
      assert c == c[..3] + [c[3]] + c[4..100] + c[100..112] + c[112..];
      assert c == Assemble(C1Field(c), NonceField(c), SealedField(c));
    }
    if c1: G2Bytes, nonce: Nonce, sealed: Bytes :| |sealed| >= TAG_SIZE && c == Assemble(c1, nonce, sealed) {
      AssembledSplits(c1, nonce, sealed);
    }
  }

  lemma AssembledSplits(c1: G2Bytes, nonce: Nonce, sealed: Bytes)
    requires |sealed| >= TAG_SIZE
    ensures var c := Assemble(c1, nonce, sealed);
            ValidateCiphertextFormat(c).Ok? && C1Field(c) == c1 && NonceField(c) == nonce && SealedField(c) == sealed
  {
    var c := Assemble(c1, nonce, sealed);
    assert c[..3] == MAGIC;
    assert c[4..100] == c1;
    assert c[100..112] == nonce;
    assert c[112..] == sealed;
  }

  // When decryption succeeds --------------------------------------------------------------------

  /** These fields make up the ciphertext and open to p under the application's key. */
  ghost predicate OpensAs(appID: string, appPrivateKey: G1Point, c: Bytes, c1: G2Bytes, nonce: Nonce, sealed: Bytes, p: Bytes) {
    && |sealed| >= 16 && c == [0x49, 0x42, 0x45, 0x01] + c1 + nonce + sealed
    && UnmarshalG2(c1).Some? && !UnmarshalG2(c1).value.IsZero()
    && Open(KeyFor(Pair(appPrivateKey, UnmarshalG2(c1).value), appID), nonce, sealed, StringBytes(appID) + [1] + c1) == Some(p)
  }

  lemma AssembledBytes(c1: G2Bytes, nonce: Nonce, sealed: Bytes)
    ensures Assemble(c1, nonce, sealed) == [0x49, 0x42, 0x45, 0x01] + c1 + nonce + sealed
  {
    assert MAGIC + [VERSION] == [0x49, 0x42, 0x45, 0x01];
  }

  /** Decryption succeeds with p exactly for an application ID of at least five bytes, a nonzero key, and a ciphertext
      whose fields open to p; a tag that does not verify, like every other failure, is an error. */
  lemma DecryptIff(appID: string, appPrivateKey: G1Point, c: Bytes, p: Bytes)
    ensures DecryptForApp(appID, appPrivateKey, c) == Ok(p) <==>
            && |appID| >= 5 && !appPrivateKey.IsZero()
            && exists c1: G2Bytes, nonce: Nonce, sealed: Bytes :: OpensAs(appID, appPrivateKey, c, c1, nonce, sealed, p)
  {
    hide Assemble, Mul, StringBytes, KeyInfo, ValidateCiphertextFormat, OpensAs;
    KeyInfoOfVersion(appID);
    FormatIsExact(c);
    if ValidateCiphertextFormat(c).Ok? {
      VersionField(c);
      DecryptFields(appID, appPrivateKey, c, p);
    }
    if c1: G2Bytes, nonce: Nonce, sealed: Bytes :| OpensAs(appID, appPrivateKey, c, c1, nonce, sealed, p) {
      OpenedIsAssembled(appID, appPrivateKey, c, c1, nonce, sealed, p);
      AssembledSplits(c1, nonce, sealed);
    }
  }

  lemma OpenedIsAssembled(appID: string, key: G1Point, c: Bytes, c1: G2Bytes, nonce: Nonce, sealed: Bytes, p: Bytes)
    requires OpensAs(appID, key, c, c1, nonce, sealed, p)
    ensures |sealed| >= TAG_SIZE && c == Assemble(c1, nonce, sealed)
  {
    AssembledBytes(c1, nonce, sealed);
  }

  /** On a well-formed ciphertext only the fields read from it can open. */
  lemma DecryptFields(appID: string, key: G1Point, c: Bytes, p: Bytes)
    requires ValidateCiphertextFormat(c).Ok? && |c| >= MIN_CIPHERTEXT_SIZE && c[MAGIC_SIZE] == VERSION
    ensures DecryptForApp(appID, key, c) == Ok(p) <==>
            |appID| >= 5 && !key.IsZero() && OpensAs(appID, key, c, C1Field(c), NonceField(c), SealedField(c), p)
    ensures forall c1: G2Bytes, nonce: Nonce, sealed: Bytes :: OpensAs(appID, key, c, c1, nonce, sealed, p) ==>
              c1 == C1Field(c) && nonce == NonceField(c) && sealed == SealedField(c)
  {
    hide Assemble, Mul, StringBytes, KeyInfo, ValidateCiphertextFormat, C1Field, NonceField, SealedField;
    var c1, nonce, sealed := C1Field(c), NonceField(c), SealedField(c);
    FormatIsExact(c);
    AssembledBytes(c1, nonce, sealed);
    SealedSize(c);
    KeyInfoOfVersion(appID);
    if UnmarshalG2(c1).Some? {
      ProductIsZeroIff(key.log, UnmarshalG2(c1).value.log);
    }
    forall d1: G2Bytes, n: Nonce, x: Bytes | OpensAs(appID, key, c, d1, n, x, p)
      ensures d1 == c1 && n == nonce && x == sealed
    {
      OpenedIsAssembled(appID, key, c, d1, n, x, p);
      AssembledSplits(d1, n, x);
    }
  }

  lemma SealedSize(c: Bytes)
    requires ValidateCiphertextFormat(c).Ok?
    ensures |c| >= MIN_CIPHERTEXT_SIZE && |SealedField(c)| >= TAG_SIZE
  {
  }

  /** What encryption writes, byte field by byte field. */
  lemma EncryptedForm(appID: string, mpk: G2Point, plaintext: Bytes, r: Elem, nonce: Nonce)
    requires EncryptForApp(appID, mpk, plaintext, r, nonce).Ok?
    ensures var c1 := MarshalG2(G2Point(r));
            EncryptForApp(appID, mpk, plaintext, r, nonce).value ==
            [0x49, 0x42, 0x45, 0x01] + c1 + nonce +
            Seal(KeyFor(ExpGT(Pair(HashToG1(appID), mpk), r), appID), nonce, plaintext, StringBytes(appID) + [1] + c1)
  {
    hide Mul, Assemble, StringBytes, KeyInfo;
    ScalarMulGenerator(r);
    KeyInfoOfVersion(appID);
    var c1 := MarshalG2(G2Point(r));
    AssembledBytes(c1, nonce, Seal(KeyFor(ExpGT(Pair(HashToG1(appID), mpk), r), appID), nonce, plaintext,
                                   StringBytes(appID) + [1] + c1));
  }

  // The pairing algebra -------------------------------------------------------------------------

  /** e(s Q, r P) == e(Q, s P)^r. */
  lemma Bilinear(q: G1Point, s: Elem, r: Elem)
    ensures Pair(ScalarMulG1(q, s), ScalarMulG2(G2Generator, r)) ==
            ExpGT(Pair(q, ScalarMulG2(G2Generator, s)), r)
  {
    hide Red;
    ScalarMulGenerator(s);
    ScalarMulGenerator(r);
  }

  lemma ProductIsZeroIff(a: Elem, b: Elem)
    ensures Mul(a, b) == 0 <==> a == 0 || b == 0
  {
    hide Red;
    RedElem(0);
    RedElem(a);
    RedElem(b);
    if a != 0 && b != 0 {
      ProductNonzero(a, b);
    } else {
      assert a * b == 0;
    }
  }

  /** Encryption fails only for a short app ID, a zero master key, zero randomness, or an app ID hashing to the
      point at infinity; the two identity checks on the pairing never fire otherwise. */
  lemma EncryptSucceedsIff(appID: string, mpk: G2Point, plaintext: Bytes, r: Elem, nonce: Nonce)
    ensures EncryptForApp(appID, mpk, plaintext, r, nonce).Ok? <==>
            |appID| >= 5 && !mpk.IsZero() && r != 0 && !HashToG1(appID).IsZero()
  {
    hide Mul;
    ScalarMulGenerator(r);
    ProductIsZeroIff(HashToG1(appID).log, mpk.log);
    ProductIsZeroIff(Mul(HashToG1(appID).log, mpk.log), r);
  }

  /** IBE ROUND TRIP. What was encrypted for an application under secret * G2 is decrypted by secret * H(appID),
      and the ciphertext passes the format check. */
  lemma DecryptInvertsEncrypt(appID: string, secret: Elem, plaintext: Bytes, r: Elem, nonce: Nonce)
    requires PrimitivesLaw()
    requires var mpk := ScalarMulG2(G2Generator, secret); EncryptForApp(appID, mpk, plaintext, r, nonce).Ok?
    ensures var c := EncryptForApp(appID, ScalarMulG2(G2Generator, secret), plaintext, r, nonce).value;
            && ValidateCiphertextFormat(c).Ok?
            && C1Field(c) == MarshalG2(ScalarMulG2(G2Generator, r)) && NonceField(c) == nonce
            && DecryptForApp(appID, AppKey(appID, secret), c) == Ok(plaintext)
  {
    hide Mul, Assemble, ValidateCiphertextFormat, C1Field, NonceField, SealedField, DeriveKeyMaterial, BuildAAD;
    var q := HashToG1(appID);
    var mpk := ScalarMulG2(G2Generator, secret);
    EncryptSucceedsIff(appID, mpk, plaintext, r, nonce);
    Bilinear(q, secret, r);
    ScalarMulGenerator(secret);
    ProductIsZeroIff(q.log, secret);
    var c1 := MarshalG2(ScalarMulG2(G2Generator, r));
    var key := DeriveKeyMaterial(ExpGT(Pair(q, mpk), r), VERSION, appID);
    var sealed := Seal(key, nonce, plaintext, BuildAAD(appID, VERSION, c1));
    AssembledSplits(c1, nonce, sealed);
    VersionField(Assemble(c1, nonce, sealed));
  }

  lemma VersionField(c: Bytes)
    requires ValidateCiphertextFormat(c).Ok?
    ensures |c| >= MIN_CIPHERTEXT_SIZE && c[MAGIC_SIZE] == VERSION
  {
  }

  /** Any key that the pairing check accepts decrypts every ciphertext made for the application. */
  lemma VerifiedKeyDecrypts(appID: string, key: G1Point, secret: Elem, plaintext: Bytes, r: Elem, nonce: Nonce)
    requires PrimitivesLaw()
    requires VerifyAppPrivateKey(appID, key, ScalarMulG2(G2Generator, secret))
    requires EncryptForApp(appID, ScalarMulG2(G2Generator, secret), plaintext, r, nonce).Ok?
    ensures var c := EncryptForApp(appID, ScalarMulG2(G2Generator, secret), plaintext, r, nonce).value;
            DecryptForApp(appID, key, c) == Ok(plaintext)
  {
    hide EncryptForApp, DecryptForApp, VerifyAppPrivateKey, ValidateCiphertextFormat, Mul;
    PairingAcceptsOnlyTheAppKey(appID, key, secret);
    DecryptInvertsEncrypt(appID, secret, plaintext, r, nonce);
  }
}
