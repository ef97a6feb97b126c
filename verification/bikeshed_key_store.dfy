/** The server's encryption key store: an RSA key generated once, the DER form of
    its public half, and the three operations that read them. The store is an
    immutable value, so every operation sees the key bytes it was built with.

    SHA-1, PKCS#1 v1.5 decryption and DER encoding are opaque function values. */
module BikeShedKeyStore {
  import opened Wrappers
  import opened Numeric
  import opened BigIntHex

  /** Modulus size of the generated key. */
  const ModulusBits: nat := 1024
  /** Largest message PKCS#1 v1.5 encryption carries under that modulus: k - 11 bytes. */
  const MaxPkcs1Payload: nat := ModulusBits / 8 - 11

  type Sha1Digest = s: seq<Byte> | |s| == 20
    witness [0, 0, 0, 0, 0, 0, 0, 0, 0, 0, 0, 0, 0, 0, 0, 0, 0, 0, 0, 0]
  type VerificationToken = s: seq<Byte> | |s| == 4 witness [0, 0, 0, 0]

  datatype RsaPrivateKey = RsaPrivateKey(modulus: nat, publicExponent: nat, privateExponent: nat)

  datatype KeyStore = KeyStore(privateKey: RsaPrivateKey, publicKeyDer: seq<Byte>)

  /** `CEncryptionRequest`, the packet that offers the public key to the client. */
  datatype EncryptionRequestPacket = EncryptionRequestPacket(
    serverId: string,
    publicKey: seq<Byte>,
    verificationToken: VerificationToken,
    shouldAuthenticate: bool)

  datatype EncryptionError = FailedDecrypt

  /** `auth_digest`: the bytes as a signed big-endian integer, written in signed base 16:
      a `-` only for a negative value, lowercase digits, no zero padding. */
  function AuthDigest(bytes: seq<Byte>): (s: string)
    ensures ParseSignedHex(s) == Some(SignedBE(bytes))
    ensures IsCanonicalHex(s)
    ensures |s| > 0 && (s[0] == '-' <==> |bytes| > 0 && bytes[0] >= 0x80)
  {
    ToStrRadix16ReadsBack(SignedBE(bytes));
    ToStrRadix16Canonical(SignedBE(bytes));
    SignedBESign(bytes);
    ToStrRadix16(SignedBE(bytes))
  }

  /** No other spelling of the value is a digest: a canonical string that reads as the
      bytes' signed value is exactly `AuthDigest`. */
  lemma AuthDigestOnlyCanonical(bytes: seq<Byte>, s: string)
    requires IsCanonicalHex(s)
    requires ParseSignedHex(s) == Some(SignedBE(bytes))
    ensures s == AuthDigest(bytes)
  {
    CanonicalIsToStrRadix16(s);
  }

  /** The digest is `0` exactly for empty or all-zero input. */
  lemma AuthDigestZero(bytes: seq<Byte>)
    ensures AuthDigest(bytes) == "0" <==> forall i :: 0 <= i < |bytes| ==> bytes[i] == 0
  {
    UnsignedBEZero(bytes);
    SignedBESign(bytes);
    var v := SignedBE(bytes);
    if v < 0 {
      assert AuthDigest(bytes)[0] == '-';
    } else if v > 0 {
      assert ToHex(v)[0] != '0';
    }
  }

  /** No zero padding: at most two digits per input byte, fewer when the value is small. */
  lemma AuthDigestDigitBound(bytes: seq<Byte>)
    requires |bytes| > 0
    ensures |Magnitude(AuthDigest(bytes))| <= 2 * |bytes|
  {
    var v := SignedBE(bytes);
    SignedBEMagnitude(bytes);
    Pow256IsPow16(|bytes|);
    if v < 0 {
      assert Magnitude(AuthDigest(bytes)) == ToHex(-v);
      ToHexLength(-v, 2 * |bytes|);
    } else {
      assert Magnitude(AuthDigest(bytes)) == ToHex(v);
      ToHexLength(v, 2 * |bytes|);
    }
  }

  /** Different byte strings of one length never share a digest. */
  lemma AuthDigestInjective(a: seq<Byte>, b: seq<Byte>)
    requires |a| == |b|
    requires AuthDigest(a) == AuthDigest(b)
    ensures a == b
  {
    SignedBEInjective(a, b);
  }

  /** Negative values are written with a sign, not as the hex dump of their bytes. */
  lemma AuthDigestNegativeExamples()
    ensures AuthDigest([0x83, 0x62]) == "-7c9e"
    ensures AuthDigest([0xff, 0xff]) == "-1"
  {
    assert SignedBE([0x83, 0x62]) == -0x7c9e;
    assert SignedBE([0xff, 0xff]) == -1;
  }

  /** Leading zero bytes leave no zero digits behind. */
  lemma AuthDigestUnpaddedExamples()
    ensures AuthDigest([0x00, 0x0f]) == "f"
    ensures AuthDigest([]) == "0"
  {
    assert SignedBE([0x00, 0x0f]) == 0x0f;
  }

  /** `BikeShedKeyStore::new`, given the generated key: the DER is computed once from the
      public modulus and exponent. */
  function NewKeyStore(key: RsaPrivateKey, publicKeyToDer: (seq<Byte>, seq<Byte>) -> seq<Byte>): (store: KeyStore)
    ensures store.privateKey == key
    ensures store.publicKeyDer == publicKeyToDer(ToBytesBE(key.modulus), ToBytesBE(key.publicExponent))
  {
    KeyStore(key, publicKeyToDer(ToBytesBE(key.modulus), ToBytesBE(key.publicExponent)))
  }

  /** The stored DER depends on the public half of the key only. */
  lemma DerDependsOnPublicKey(k1: RsaPrivateKey, k2: RsaPrivateKey, publicKeyToDer: (seq<Byte>, seq<Byte>) -> seq<Byte>)
    requires k1.modulus == k2.modulus && k1.publicExponent == k2.publicExponent
    ensures NewKeyStore(k1, publicKeyToDer).publicKeyDer == NewKeyStore(k2, publicKeyToDer).publicKeyDer
  {
  }

  /** `encryption_request`: the stored DER as the public key; the other fields pass through. */
  function EncryptionRequest(store: KeyStore, serverId: string, verificationToken: VerificationToken, shouldAuthenticate: bool)
    : (packet: EncryptionRequestPacket)
    ensures packet.publicKey == store.publicKeyDer
    ensures packet.serverId == serverId
    ensures packet.verificationToken == verificationToken
    ensures packet.shouldAuthenticate == shouldAuthenticate
  {
    EncryptionRequestPacket(serverId, store.publicKeyDer, verificationToken, shouldAuthenticate)
  }

  /** Every request built from one store presents the same key bytes. */
  lemma RequestsShareOneKey(
    store: KeyStore, id1: string, t1: VerificationToken, a1: bool, id2: string, t2: VerificationToken, a2: bool)
    ensures EncryptionRequest(store, id1, t1, a1).publicKey == EncryptionRequest(store, id2, t2, a2).publicKey
  {
  }

  /** `decrypt`: the PKCS#1 v1.5 plaintext, or `FailedDecrypt` and nothing else. */
  function Decrypt(store: KeyStore, data: seq<Byte>, pkcs1Decrypt: (RsaPrivateKey, seq<Byte>) -> Option<seq<Byte>>)
    : (r: Result<seq<Byte>, EncryptionError>)
    ensures r.Failure? <==> pkcs1Decrypt(store.privateKey, data).None?
    ensures r.Failure? ==> r.error == FailedDecrypt
    ensures r.Success? ==> r.value == pkcs1Decrypt(store.privateKey, data).value
  {
    match pkcs1Decrypt(store.privateKey, data)
    case None => Failure(FailedDecrypt)
    case Some(plaintext) => Success(plaintext)
  }

  /** PKCS#1 v1.5 is correct for `key`: decrypting an encryption (under the public
      modulus and exponent, with any padding seed) of a message that fits gives it back. */
  ghost predicate Pkcs1Correct(
    key: RsaPrivateKey,
    pkcs1Encrypt: (nat, nat, seq<Byte>, nat) -> seq<Byte>,
    pkcs1Decrypt: (RsaPrivateKey, seq<Byte>) -> Option<seq<Byte>>)
  {
    forall m, seed :: |m| <= MaxPkcs1Payload ==>
      pkcs1Decrypt(key, pkcs1Encrypt(key.modulus, key.publicExponent, m, seed)) == Some(m)
  }

  /** The client's encrypted shared secret comes back exactly. */
  lemma DecryptRecoversSecret(
    store: KeyStore, secret: seq<Byte>, seed: nat,
    pkcs1Encrypt: (nat, nat, seq<Byte>, nat) -> seq<Byte>,
    pkcs1Decrypt: (RsaPrivateKey, seq<Byte>) -> Option<seq<Byte>>)
    requires Pkcs1Correct(store.privateKey, pkcs1Encrypt, pkcs1Decrypt)
    requires |secret| <= MaxPkcs1Payload
    ensures
      var ciphertext := pkcs1Encrypt(store.privateKey.modulus, store.privateKey.publicExponent, secret, seed);
      Decrypt(store, ciphertext, pkcs1Decrypt) == Success(secret)
  {
  }

  /** `get_digest`: SHA-1 over the shared secret followed by the stored DER, as `auth_digest`. */
  function GetDigest(store: KeyStore, secret: seq<Byte>, sha1: seq<Byte> -> Sha1Digest): (digest: string)
    ensures ParseSignedHex(digest) == Some(SignedBE(sha1(secret + store.publicKeyDer)))
    ensures IsCanonicalHex(digest)
    ensures digest[0] == '-' <==> sha1(secret + store.publicKeyDer)[0] >= 0x80
    ensures |Magnitude(digest)| <= 40
  {
    AuthDigestDigitBound(sha1(secret + store.publicKeyDer));
    AuthDigest(sha1(secret + store.publicKeyDer))
  }

  /** The digest is the one canonical spelling of the hash's signed value: any string with
      that value and no padding or `-0` is it. */
  lemma GetDigestUnique(store: KeyStore, secret: seq<Byte>, sha1: seq<Byte> -> Sha1Digest, s: string)
    requires IsCanonicalHex(s)
    requires ParseSignedHex(s) == Some(SignedBE(sha1(secret + store.publicKeyDer)))
    ensures s == GetDigest(store, secret, sha1)
  {
    AuthDigestOnlyCanonical(sha1(secret + store.publicKeyDer), s);
  }

  /** Two secrets whose SHA-1 inputs hash differently get different digests: the
      conversion loses nothing of the hash. */
  lemma GetDigestSeparatesHashes(store: KeyStore, s1: seq<Byte>, s2: seq<Byte>, sha1: seq<Byte> -> Sha1Digest)
    requires sha1(s1 + store.publicKeyDer) != sha1(s2 + store.publicKeyDer)
    ensures GetDigest(store, s1, sha1) != GetDigest(store, s2, sha1)
  {
    if GetDigest(store, s1, sha1) == GetDigest(store, s2, sha1) {
      AuthDigestInjective(sha1(s1 + store.publicKeyDer), sha1(s2 + store.publicKeyDer));
    }
  }
}
