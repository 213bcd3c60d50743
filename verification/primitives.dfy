/**
 * The cryptographic primitives the handshake is built on: SHA-256,
 * HKDF-SHA-256, the ChaCha20-Poly1305 AEAD and secp256k1 (public key
 * derivation, scalar multiplication, compressed encoding and parsing).
 *
 * Their internals are not part of this model. They are gathered in one value
 * of type Suite, `Crypto`, about which nothing is known but the laws a Suite
 * obeys: the output sizes, that opening undoes sealing under the same key,
 * nonce and associated data, that parsing undoes the compressed serialisation
 * of the public key of a private scalar in [1, n-1] (and of no other key,
 * when it accepts one), and that the two ends of a Diffie-Hellman exchange
 * agree. Every result of
 * the model therefore holds for any primitives with those properties. The
 * laws are consistent: Insecure, a (useless) suite, satisfies them.
 *
 * A 32-byte key, digest or point coordinate is held as the number its
 * big-endian bytes denote; Bytes32 gives the bytes back wherever the
 * handshake feeds a key to a hash.
 */
module Primitives {
  import opened Bytes
  import opened Wrappers

  /** The number of distinct 32-byte strings, 2^256. */
  const KeySpace: nat := 0x1_0000_0000_0000_0000_0000_0000_0000_0000_0000_0000_0000_0000_0000_0000_0000_0000

  /** A 32-byte secret, digest or chaining key. */
  type Key = k: nat | k < KeySpace

  /** The all-zero key. */
  const ZeroKey: Key := 0

  /** The 32 big-endian bytes of a key. */
  function Bytes32(k: Key): (b: seq<byte>)
    ensures |b| == 32 && FromBE(b) == k
  {
    Pow256Of32();
    FromBEToBE(k, 32);
    ToBE(k, 32)
  }

  /** The key whose bytes are s. */
  function KeyOfBytes(s: seq<byte>): (k: Key)
    requires |s| == 32
    ensures Bytes32(k) == s
  {
    Pow256Of32();
    FromBEBound(s);
    ToBEFromBE(s);
    FromBE(s)
  }

  /** macSize: the size of a Poly1305 tag. */
  const MacSize: nat := 16

  /** n, the order of the secp256k1 group. */
  const GroupOrder: nat := 0xffff_ffff_ffff_ffff_ffff_ffff_ffff_fffe_baae_dce6_af48_a03b_bfd2_5e8c_d036_4141

  /** A private key: a scalar. */
  datatype PrivateKey = PrivateKey(d: nat)
  {
    /**
     * A scalar in [1, n-1], as btcec.NewPrivateKey draws. The scalar 0 gives
     * the point at infinity, whose encoding ParsePubKey rejects.
     */
    predicate Valid()
    {
      0 < d < GroupOrder
    }
  }

  /** A public key: a curve point, identified by its 32-byte x-coordinate and parity. */
  datatype PublicKey = PublicKey(x: Key, odd: bool)

  /**
   * The primitives, as functions: sha256.Sum256; HKDF-SHA-256 with a salt,
   * key material and empty info, read for two 32-byte blocks; AEAD Seal and
   * Open with key, nonce, associated data and text; PrivateKey.PubKey;
   * ScalarMult; SerializeCompressed; ParsePubKey (None on error).
   */
  datatype CryptoFunctions = CryptoFunctions(
    sha256: seq<byte> -> Key,
    hkdf: (Key, seq<byte>) -> (Key, Key),
    seal: (Key, seq<byte>, seq<byte>, seq<byte>) -> seq<byte>,
    open: (Key, seq<byte>, seq<byte>, seq<byte>) -> Option<seq<byte>>,
    pubKey: PrivateKey -> PublicKey,
    scalarMult: (PublicKey, PrivateKey) -> PublicKey,
    serializeCompressed: PublicKey -> seq<byte>,
    parsePubKey: seq<byte> -> Option<PublicKey>)
  {
    /**
     * The properties of the real primitives that the model relies on. The
     * parse laws speak only of keys derived from a private key: the encoding
     * of the public key of a valid scalar parses, and whatever such an
     * encoding parses to is that public key. A point value that is not on
     * the curve need not survive a round trip.
     */
    ghost predicate Lawful()
    {
      && (forall k, n, ad, p :: |seal(k, n, ad, p)| == |p| + MacSize)
      && (forall k, n, ad, p :: open(k, n, ad, seal(k, n, ad, p)) == Some(p))
      && (forall k, n, ad, c :: open(k, n, ad, c).Some? ==> |open(k, n, ad, c).value| + MacSize == |c|)
      && (forall p :: |serializeCompressed(p)| == 33)
      && (forall k: PrivateKey :: k.Valid() ==> parsePubKey(serializeCompressed(pubKey(k))).Some?)
      && (forall k :: parsePubKey(serializeCompressed(pubKey(k))).Some? ==>
                      parsePubKey(serializeCompressed(pubKey(k))) == Some(pubKey(k)))
      && (forall b :: |b| == 33 && parsePubKey(b).Some? ==> serializeCompressed(parsePubKey(b).value) == b)
      && (forall a, b :: scalarMult(pubKey(a), b) == scalarMult(pubKey(b), a))
    }
  }

  /** Compressed encoding of the stand-in points: a parity byte, then x. */
  function InsecureSerialize(p: PublicKey): seq<byte>
  {
    [if p.odd then 3 else 2] + Bytes32(p.x)
  }

  function InsecureParse(b: seq<byte>): Option<PublicKey>
  {
    if |b| == 33 && (b[0] == 2 || b[0] == 3) then Some(PublicKey(KeyOfBytes(b[1..]), b[0] == 3)) else None
  }

  /** A suite that obeys the laws and protects nothing. */
  const Insecure: CryptoFunctions := CryptoFunctions(
    data => 0,
    (salt, ikm) => (0, 0),
    (k, n, ad, p) => p + [0, 0, 0, 0, 0, 0, 0, 0, 0, 0, 0, 0, 0, 0, 0, 0],
    (k, n, ad, c) => if |c| < MacSize then None else Some(c[..|c| - MacSize]),
    k => PublicKey(0, false),
    (p, k) => p,
    InsecureSerialize,
    InsecureParse)

  type Suite = c: CryptoFunctions | c.Lawful() witness Insecure

  /** The primitives the handshake and transport use. */
  const Crypto: Suite

  /** sha256.Sum256. */
  function Sha256(data: seq<byte>): Key
  {
    Crypto.sha256(data)
  }

  /** hkdf.New(sha256.New, ikm, salt, nil), read for two 32-byte blocks. */
  function Hkdf(salt: Key, ikm: seq<byte>): (Key, Key)
  {
    Crypto.hkdf(salt, ikm)
  }

  /** The first 32 bytes an HKDF reader yields. */
  function HkdfBlock1(salt: Key, ikm: seq<byte>): Key
  {
    Hkdf(salt, ikm).0
  }

  /** The second 32 bytes an HKDF reader yields. */
  function HkdfBlock2(salt: Key, ikm: seq<byte>): Key
  {
    Hkdf(salt, ikm).1
  }

  /** ChaCha20-Poly1305 Seal: the ciphertext is as long as the plaintext, plus a 16-byte tag. */
  function AeadSeal(key: Key, nonce: seq<byte>, ad: seq<byte>, plaintext: seq<byte>): (c: seq<byte>)
    ensures |c| == |plaintext| + MacSize
  {
    Crypto.seal(key, nonce, ad, plaintext)
  }

  /** ChaCha20-Poly1305 Open: None when authentication fails. */
  function AeadOpen(key: Key, nonce: seq<byte>, ad: seq<byte>, ciphertext: seq<byte>): (r: Option<seq<byte>>)
    ensures r.Some? ==> |ciphertext| >= MacSize && |r.value| == |ciphertext| - MacSize
  {
    Crypto.open(key, nonce, ad, ciphertext)
  }

  /** PrivateKey.PubKey. */
  function PubKey(k: PrivateKey): PublicKey
  {
    Crypto.pubKey(k)
  }

  /** SerializeCompressed: the 33-byte compressed encoding of a point. */
  function SerializeCompressed(p: PublicKey): (b: seq<byte>)
    ensures |b| == 33
  {
    Crypto.serializeCompressed(p)
  }

  /** ParsePubKey: on a 33-byte input it accepts only encodings SerializeCompressed produces. */
  function ParsePubKey(b: seq<byte>): (r: Option<PublicKey>)
    ensures |b| == 33 && r.Some? ==> SerializeCompressed(r.value) == b
  {
    Crypto.parsePubKey(b)
  }

  /** The ecdh helper: the SHA-256 of the compressed shared point priv * pub. */
  function Ecdh(pub: PublicKey, priv: PrivateKey): (secret: seq<byte>)
    ensures |secret| == 32
  {
    Bytes32(Sha256(SerializeCompressed(Crypto.scalarMult(pub, priv))))
  }

  /**
   * Parsing undoes the compressed serialisation of the public key of a valid
   * scalar; for any scalar, it yields no other key.
   */
  lemma ParseSerialized(k: PrivateKey)
    ensures k.Valid() ==> ParsePubKey(SerializeCompressed(PubKey(k))).Some?
    ensures ParsePubKey(SerializeCompressed(PubKey(k))).Some? ==> ParsePubKey(SerializeCompressed(PubKey(k))) == Some(PubKey(k))
  {
  }

  /** Diffie-Hellman agreement: both ends of an exchange derive the same secret. */
  lemma EcdhAgreement(a: PrivateKey, b: PrivateKey)
    ensures Ecdh(PubKey(a), b) == Ecdh(PubKey(b), a)
  {
  }
}
