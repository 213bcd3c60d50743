/**
 * symmetricState: a cipherState plus the chaining key, the temporary key and
 * the running handshake digest (sections 5.1 and 5.2 of the Noise Protocol
 * Framework).
 */
module SymmetricStates {
  import opened Wrappers
  import opened Bytes
  import opened Primitives
  import opened CipherStates

  /** The SHA-256 fold of items into digest h, in order. */
  function MixAll(h: Key, items: seq<seq<byte>>): Key
    decreases |items|
  {
    if items == [] then h else MixAll(Sha256(Bytes32(h) + items[0]), items[1..])
  }

  /** The value of a symmetricState. */
  datatype SymmetricValue = SymmetricValue(cipher: CipherValue, chainingKey: Key, tempKey: Key, handshakeDigest: Key)
  {
    predicate Valid()
    {
      cipher.Valid()
    }

    /**
     * mixKey: HKDF with the chaining key as salt and the input as key material;
     * block 1 becomes the chaining key, block 2 the temp key and the cipher key.
     */
    function MixKey(input: seq<byte>): (r: SymmetricValue)
      ensures r.Valid()
      ensures r.chainingKey == HkdfBlock1(chainingKey, input)
      ensures r.tempKey == HkdfBlock2(chainingKey, input)
      ensures r.cipher == CipherValue(0, r.tempKey, cipher.salt)
      ensures r.handshakeDigest == handshakeDigest
    {
      var ck := HkdfBlock1(chainingKey, input);
      var k := HkdfBlock2(chainingKey, input);
      this.(chainingKey := ck, tempKey := k, cipher := cipher.(nonce := 0, secretKey := k))
    }

    /** mixHash: the digest absorbs data; nothing else changes. */
    function MixHash(data: seq<byte>): (r: SymmetricValue)
      ensures r.handshakeDigest == MixAll(handshakeDigest, [data])
      ensures r.(handshakeDigest := handshakeDigest) == this
    {
      this.(handshakeDigest := Sha256(Bytes32(handshakeDigest) + data))
    }

    /** EncryptAndHash: seal under the digest as associated data, then mix the ciphertext in. */
    function EncryptAndHash(plaintext: seq<byte>): (r: (SymmetricValue, seq<byte>))
      requires Valid()
      ensures r.0.Valid()
      ensures r.1 == cipher.Seal(Bytes32(handshakeDigest), plaintext)
      ensures r.0 == this.(cipher := cipher.Advanced()).MixHash(r.1)
    {
      var ciphertext := cipher.Seal(Bytes32(handshakeDigest), plaintext);
      (this.(cipher := cipher.Advanced()).MixHash(ciphertext), ciphertext)
    }

    /**
     * DecryptAndHash: open under the digest as associated data; the digest
     * absorbs the ciphertext only when the tag verifies, while the nonce
     * advances in either case.
     */
    function DecryptAndHash(ciphertext: seq<byte>): (r: (SymmetricValue, Option<seq<byte>>))
      requires Valid()
      ensures r.0.Valid()
      ensures r.1 == cipher.Open(Bytes32(handshakeDigest), ciphertext)
      ensures r.1.None? ==> r.0 == this.(cipher := cipher.Advanced())
      ensures r.1.Some? ==> r.0 == this.(cipher := cipher.Advanced()).MixHash(ciphertext)
    {
      var advanced := this.(cipher := cipher.Advanced());
      match cipher.Open(Bytes32(handshakeDigest), ciphertext)
      case None => (advanced, None)
      case Some(plaintext) => (advanced.MixHash(ciphertext), Some(plaintext))
    }

    /** InitializeSymmetric: digest and chaining key start as the hash of the protocol name; the cipher key is all zero. */
    function InitializeSymmetric(protocolName: seq<byte>): (r: SymmetricValue)
      ensures r.Valid()
      ensures r.handshakeDigest == Sha256(protocolName) && r.chainingKey == r.handshakeDigest
      ensures r.cipher == CipherValue(0, ZeroKey, cipher.salt) && r.tempKey == tempKey
    {
      var h := Sha256(protocolName);
      this.(handshakeDigest := h, chainingKey := h, cipher := cipher.(nonce := 0, secretKey := ZeroKey))
    }
  }

  /** MixAll over a concatenation is MixAll over the second part, starting where the first part ends. */
  lemma {:induction false} MixAllAppend(h: Key, xs: seq<seq<byte>>, ys: seq<seq<byte>>)
    ensures MixAll(h, xs + ys) == MixAll(MixAll(h, xs), ys)
    decreases |xs|
  {
    if xs != [] {
      assert (xs + ys)[1..] == xs[1..] + ys;
      MixAllAppend(Sha256(Bytes32(h) + xs[0]), xs[1..], ys);
    } else {
      assert xs + ys == ys;
    }
  }

  /**
   * The partner of EncryptAndHash: a peer in the same state decrypts the
   * ciphertext and reaches the same state.
   */
  lemma DecryptAndHashEncrypted(s: SymmetricValue, plaintext: seq<byte>)
    requires s.Valid()
    ensures s.DecryptAndHash(s.EncryptAndHash(plaintext).1) == (s.EncryptAndHash(plaintext).0, Some(plaintext))
  {
    OpenSealed(s.cipher, Bytes32(s.handshakeDigest), plaintext);
  }

  /** symmetricState, holding its cipherState as `cipher`. */
  class SymmetricState {
    const cipher: CipherState
    var chainingKey: Key
    var tempKey: Key
    var handshakeDigest: Key

    ghost predicate Valid()
      reads this, cipher
    {
      cipher.Valid()
    }

    function Value(): SymmetricValue
      reads this, cipher
    {
      SymmetricValue(cipher.Value(), chainingKey, tempKey, handshakeDigest)
    }

    /** The zero value symmetricState{}. */
    constructor ()
      ensures Valid() && fresh(cipher) && !cipher.Keyed()
      ensures Value() == SymmetricValue(CipherValue(0, ZeroKey, ZeroKey), ZeroKey, ZeroKey, ZeroKey)
    {
      cipher := new CipherState();
      chainingKey, tempKey, handshakeDigest := ZeroKey, ZeroKey, ZeroKey;
    }

    method MixKey(input: seq<byte>)
      requires Valid()
      modifies this, cipher
      ensures Valid() && cipher.Keyed()
      ensures Value() == old(Value()).MixKey(input)
    {
      var okm := Hkdf(chainingKey, input);
      chainingKey := okm.0;
      tempKey := okm.1;
      cipher.InitializeKey(tempKey);
    }

    method MixHash(data: seq<byte>)
      requires Valid()
      modifies this
      ensures Valid()
      ensures Value() == old(Value()).MixHash(data)
    {
      handshakeDigest := Sha256(Bytes32(handshakeDigest) + data);
    }

    method EncryptAndHash(plaintext: seq<byte>) returns (ciphertext: seq<byte>)
      requires Valid() && cipher.Keyed()
      modifies this, cipher
      ensures Valid() && cipher.Keyed()
      ensures (Value(), ciphertext) == old(Value()).EncryptAndHash(plaintext)
    {
      ciphertext := cipher.Encrypt(Bytes32(handshakeDigest), plaintext);
      MixHash(ciphertext);
    }

    method DecryptAndHash(ciphertext: seq<byte>) returns (plaintext: Option<seq<byte>>)
      requires Valid() && cipher.Keyed()
      modifies this, cipher
      ensures Valid() && cipher.Keyed()
      ensures (Value(), plaintext) == old(Value()).DecryptAndHash(ciphertext)
      ensures plaintext.None? ==> handshakeDigest == old(handshakeDigest)
    {
      plaintext := cipher.Decrypt(Bytes32(handshakeDigest), ciphertext);
      if plaintext.None? {
        return;
      }
      MixHash(ciphertext);
    }

    method InitializeSymmetric(protocolName: seq<byte>)
      requires Valid()
      modifies this, cipher
      ensures Valid() && cipher.Keyed()
      ensures Value() == old(Value()).InitializeSymmetric(protocolName)
    {
      handshakeDigest := Sha256(protocolName);
      chainingKey := handshakeDigest;
      cipher.InitializeKey(ZeroKey);
    }
  }
}
