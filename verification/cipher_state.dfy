/**
 * cipherState: one direction of ChaCha20-Poly1305 with a 64-bit nonce counter
 * and key rotation every KeyRotationInterval operations.
 */
module CipherStates {
  import opened Wrappers
  import opened Bytes
  import opened Primitives

  /** Operations on one key before it is ratcheted forward. */
  const KeyRotationInterval: nat := 1000

  /** Go's uint64 range, the type of the nonce counter. */
  const MaxNonce: nat := 0xffff_ffff_ffff_ffff

  /**
   * The 12-byte AEAD nonce for counter n: four zero bytes, then n as a
   * little-endian 64-bit integer.
   */
  function NonceBytes(n: nat): (r: seq<byte>)
    requires n <= MaxNonce
    ensures |r| == 12
    ensures r[..4] == [0, 0, 0, 0]
    ensures FromLE(r[4..]) == n
  {
    Pow256Of2And8();
    FromLEToLE(n, 8);
    var r := [0, 0, 0, 0] + ToLE(n, 8);
    assert r[4..] == ToLE(n, 8);
    r
  }

  /** The value of a cipherState: its nonce counter, key and rotation salt. */
  datatype CipherValue = CipherValue(nonce: nat, secretKey: Key, salt: Key)
  {
    /** The invariant every cipherState keeps between calls. */
    predicate Valid()
    {
      nonce < KeyRotationInterval
    }

    /** rotateKey: HKDF over (salt, key) gives the next salt, then the next key; the nonce restarts. */
    function Rotated(): CipherValue
    {
      CipherValue(0, HkdfBlock2(salt, Bytes32(secretKey)), HkdfBlock1(salt, Bytes32(secretKey)))
    }

    /** The deferred step every Encrypt and every Decrypt takes, whether or not Open succeeds. */
    function Advanced(): (r: CipherValue)
      requires Valid()
      ensures r.Valid()
      ensures r.nonce == (nonce + 1) % KeyRotationInterval
      ensures r.nonce != 0 ==> r.secretKey == secretKey && r.salt == salt
      ensures r.nonce == 0 ==> r == Rotated()
    {
      if nonce + 1 == KeyRotationInterval then Rotated() else this.(nonce := nonce + 1)
    }

    /** The ciphertext Encrypt produces in this state. */
    function Seal(ad: seq<byte>, plaintext: seq<byte>): (c: seq<byte>)
      requires Valid()
      ensures |c| == |plaintext| + MacSize
    {
      AeadSeal(secretKey, NonceBytes(nonce), ad, plaintext)
    }

    /** The plaintext Decrypt produces in this state, or None when authentication fails. */
    function Open(ad: seq<byte>, ciphertext: seq<byte>): (r: Option<seq<byte>>)
      requires Valid()
      ensures r.Some? ==> |ciphertext| >= MacSize && |r.value| == |ciphertext| - MacSize
    {
      AeadOpen(secretKey, NonceBytes(nonce), ad, ciphertext)
    }

    /** The state after k operations. */
    function AdvancedBy(k: nat): (r: CipherValue)
      requires Valid()
      ensures r.Valid()
      decreases k
    {
      if k == 0 then this else Advanced().AdvancedBy(k - 1)
    }

    /** The key and salt after j rotations. */
    function RotatedBy(j: nat): CipherValue
      decreases j
    {
      if j == 0 then this else Rotated().RotatedBy(j - 1)
    }
  }

  /** Advancing a then b times is advancing a + b times. */
  lemma {:induction false} AdvancedByAdds(c: CipherValue, a: nat, b: nat)
    requires c.Valid()
    ensures c.AdvancedBy(a + b) == c.AdvancedBy(a).AdvancedBy(b)
    decreases a
  {
    if a > 0 {
      AdvancedByAdds(c.Advanced(), a - 1, b);
    }
  }

  /** Two operations are two steps. */
  lemma AdvancedTwice(c: CipherValue)
    requires c.Valid()
    ensures c.AdvancedBy(2) == c.Advanced().Advanced()
  {
    var c1 := c.Advanced();
    assert c.AdvancedBy(2) == c1.AdvancedBy(1);
    assert c1.AdvancedBy(1) == c1.Advanced().AdvancedBy(0);
  }

  /** n pairs of operations after one pair are n + 1 pairs. */
  lemma AdvancedTwiceThenBy(c: CipherValue, n: nat)
    requires c.Valid()
    ensures c.Advanced().Advanced().AdvancedBy(2 * n) == c.AdvancedBy(2 * (n + 1))
  {
    AdvancedTwice(c);
    AdvancedByAdds(c, 2, 2 * n);
  }

  /** Two cipher states in the same state decrypt what the other encrypts. */
  lemma OpenSealed(c: CipherValue, ad: seq<byte>, p: seq<byte>)
    requires c.Valid()
    ensures c.Open(ad, c.Seal(ad, p)) == Some(p)
  {
  }

  /** Rotation ignores the nonce it starts from. */
  lemma {:induction false} RotatedByIgnoresNonce(c: CipherValue, m: nat, j: nat)
    requires j > 0
    ensures c.(nonce := m).RotatedBy(j) == c.RotatedBy(j)
  {
    assert c.(nonce := m).Rotated() == c.Rotated();
  }

  /**
   * The rotation schedule: k operations from a valid state leave the nonce at
   * (nonce + k) mod 1000 and rotate the key exactly (nonce + k) div 1000 times.
   */
  lemma {:induction false} RotationSchedule(c: CipherValue, k: nat)
    requires c.Valid()
    ensures c.AdvancedBy(k).nonce == (c.nonce + k) % KeyRotationInterval
    ensures c.AdvancedBy(k)
         == c.RotatedBy((c.nonce + k) / KeyRotationInterval).(nonce := (c.nonce + k) % KeyRotationInterval)
    decreases k
  {
    if k > 0 {
      var a := c.Advanced();
      RotationSchedule(a, k - 1);
      if c.nonce + 1 == KeyRotationInterval {
        assert a == c.Rotated();
        assert (c.nonce + k) / KeyRotationInterval == 1 + (k - 1) / KeyRotationInterval;
        assert (c.nonce + k) % KeyRotationInterval == (k - 1) % KeyRotationInterval;
      } else {
        assert a == c.(nonce := c.nonce + 1);
        var j := (c.nonce + k) / KeyRotationInterval;
        if j > 0 {
          RotatedByIgnoresNonce(c, c.nonce + 1, j);
        }
      }
    }
  }

  /**
   * cipherState. `aead` stands for the ChaCha20-Poly1305 instance, identified
   * by the key it was built from; it is None for a zero-valued cipherState,
   * whose Encrypt and Decrypt would dereference a nil cipher.
   */
  class CipherState {
    var nonce: nat
    var secretKey: Key
    var salt: Key
    var aead: Option<Key>

    ghost predicate Valid()
      reads this
    {
      Value().Valid() && (aead.Some? ==> aead.value == secretKey)
    }

    function Value(): CipherValue
      reads this
    {
      CipherValue(nonce, secretKey, salt)
    }

    predicate Keyed()
      reads this
    {
      aead.Some?
    }

    /** The zero value cipherState{}. */
    constructor ()
      ensures Valid() && !Keyed()
      ensures Value() == CipherValue(0, ZeroKey, ZeroKey)
    {
      nonce, secretKey, salt, aead := 0, ZeroKey, ZeroKey, None;
    }

    method Encrypt(associatedData: seq<byte>, plaintext: seq<byte>) returns (ciphertext: seq<byte>)
      requires Valid() && Keyed()
      modifies this
      ensures Valid() && Keyed()
      ensures ciphertext == old(Value()).Seal(associatedData, plaintext)
      ensures Value() == old(Value()).Advanced()
    {
      ciphertext := AeadSeal(aead.value, NonceBytes(nonce), associatedData, plaintext);
      nonce := nonce + 1;
      if nonce == KeyRotationInterval {
        RotateKey();
      }
    }

    /** Decrypt: the nonce advances (and may rotate the key) even when Open fails. */
    method Decrypt(associatedData: seq<byte>, ciphertext: seq<byte>) returns (plaintext: Option<seq<byte>>)
      requires Valid() && Keyed()
      modifies this
      ensures Valid() && Keyed()
      ensures plaintext == old(Value()).Open(associatedData, ciphertext)
      ensures Value() == old(Value()).Advanced()
    {
      plaintext := AeadOpen(aead.value, NonceBytes(nonce), associatedData, ciphertext);
      nonce := nonce + 1;
      if nonce == KeyRotationInterval {
        RotateKey();
      }
    }

    method InitializeKey(key: Key)
      modifies this
      ensures Valid() && Keyed()
      ensures secretKey == key && nonce == 0 && salt == old(salt)
    {
      secretKey := key;
      nonce := 0;
      aead := Some(secretKey);
    }

    method InitializeKeyWithSalt(newSalt: Key, key: Key)
      modifies this
      ensures Valid() && Keyed()
      ensures Value() == CipherValue(0, key, newSalt)
    {
      salt := newSalt;
      InitializeKey(key);
    }

    method RotateKey()
      modifies this
      ensures Valid() && Keyed()
      ensures Value() == old(Value()).Rotated()
      ensures salt == HkdfBlock1(old(salt), Bytes32(old(secretKey)))
      ensures secretKey == HkdfBlock2(old(salt), Bytes32(old(secretKey)))
      ensures nonce == 0
    {
      var oldKey := secretKey;
      var okm := Hkdf(salt, Bytes32(oldKey));
      salt := okm.0;
      var nextKey := okm.1;
      InitializeKey(nextKey);
    }
  }
}
