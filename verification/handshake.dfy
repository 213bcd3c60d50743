/**
 * handshakeState and the three acts of the Noise_XK handshake (section 7.5 of
 * the Noise Protocol Framework) as BOLT #8 instantiates it:
 *
 *   <- s
 *   ...
 *   -> e, es
 *   <- e, ee
 *   -> s, se
 *
 * HandshakeValue describes one side's state and each act as a function of it;
 * the class HandshakeState holds that state in place.
 */
module Handshakes {
  import opened Wrappers
  import opened Bytes
  import opened Primitives
  import opened Errors
  import opened CipherStates
  import opened SymmetricStates

  const ProtocolName: seq<byte> := Ascii("Noise_XK_secp256k1_ChaChaPoly_SHA256")

  const LightningPrologue: seq<byte> := Ascii("lightning")

  const HandshakeVersion: byte := 0

  /** 1 version byte + 33-byte compressed ephemeral key + 16-byte tag. */
  const ActOneSize: nat := 50
  const ActTwoSize: nat := 50

  /** 1 version byte + 33-byte encrypted static key and its 16-byte tag + 16-byte tag. */
  const ActThreeSize: nat := 66

  /** The zero-valued symmetricState every handshake starts from. */
  const ZeroSymmetric: SymmetricValue := SymmetricValue(CipherValue(0, ZeroKey, ZeroKey), ZeroKey, ZeroKey, ZeroKey)

  /** The ephemeral key an act one or act two packet carries, when its version byte and key are valid. */
  function ParsedEphemeral(packet: seq<byte>): Option<PublicKey>
    requires |packet| == ActOneSize
  {
    if packet[0] == HandshakeVersion then ParsePubKey(packet[1..34]) else None
  }

  /** One side's handshakeState. */
  datatype HandshakeValue = HandshakeValue(
    sym: SymmetricValue,
    initiator: bool,
    localStatic: PrivateKey,
    localEphemeral: Option<PrivateKey>,
    remoteStatic: Option<PublicKey>,
    remoteEphemeral: Option<PublicKey>)
  {
    predicate Valid()
    {
      sym.Valid()
    }

    /** The same peer, with the same role and static key. */
    predicate SameParty(other: HandshakeValue)
    {
      initiator == other.initiator && localStatic == other.localStatic
    }

    /** GenActOne (initiator): -> e, es. */
    function GenActOne(gen: Result<PrivateKey, Error>): (r: (HandshakeValue, Result<seq<byte>, Error>))
      requires Valid()
      requires gen.Success? ==> remoteStatic.Some?
      ensures r.0.Valid() && r.0.SameParty(this)
      ensures r.0.remoteStatic == remoteStatic && r.0.remoteEphemeral == remoteEphemeral
      ensures gen.Failure? ==> r == (this.(localEphemeral := None), Failure(gen.error))
      ensures gen.Success? ==>
        && r.0.localEphemeral == Some(gen.value)
        && r.1.Success? && |r.1.value| == ActOneSize
        && r.1.value[0] == HandshakeVersion
        && r.1.value[1..34] == SerializeCompressed(PubKey(gen.value))
        && r.0.sym.handshakeDigest == MixAll(sym.handshakeDigest, [r.1.value[1..34], r.1.value[34..]])
        && r.0.sym.chainingKey == HkdfBlock1(sym.chainingKey, Ecdh(remoteStatic.value, gen.value))
        && r.0.sym.tempKey == HkdfBlock2(sym.chainingKey, Ecdh(remoteStatic.value, gen.value))
        && r.1.value[34..] == AeadSeal(r.0.sym.tempKey, NonceBytes(0), Bytes32(MixAll(sym.handshakeDigest, [r.1.value[1..34]])), [])
        && r.0.sym.cipher == CipherValue(1, r.0.sym.tempKey, sym.cipher.salt)
    {
      match gen
      case Failure(err) => (this.(localEphemeral := None), Failure(err))
      case Success(e) =>
        var ephemeral := SerializeCompressed(PubKey(e));
        var s1 := sym.MixHash(ephemeral).MixKey(Ecdh(remoteStatic.value, e));
        var (s2, authPayload) := s1.EncryptAndHash([]);
        var packet := [HandshakeVersion] + ephemeral + authPayload;
        assert packet[1..34] == ephemeral && packet[34..] == authPayload;
        (this.(localEphemeral := Some(e), sym := s2), Success(packet))
    }

    /** RecvActOne (responder): the mirror of GenActOne, with the responder's static key. */
    function RecvActOne(packet: seq<byte>): (r: (HandshakeValue, Option<Error>))
      requires Valid() && |packet| == ActOneSize
      ensures r.0.Valid() && r.0.SameParty(this)
      ensures r.0.localEphemeral == localEphemeral && r.0.remoteStatic == remoteStatic
      ensures packet[0] != HandshakeVersion <==> r.1 == Some(InvalidVersion(1, packet[0]))
      ensures packet[0] != HandshakeVersion ==> r.0 == this
      ensures packet[0] == HandshakeVersion ==> r.0.remoteEphemeral == ParsePubKey(packet[1..34])
      ensures packet[0] == HandshakeVersion && r.0.remoteEphemeral.Some? ==>
        && r.0.sym.chainingKey == HkdfBlock1(sym.chainingKey, Ecdh(r.0.remoteEphemeral.value, localStatic))
        && r.0.sym.tempKey == HkdfBlock2(sym.chainingKey, Ecdh(r.0.remoteEphemeral.value, localStatic))
        && r.0.sym.cipher == CipherValue(1, r.0.sym.tempKey, sym.cipher.salt)
        && (r.1.None? <==> AeadOpen(r.0.sym.tempKey, NonceBytes(0), Bytes32(MixAll(sym.handshakeDigest, [packet[1..34]])), packet[34..]).Some?)
        && (r.1.Some? ==> r.1 == Some(AuthenticationFailed))
      ensures packet[0] == HandshakeVersion && ParsePubKey(packet[1..34]).None? ==> r.1 == Some(InvalidPubKey) && r.0.sym == sym
      ensures r.1.None? ==>
        && r.0.remoteEphemeral.Some?
        && r.0.sym.handshakeDigest == MixAll(sym.handshakeDigest, [packet[1..34], packet[34..]])
    {
      if packet[0] != HandshakeVersion then (this, Some(InvalidVersion(1, packet[0])))
      else
        match ParsePubKey(packet[1..34])
        case None => (this.(remoteEphemeral := None), Some(InvalidPubKey))
        case Some(re) =>
          var s1 := sym.MixHash(SerializeCompressed(re)).MixKey(Ecdh(re, localStatic));
          var (s2, payload) := s1.DecryptAndHash(packet[34..]);
          (this.(remoteEphemeral := Some(re), sym := s2),
           if payload.None? then Some(AuthenticationFailed) else None)
    }

    /** GenActTwo (responder): <- e, ee. */
    function GenActTwo(gen: Result<PrivateKey, Error>): (r: (HandshakeValue, Result<seq<byte>, Error>))
      requires Valid()
      requires gen.Success? ==> remoteEphemeral.Some?
      ensures r.0.Valid() && r.0.SameParty(this)
      ensures r.0.remoteStatic == remoteStatic && r.0.remoteEphemeral == remoteEphemeral
      ensures gen.Failure? ==> r == (this.(localEphemeral := None), Failure(gen.error))
      ensures gen.Success? ==>
        && r.0.localEphemeral == Some(gen.value)
        && r.1.Success? && |r.1.value| == ActTwoSize
        && r.1.value[0] == HandshakeVersion
        && r.1.value[1..34] == SerializeCompressed(PubKey(gen.value))
        && r.0.sym.handshakeDigest == MixAll(sym.handshakeDigest, [r.1.value[1..34], r.1.value[34..]])
        && r.0.sym.chainingKey == HkdfBlock1(sym.chainingKey, Ecdh(remoteEphemeral.value, gen.value))
        && r.0.sym.tempKey == HkdfBlock2(sym.chainingKey, Ecdh(remoteEphemeral.value, gen.value))
        && r.1.value[34..] == AeadSeal(r.0.sym.tempKey, NonceBytes(0), Bytes32(MixAll(sym.handshakeDigest, [r.1.value[1..34]])), [])
        && r.0.sym.cipher == CipherValue(1, r.0.sym.tempKey, sym.cipher.salt)
    {
      match gen
      case Failure(err) => (this.(localEphemeral := None), Failure(err))
      case Success(e) =>
        var ephemeral := SerializeCompressed(PubKey(e));
        var s1 := sym.MixHash(ephemeral).MixKey(Ecdh(remoteEphemeral.value, e));
        var (s2, authPayload) := s1.EncryptAndHash([]);
        var packet := [HandshakeVersion] + ephemeral + authPayload;
        assert packet[1..34] == ephemeral && packet[34..] == authPayload;
        (this.(localEphemeral := Some(e), sym := s2), Success(packet))
    }

    /** RecvActTwo (initiator): the mirror of GenActTwo, with the initiator's ephemeral key. */
    function RecvActTwo(packet: seq<byte>): (r: (HandshakeValue, Option<Error>))
      requires Valid() && |packet| == ActTwoSize
      requires ParsedEphemeral(packet).Some? ==> localEphemeral.Some?
      ensures r.0.Valid() && r.0.SameParty(this)
      ensures r.0.localEphemeral == localEphemeral && r.0.remoteStatic == remoteStatic
      ensures packet[0] != HandshakeVersion <==> r.1 == Some(InvalidVersion(2, packet[0]))
      ensures packet[0] != HandshakeVersion ==> r.0 == this
      ensures packet[0] == HandshakeVersion ==> r.0.remoteEphemeral == ParsePubKey(packet[1..34])
      ensures packet[0] == HandshakeVersion && r.0.remoteEphemeral.Some? ==>
        && localEphemeral.Some?
        && r.0.sym.chainingKey == HkdfBlock1(sym.chainingKey, Ecdh(r.0.remoteEphemeral.value, localEphemeral.value))
        && r.0.sym.tempKey == HkdfBlock2(sym.chainingKey, Ecdh(r.0.remoteEphemeral.value, localEphemeral.value))
        && r.0.sym.cipher == CipherValue(1, r.0.sym.tempKey, sym.cipher.salt)
        && (r.1.None? <==> AeadOpen(r.0.sym.tempKey, NonceBytes(0), Bytes32(MixAll(sym.handshakeDigest, [packet[1..34]])), packet[34..]).Some?)
        && (r.1.Some? ==> r.1 == Some(AuthenticationFailed))
      ensures packet[0] == HandshakeVersion && ParsePubKey(packet[1..34]).None? ==> r.1 == Some(InvalidPubKey) && r.0.sym == sym
      ensures r.1.None? ==>
        && r.0.remoteEphemeral.Some?
        && r.0.sym.handshakeDigest == MixAll(sym.handshakeDigest, [packet[1..34], packet[34..]])
    {
      if packet[0] != HandshakeVersion then (this, Some(InvalidVersion(2, packet[0])))
      else
        match ParsePubKey(packet[1..34])
        case None => (this.(remoteEphemeral := None), Some(InvalidPubKey))
        case Some(re) =>
          var s1 := sym.MixHash(SerializeCompressed(re)).MixKey(Ecdh(re, localEphemeral.value));
          var (s2, payload) := s1.DecryptAndHash(packet[34..]);
          (this.(remoteEphemeral := Some(re), sym := s2),
           if payload.None? then Some(AuthenticationFailed) else None)
    }

    /** GenActThree (initiator): -> s, se. Its error result is always nil, so it returns the packet alone. */
    function GenActThree(): (r: (HandshakeValue, seq<byte>))
      requires Valid() && remoteEphemeral.Some?
      ensures r.0.Valid() && r.0.SameParty(this)
      ensures r.0.localEphemeral == localEphemeral && r.0.remoteStatic == remoteStatic
      ensures r.0.remoteEphemeral == remoteEphemeral
      ensures |r.1| == ActThreeSize && r.1[0] == HandshakeVersion
      ensures r.0.sym.handshakeDigest == MixAll(sym.handshakeDigest, [r.1[1..50], r.1[50..]])
      ensures r.1[1..50]
           == AeadSeal(sym.cipher.secretKey, NonceBytes(sym.cipher.nonce), Bytes32(sym.handshakeDigest), SerializeCompressed(PubKey(localStatic)))
      ensures r.0.sym.chainingKey == HkdfBlock1(sym.chainingKey, Ecdh(remoteEphemeral.value, localStatic))
      ensures r.0.sym.tempKey == HkdfBlock2(sym.chainingKey, Ecdh(remoteEphemeral.value, localStatic))
      ensures r.1[50..] == AeadSeal(r.0.sym.tempKey, NonceBytes(0), Bytes32(MixAll(sym.handshakeDigest, [r.1[1..50]])), [])
      ensures r.0.sym.cipher == CipherValue(1, r.0.sym.tempKey, sym.cipher.Advanced().salt)
    {
      var ourPubkey := SerializeCompressed(PubKey(localStatic));
      var (s1, ciphertext) := sym.EncryptAndHash(ourPubkey);
      var s2 := s1.MixKey(Ecdh(remoteEphemeral.value, localStatic));
      var (s3, authPayload) := s2.EncryptAndHash([]);
      var packet := [HandshakeVersion] + ciphertext + authPayload;
      assert packet[1..50] == ciphertext && packet[50..] == authPayload;
      (this.(sym := s3), packet)
    }

    /**
     * Whether RecvActThree reaches its ECDH: the version byte is right, the
     * static key decrypts and parses.
     */
    predicate ActThreeReachesEcdh(packet: seq<byte>)
      requires Valid() && |packet| == ActThreeSize
    {
      && packet[0] == HandshakeVersion
      && var (_, remotePub) := sym.DecryptAndHash(packet[1..50]);
      && remotePub.Some?
      && ParsePubKey(remotePub.value).Some?
    }

    /** RecvActThree (responder): learns and authenticates the initiator's static key. */
    function RecvActThree(packet: seq<byte>): (r: (HandshakeValue, Option<Error>))
      requires Valid() && |packet| == ActThreeSize
      requires ActThreeReachesEcdh(packet) ==> localEphemeral.Some?
      ensures r.0.Valid() && r.0.SameParty(this)
      ensures r.0.localEphemeral == localEphemeral && r.0.remoteEphemeral == remoteEphemeral
      ensures packet[0] != HandshakeVersion <==> r.1 == Some(InvalidVersion(3, packet[0]))
      ensures packet[0] != HandshakeVersion ==> r.0 == this
      ensures ActThreeReachesEcdh(packet) ==>
        && localEphemeral.Some?
        && r.0.remoteStatic == ParsePubKey(sym.DecryptAndHash(packet[1..50]).1.value)
        && r.0.sym.chainingKey == HkdfBlock1(sym.chainingKey, Ecdh(r.0.remoteStatic.value, localEphemeral.value))
        && r.0.sym.tempKey == HkdfBlock2(sym.chainingKey, Ecdh(r.0.remoteStatic.value, localEphemeral.value))
        && r.0.sym.cipher == CipherValue(1, r.0.sym.tempKey, sym.cipher.Advanced().salt)
        && (r.1.None? <==> AeadOpen(r.0.sym.tempKey, NonceBytes(0), Bytes32(MixAll(sym.handshakeDigest, [packet[1..50]])), packet[50..]).Some?)
        && (r.1.Some? ==> r.1 == Some(AuthenticationFailed))
      ensures packet[0] == HandshakeVersion && sym.cipher.Open(Bytes32(sym.handshakeDigest), packet[1..50]).None? ==>
        r.1 == Some(AuthenticationFailed)
      ensures packet[0] == HandshakeVersion && sym.cipher.Open(Bytes32(sym.handshakeDigest), packet[1..50]).Some?
              && ParsePubKey(sym.cipher.Open(Bytes32(sym.handshakeDigest), packet[1..50]).value).None? ==>
        r.1 == Some(InvalidPubKey)
      ensures r.1.None? ==>
        && r.0.remoteStatic.Some?
        && r.0.sym.handshakeDigest == MixAll(sym.handshakeDigest, [packet[1..50], packet[50..]])
    {
      if packet[0] != HandshakeVersion then (this, Some(InvalidVersion(3, packet[0])))
      else
        var (s1, remotePub) := sym.DecryptAndHash(packet[1..50]);
        if remotePub.None? then (this.(sym := s1), Some(AuthenticationFailed))
        else
          match ParsePubKey(remotePub.value)
          case None => (this.(sym := s1, remoteStatic := None), Some(InvalidPubKey))
          case Some(rs) =>
            var s2 := s1.MixKey(Ecdh(rs, localEphemeral.value));
            var (s3, payload) := s2.DecryptAndHash(packet[50..]);
            if payload.None? then (this.(sym := s3, remoteStatic := Some(rs)), Some(AuthenticationFailed))
            else (this.(sym := s3, remoteStatic := Some(rs)), None)
    }

    /**
     * split: HKDF with the chaining key as salt and empty key material. The
     * initiator sends with block 1 and receives with block 2, the responder
     * the other way round; both take the chaining key as rotation salt.
     * The result is (sendCipher, recvCipher).
     */
    function Split(): (r: (CipherValue, CipherValue))
      ensures r.0.Valid() && r.1.Valid()
      ensures r.0.nonce == 0 && r.1.nonce == 0
      ensures r.0.salt == sym.chainingKey && r.1.salt == sym.chainingKey
      ensures initiator ==> r.0.secretKey == HkdfBlock1(sym.chainingKey, []) && r.1.secretKey == HkdfBlock2(sym.chainingKey, [])
      ensures !initiator ==> r.1.secretKey == HkdfBlock1(sym.chainingKey, []) && r.0.secretKey == HkdfBlock2(sym.chainingKey, [])
    {
      var first := CipherValue(0, HkdfBlock1(sym.chainingKey, []), sym.chainingKey);
      var second := CipherValue(0, HkdfBlock2(sym.chainingKey, []), sym.chainingKey);
      if initiator then (first, second) else (second, first)
    }
  }

  /** The static key whose compressed encoding both sides mix in at the start. */
  function ResponderStatic(initiator: bool, localStatic: PrivateKey, remotePub: Option<PublicKey>): PublicKey
    requires initiator ==> remotePub.Some?
  {
    if initiator then remotePub.value else PubKey(localStatic)
  }

  /**
   * newHandshakeState: digest and chaining key from the protocol name, then
   * the prologue and the responder's static key mixed into the digest.
   */
  function NewHandshake(initiator: bool, prologue: seq<byte>, localStatic: PrivateKey, remotePub: Option<PublicKey>): (h: HandshakeValue)
    requires initiator ==> remotePub.Some?
    ensures h.Valid()
    ensures h.initiator == initiator && h.localStatic == localStatic && h.remoteStatic == remotePub
    ensures h.localEphemeral == None && h.remoteEphemeral == None
    ensures h.sym.chainingKey == Sha256(ProtocolName) && h.sym.cipher == CipherValue(0, ZeroKey, ZeroKey)
    ensures h.sym.handshakeDigest
         == MixAll(Sha256(ProtocolName), [prologue, SerializeCompressed(ResponderStatic(initiator, localStatic, remotePub))])
  {
    var rs := ResponderStatic(initiator, localStatic, remotePub);
    var sym := ZeroSymmetric.InitializeSymmetric(ProtocolName).MixHash(prologue).MixHash(SerializeCompressed(rs));
    HandshakeValue(sym, initiator, localStatic, None, remotePub, None)
  }

  /**
   * Both sides start from the same symmetric state when the initiator holds
   * the responder's public key; and, for a remote key that is a valid point
   * (one that parses back from its encoding), the items they hash coincide
   * exactly then.
   */
  lemma InitialStatesAgree(prologue: seq<byte>, initiatorStatic: PrivateKey, remotePub: PublicKey, responderStatic: PrivateKey)
    requires ParsePubKey(SerializeCompressed(remotePub)) == Some(remotePub)
    ensures var i := NewHandshake(true, prologue, initiatorStatic, Some(remotePub));
            var r := NewHandshake(false, prologue, responderStatic, None);
            remotePub == PubKey(responderStatic) ==> i.sym == r.sym
    ensures [prologue, SerializeCompressed(remotePub)] == [prologue, SerializeCompressed(PubKey(responderStatic))]
            <==> remotePub == PubKey(responderStatic)
  {
    var a, b := SerializeCompressed(remotePub), SerializeCompressed(PubKey(responderStatic));
    ParseSerialized(responderStatic);
    if [prologue, a] == [prologue, b] {
      assert a[1..] == b[1..];
    }
  }

  /** Act one in lock step: the responder accepts the initiator's packet and both reach the same symmetric state. */
  lemma {:induction false} ActOneLockStep(i: HandshakeValue, r: HandshakeValue, e: PrivateKey)
    requires i.Valid() && r.Valid() && i.sym == r.sym
    requires i.remoteStatic == Some(PubKey(r.localStatic)) && e.Valid()
    ensures var (i1, act) := i.GenActOne(Success(e));
            var (r1, err) := r.RecvActOne(act.value);
            err.None? && i1.sym == r1.sym && r1.remoteEphemeral == Some(PubKey(e))
  {
    var (i1, act) := i.GenActOne(Success(e));
    var packet := act.value;
    var ephemeral := SerializeCompressed(PubKey(e));
    ParseSerialized(e);
    EcdhAgreement(r.localStatic, e);
    var s1 := i.sym.MixHash(ephemeral).MixKey(Ecdh(PubKey(r.localStatic), e));
    DecryptAndHashEncrypted(s1, []);
    assert packet[34..] == s1.EncryptAndHash([]).1;
  }

  /** Act two in lock step: the initiator accepts the responder's packet and both reach the same symmetric state. */
  lemma {:induction false} ActTwoLockStep(i: HandshakeValue, r: HandshakeValue, eI: PrivateKey, e: PrivateKey)
    requires i.Valid() && r.Valid() && i.sym == r.sym
    requires i.localEphemeral == Some(eI) && r.remoteEphemeral == Some(PubKey(eI)) && e.Valid()
    ensures var (r2, act) := r.GenActTwo(Success(e));
            var (i2, err) := i.RecvActTwo(act.value);
            err.None? && i2.sym == r2.sym && i2.remoteEphemeral == Some(PubKey(e))
  {
    var (r2, act) := r.GenActTwo(Success(e));
    var packet := act.value;
    var ephemeral := SerializeCompressed(PubKey(e));
    ParseSerialized(e);
    EcdhAgreement(eI, e);
    var s1 := r.sym.MixHash(ephemeral).MixKey(Ecdh(PubKey(eI), e));
    DecryptAndHashEncrypted(s1, []);
    assert packet[34..] == s1.EncryptAndHash([]).1;
  }

  /**
   * Act three in lock step: the responder decrypts and learns the initiator's
   * static key, accepts the final tag, and both reach the same symmetric state.
   */
  lemma {:induction false} ActThreeLockStep(i: HandshakeValue, r: HandshakeValue, eR: PrivateKey)
    requires i.Valid() && r.Valid() && i.sym == r.sym
    requires i.remoteEphemeral == Some(PubKey(eR)) && r.localEphemeral == Some(eR) && i.localStatic.Valid()
    ensures var (i3, packet) := i.GenActThree();
            && r.ActThreeReachesEcdh(packet)
            && var (r3, err) := r.RecvActThree(packet);
            err.None? && i3.sym == r3.sym && r3.remoteStatic == Some(PubKey(i.localStatic))
  {
    var (i3, packet) := i.GenActThree();
    var ourPubkey := SerializeCompressed(PubKey(i.localStatic));
    var (s1, ciphertext) := i.sym.EncryptAndHash(ourPubkey);
    DecryptAndHashEncrypted(i.sym, ourPubkey);
    assert packet[1..50] == ciphertext;
    ParseSerialized(i.localStatic);
    EcdhAgreement(eR, i.localStatic);
    var s2 := s1.MixKey(Ecdh(PubKey(eR), i.localStatic));
    DecryptAndHashEncrypted(s2, []);
    assert packet[50..] == s2.EncryptAndHash([]).1;
  }

  /**
   * The nonces of act three: after an accepted act two the initiator's cipher
   * has used nonce 0 of the act-two temporary key, so act three seals the
   * static key under that key with nonce 1, and the final tag under the new
   * temporary key with nonce 0.
   */
  lemma ActThreeNonces(i: HandshakeValue, act2: seq<byte>)
    requires i.Valid() && |act2| == ActTwoSize && i.localEphemeral.Some?
    requires i.RecvActTwo(act2).1.None?
    ensures var i2 := i.RecvActTwo(act2).0;
            && i2.remoteEphemeral.Some?
            && var (i3, act3) := i2.GenActThree();
            && act3[1..50]
               == AeadSeal(i2.sym.tempKey, NonceBytes(1), Bytes32(i2.sym.handshakeDigest), SerializeCompressed(PubKey(i.localStatic)))
            && act3[50..] == AeadSeal(i3.sym.tempKey, NonceBytes(0), Bytes32(MixAll(i2.sym.handshakeDigest, [act3[1..50]])), [])
  {
  }

  /** After a matched handshake the two splits are mirror images. */
  lemma SplitMirrored(i: HandshakeValue, r: HandshakeValue)
    requires i.initiator && !r.initiator
    requires i.sym.chainingKey == r.sym.chainingKey
    ensures i.Split().0 == r.Split().1 && i.Split().1 == r.Split().0
  {
  }

  /** A state that has run act one or act two to completion. */
  predicate Progressed(before: HandshakeValue, after: HandshakeValue)
  {
    after.Valid() && after.SameParty(before)
  }

  /**
   * GenActOne on the initiator, then RecvActOne on the responder; on success,
   * both new states, the responder holding the initiator's ephemeral public key.
   */
  function ExchangeActOne(i: HandshakeValue, r: HandshakeValue, gen: Result<PrivateKey, Error>)
    : (res: Result<(HandshakeValue, HandshakeValue), Error>)
    requires i.Valid() && r.Valid() && (gen.Success? ==> i.remoteStatic.Some?)
    ensures res.Success? ==>
      && Progressed(i, res.value.0) && Progressed(r, res.value.1)
      && res.value.0.localEphemeral.Some?
      && res.value.1.remoteEphemeral == Some(PubKey(res.value.0.localEphemeral.value))
      && res.value.1.localEphemeral == r.localEphemeral
  {
    var (i1, act) := i.GenActOne(gen);
    if act.Failure? then Failure(act.error) else
    ParseSerialized(gen.value);
    var (r1, err) := r.RecvActOne(act.value);
    if err.Some? then Failure(err.value) else Success((i1, r1))
  }

  /**
   * GenActTwo on the responder, then RecvActTwo on the initiator; on success,
   * both new states, the initiator holding the responder's ephemeral public key.
   */
  function ExchangeActTwo(i: HandshakeValue, r: HandshakeValue, gen: Result<PrivateKey, Error>)
    : (res: Result<(HandshakeValue, HandshakeValue), Error>)
    requires i.Valid() && r.Valid() && i.localEphemeral.Some? && (gen.Success? ==> r.remoteEphemeral.Some?)
    ensures res.Success? ==>
      && Progressed(i, res.value.0) && Progressed(r, res.value.1)
      && res.value.1.localEphemeral.Some?
      && res.value.0.remoteEphemeral == Some(PubKey(res.value.1.localEphemeral.value))
  {
    var (r1, act) := r.GenActTwo(gen);
    if act.Failure? then Failure(act.error) else
    ParseSerialized(gen.value);
    var (i1, err) := i.RecvActTwo(act.value);
    if err.Some? then Failure(err.value) else Success((i1, r1))
  }

  /** GenActThree on the initiator, then RecvActThree on the responder; on success, both final states. */
  function ExchangeActThree(i: HandshakeValue, r: HandshakeValue): (res: Result<(HandshakeValue, HandshakeValue), Error>)
    requires i.Valid() && r.Valid() && i.remoteEphemeral.Some? && r.localEphemeral.Some?
    ensures res.Success? ==> Progressed(i, res.value.0) && Progressed(r, res.value.1)
  {
    var (i1, act) := i.GenActThree();
    var (r1, err) := r.RecvActThree(act);
    if err.Some? then Failure(err.value) else Success((i1, r1))
  }

  /**
   * Both sides driven act by act in the order GenActOne, RecvActOne,
   * GenActTwo, RecvActTwo, GenActThree, RecvActThree, from the given
   * starting states; the first error stops the exchange. On success, the
   * final initiator and responder states.
   */
  function Exchange(i: HandshakeValue, r: HandshakeValue,
                    initiatorGen: Result<PrivateKey, Error>, responderGen: Result<PrivateKey, Error>)
    : Result<(HandshakeValue, HandshakeValue), Error>
    requires i.Valid() && r.Valid() && i.remoteStatic.Some?
  {
    match ExchangeActOne(i, r, initiatorGen)
    case Failure(e) => Failure(e)
    case Success((i1, r1)) =>
      match ExchangeActTwo(i1, r1, responderGen)
      case Failure(e) => Failure(e)
      case Success((i2, r2)) => ExchangeActThree(i2, r2)
  }

  /** The handshake between two fresh handshake states with the "lightning" prologue. */
  function Handshake(initiatorStatic: PrivateKey, remotePub: PublicKey, responderStatic: PrivateKey,
                     initiatorGen: Result<PrivateKey, Error>, responderGen: Result<PrivateKey, Error>)
    : Result<(HandshakeValue, HandshakeValue), Error>
  {
    Exchange(NewHandshake(true, LightningPrologue, initiatorStatic, Some(remotePub)),
             NewHandshake(false, LightningPrologue, responderStatic, None),
             initiatorGen, responderGen)
  }

  /**
   * The round trip: with the responder's true static key and working
   * ephemeral generators, the handshake completes; the responder learns the
   * initiator's static key, both end with the same digest and chaining key,
   * and the initiator's send and receive ciphers are the responder's receive
   * and send ciphers. The chaining key is the protocol name's hash ratcheted
   * by the es, ee and se secrets, in that order.
   */
  lemma HandshakeAgreement(initiatorStatic: PrivateKey, responderStatic: PrivateKey, eI: PrivateKey, eR: PrivateKey)
    requires initiatorStatic.Valid() && responderStatic.Valid() && eI.Valid() && eR.Valid()
    ensures var res := Handshake(initiatorStatic, PubKey(responderStatic), responderStatic, Success(eI), Success(eR));
            && res.Success?
            && var (i, r) := res.value;
            && r.remoteStatic == Some(PubKey(initiatorStatic))
            && i.remoteEphemeral == Some(PubKey(eR)) && r.remoteEphemeral == Some(PubKey(eI))
            && i.sym == r.sym
            && i.sym.chainingKey
               == HkdfBlock1(HkdfBlock1(HkdfBlock1(Sha256(ProtocolName),
                                                   Ecdh(PubKey(responderStatic), eI)),
                                        Ecdh(PubKey(eR), eI)),
                             Ecdh(PubKey(eR), initiatorStatic))
            && i.Split().0 == r.Split().1 && i.Split().1 == r.Split().0
  {
    var i0 := NewHandshake(true, LightningPrologue, initiatorStatic, Some(PubKey(responderStatic)));
    var r0 := NewHandshake(false, LightningPrologue, responderStatic, None);
    ParseSerialized(responderStatic);
    InitialStatesAgree(LightningPrologue, initiatorStatic, PubKey(responderStatic), responderStatic);
    ActOneLockStep(i0, r0, eI);
    var (i1, act1) := i0.GenActOne(Success(eI));
    var (r1, err1) := r0.RecvActOne(act1.value);
    ActTwoLockStep(i1, r1, eI, eR);
    var (r2, act2) := r1.GenActTwo(Success(eR));
    var (i2, err2) := i1.RecvActTwo(act2.value);
    ActThreeLockStep(i2, r2, eR);
    var (i3, act3) := i2.GenActThree();
    var (r3, err3) := r2.RecvActThree(act3);
    SplitMirrored(i3, r3);
  }

  /** handshakeState, updated in place by the acts of a Machine. */
  class HandshakeState {
    const sym: SymmetricState
    var initiator: bool
    var localStatic: PrivateKey
    var localEphemeral: Option<PrivateKey>
    var remoteStatic: Option<PublicKey>
    var remoteEphemeral: Option<PublicKey>

    ghost predicate Valid()
      reads this, sym, sym.cipher
    {
      sym.Valid() && sym.cipher.Keyed()
    }

    function Value(): HandshakeValue
      reads this, sym, sym.cipher
    {
      HandshakeValue(sym.Value(), initiator, localStatic, localEphemeral, remoteStatic, remoteEphemeral)
    }

    /** newHandshakeState. The initiator must know the responder's static key. */
    constructor (initiator: bool, prologue: seq<byte>, localStatic: PrivateKey, remotePub: Option<PublicKey>)
      requires initiator ==> remotePub.Some?
      ensures Valid() && fresh(sym) && fresh(sym.cipher)
      ensures Value() == NewHandshake(initiator, prologue, localStatic, remotePub)
    {
      var s := new SymmetricState();
      s.InitializeSymmetric(ProtocolName);
      s.MixHash(prologue);
      if initiator {
        s.MixHash(SerializeCompressed(remotePub.value));
      } else {
        s.MixHash(SerializeCompressed(PubKey(localStatic)));
      }
      sym := s;
      this.initiator := initiator;
      this.localStatic := localStatic;
      localEphemeral := None;
      remoteStatic := remotePub;
      remoteEphemeral := None;
    }
  }
}
