/**
 * Machine: one side of a Brontide connection. It runs the three handshake
 * acts on its handshakeState, then encrypts and decrypts transport messages
 * with the two cipherStates that split() derives. Each method is proved to
 * change the state exactly as the corresponding HandshakeValue or
 * RecordLayer function describes.
 */
module Brontide {
  import opened Wrappers
  import opened Bytes
  import opened Primitives
  import opened Errors
  import opened CipherStates
  import opened SymmetricStates
  import opened Handshakes
  import opened RecordLayer

  /** Room for the largest ciphertext a length prefix can announce. */
  const ReadBufferSize: nat := MaxMessageLength + MacSize

  /**
   * io.ReadFull from a stream holding `stream` before end of file: fills
   * buf[..n] when the stream has n bytes, otherwise copies what there is and
   * reports EOF (nothing read) or UnexpectedEOF (some bytes read).
   */
  method ReadFull(stream: seq<byte>, buf: array<byte>, n: nat) returns (err: Option<Error>, rest: seq<byte>)
    requires n <= buf.Length
    modifies buf
    ensures |stream| >= n ==> err.None? && buf[..n] == stream[..n] && rest == stream[n..]
    ensures |stream| < n ==> err == Some(ShortReadError(|stream|)) && rest == [] && buf[..|stream|] == stream
    ensures buf[n..] == old(buf[n..])
  {
    var m := if |stream| < n then |stream| else n;
    var i := 0;
    while i < m
      invariant 0 <= i <= m
      invariant buf[..i] == stream[..i]
      invariant buf[n..] == old(buf[n..])
    {
      buf[i] := stream[i];
      i := i + 1;
    }
    if m < n {
      assert stream[..m] == stream;
      return Some(ShortReadError(m)), [];
    }
    return None, stream[n..];
  }

  class Machine {
    const sendCipher: CipherState
    const recvCipher: CipherState
    const ephemeralGen: () -> Result<PrivateKey, Error>
    const hs: HandshakeState

    /** The encrypted length prefix of the next message: 2 bytes and a tag. */
    const nextCipherHeader: array<byte>

    /** The ciphertext of the next message. */
    const nextCipherText: array<byte>

    ghost predicate Valid()
      reads this, hs, hs.sym, hs.sym.cipher, sendCipher, recvCipher
    {
      && hs.Valid() && sendCipher.Valid() && recvCipher.Valid()
      && sendCipher != recvCipher
      && hs.sym.cipher != sendCipher && hs.sym.cipher != recvCipher
      && nextCipherHeader.Length == EncHeaderSize
      && nextCipherText.Length == ReadBufferSize
      && nextCipherHeader != nextCipherText
    }

    /**
     * NewBrontideMachine with the prologue "lightning". The responder passes
     * no remote key; ephemeralGen stands for the key generator option (the
     * default draws a random key).
     */
    constructor (initiator: bool, localStatic: PrivateKey, remotePub: Option<PublicKey>,
                 ephemeralGen: () -> Result<PrivateKey, Error>)
      requires initiator ==> remotePub.Some?
      ensures Valid() && fresh(hs) && fresh(hs.sym) && fresh(hs.sym.cipher)
      ensures fresh(sendCipher) && fresh(recvCipher) && fresh(nextCipherHeader) && fresh(nextCipherText)
      ensures !sendCipher.Keyed() && !recvCipher.Keyed()
      ensures hs.Value() == NewHandshake(initiator, LightningPrologue, localStatic, remotePub)
      ensures this.ephemeralGen == ephemeralGen
    {
      hs := new HandshakeState(initiator, LightningPrologue, localStatic, remotePub);
      sendCipher := new CipherState();
      recvCipher := new CipherState();
      this.ephemeralGen := ephemeralGen;
      nextCipherHeader := new byte[EncHeaderSize];
      nextCipherText := new byte[ReadBufferSize];
    }

    method GenActOne() returns (actOne: Result<seq<byte>, Error>)
      requires Valid()
      requires ephemeralGen().Success? ==> hs.remoteStatic.Some?
      modifies hs, hs.sym, hs.sym.cipher
      ensures Valid()
      ensures (hs.Value(), actOne) == old(hs.Value()).GenActOne(ephemeralGen())
    {
      var gen := ephemeralGen();
      if gen.Failure? {
        hs.localEphemeral := None;
        return Failure(gen.error);
      }
      hs.localEphemeral := Some(gen.value);
      var ephemeral := SerializeCompressed(PubKey(gen.value));
      hs.sym.MixHash(ephemeral);
      var s := Ecdh(hs.remoteStatic.value, gen.value);
      hs.sym.MixKey(s);
      var authPayload := hs.sym.EncryptAndHash([]);
      return Success([HandshakeVersion] + ephemeral + authPayload);
    }

    method RecvActOne(actOne: seq<byte>) returns (err: Option<Error>)
      requires Valid() && |actOne| == ActOneSize
      modifies hs, hs.sym, hs.sym.cipher
      ensures Valid()
      ensures (hs.Value(), err) == old(hs.Value()).RecvActOne(actOne)
    {
      if actOne[0] != HandshakeVersion {
        return Some(InvalidVersion(1, actOne[0]));
      }
      hs.remoteEphemeral := ParsePubKey(actOne[1..34]);
      if hs.remoteEphemeral.None? {
        return Some(InvalidPubKey);
      }
      hs.sym.MixHash(SerializeCompressed(hs.remoteEphemeral.value));
      var s := Ecdh(hs.remoteEphemeral.value, hs.localStatic);
      hs.sym.MixKey(s);
      var p := hs.sym.DecryptAndHash(actOne[34..]);
      err := if p.None? then Some(AuthenticationFailed) else None;
    }

    method GenActTwo() returns (actTwo: Result<seq<byte>, Error>)
      requires Valid()
      requires ephemeralGen().Success? ==> hs.remoteEphemeral.Some?
      modifies hs, hs.sym, hs.sym.cipher
      ensures Valid()
      ensures (hs.Value(), actTwo) == old(hs.Value()).GenActTwo(ephemeralGen())
    {
      var gen := ephemeralGen();
      if gen.Failure? {
        hs.localEphemeral := None;
        return Failure(gen.error);
      }
      hs.localEphemeral := Some(gen.value);
      var ephemeral := SerializeCompressed(PubKey(gen.value));
      hs.sym.MixHash(ephemeral);
      var s := Ecdh(hs.remoteEphemeral.value, gen.value);
      hs.sym.MixKey(s);
      var authPayload := hs.sym.EncryptAndHash([]);
      return Success([HandshakeVersion] + ephemeral + authPayload);
    }

    method RecvActTwo(actTwo: seq<byte>) returns (err: Option<Error>)
      requires Valid() && |actTwo| == ActTwoSize
      requires ParsedEphemeral(actTwo).Some? ==> hs.localEphemeral.Some?
      modifies hs, hs.sym, hs.sym.cipher
      ensures Valid()
      ensures (hs.Value(), err) == old(hs.Value()).RecvActTwo(actTwo)
    {
      if actTwo[0] != HandshakeVersion {
        return Some(InvalidVersion(2, actTwo[0]));
      }
      hs.remoteEphemeral := ParsePubKey(actTwo[1..34]);
      if hs.remoteEphemeral.None? {
        return Some(InvalidPubKey);
      }
      hs.sym.MixHash(SerializeCompressed(hs.remoteEphemeral.value));
      var s := Ecdh(hs.remoteEphemeral.value, hs.localEphemeral.value);
      hs.sym.MixKey(s);
      var p := hs.sym.DecryptAndHash(actTwo[34..]);
      err := if p.None? then Some(AuthenticationFailed) else None;
    }

    /** GenActThree; it ends with split(). */
    method GenActThree() returns (actThree: seq<byte>)
      requires Valid() && hs.remoteEphemeral.Some?
      modifies hs, hs.sym, hs.sym.cipher, sendCipher, recvCipher
      ensures Valid() && sendCipher.Keyed() && recvCipher.Keyed()
      ensures (hs.Value(), actThree) == old(hs.Value()).GenActThree()
      ensures (sendCipher.Value(), recvCipher.Value()) == hs.Value().Split()
    {
      var ourPubkey := SerializeCompressed(PubKey(hs.localStatic));
      var ciphertext := hs.sym.EncryptAndHash(ourPubkey);
      var s := Ecdh(hs.remoteEphemeral.value, hs.localStatic);
      hs.sym.MixKey(s);
      var authPayload := hs.sym.EncryptAndHash([]);
      actThree := [HandshakeVersion] + ciphertext + authPayload;
      Split();
    }

    /** RecvActThree; split() runs only when the act is accepted. */
    method RecvActThree(actThree: seq<byte>) returns (err: Option<Error>)
      requires Valid() && |actThree| == ActThreeSize
      requires hs.Value().ActThreeReachesEcdh(actThree) ==> hs.localEphemeral.Some?
      modifies hs, hs.sym, hs.sym.cipher, sendCipher, recvCipher
      ensures Valid()
      ensures (hs.Value(), err) == old(hs.Value()).RecvActThree(actThree)
      ensures err.None? ==> sendCipher.Keyed() && recvCipher.Keyed()
      ensures err.None? ==> (sendCipher.Value(), recvCipher.Value()) == hs.Value().Split()
      ensures err.Some? ==> unchanged(sendCipher, recvCipher)
    {
      if actThree[0] != HandshakeVersion {
        return Some(InvalidVersion(3, actThree[0]));
      }
      var remotePub := hs.sym.DecryptAndHash(actThree[1..50]);
      if remotePub.None? {
        return Some(AuthenticationFailed);
      }
      hs.remoteStatic := ParsePubKey(remotePub.value);
      if hs.remoteStatic.None? {
        return Some(InvalidPubKey);
      }
      var se := Ecdh(hs.remoteStatic.value, hs.localEphemeral.value);
      hs.sym.MixKey(se);
      var p := hs.sym.DecryptAndHash(actThree[50..]);
      if p.None? {
        return Some(AuthenticationFailed);
      }
      Split();
      return None;
    }

    /** split: keys both transport ciphers from the final chaining key. */
    method Split()
      requires Valid()
      modifies sendCipher, recvCipher
      ensures Valid() && sendCipher.Keyed() && recvCipher.Keyed()
      ensures (sendCipher.Value(), recvCipher.Value()) == hs.Value().Split()
    {
      var okm := Hkdf(hs.sym.chainingKey, []);
      var first, second := okm.0, okm.1;
      if hs.initiator {
        sendCipher.InitializeKeyWithSalt(hs.sym.chainingKey, first);
        recvCipher.InitializeKeyWithSalt(hs.sym.chainingKey, second);
      } else {
        recvCipher.InitializeKeyWithSalt(hs.sym.chainingKey, first);
        sendCipher.InitializeKeyWithSalt(hs.sym.chainingKey, second);
      }
    }

    /** WriteMessage: returns the bytes written to the stream, or the error. */
    method WriteMessage(p: seq<byte>) returns (r: Result<seq<byte>, Error>)
      requires Valid() && sendCipher.Keyed()
      modifies sendCipher
      ensures Valid() && sendCipher.Keyed()
      ensures (r, sendCipher.Value()) == WriteRecord(old(sendCipher.Value()), p)
    {
      if |p| > MaxMessageLength {
        return Failure(MaxMessageLengthExceeded);
      }
      var pktLen := ToBE(|p|, LengthHeaderSize);
      var cipherLen := sendCipher.Encrypt([], pktLen);
      var cipherText := sendCipher.Encrypt([], p);
      return Success(cipherLen + cipherText);
    }

    /**
     * ReadMessage from a stream holding `stream` before end of file: the
     * message or the error, and the bytes left unread.
     */
    method ReadMessage(stream: seq<byte>) returns (r: Result<seq<byte>, Error>, rest: seq<byte>)
      requires Valid() && recvCipher.Keyed()
      modifies recvCipher, nextCipherHeader, nextCipherText
      ensures Valid() && recvCipher.Keyed()
      ensures var expected := ReadRecord(old(recvCipher.Value()), stream);
              r == expected.0 && rest == expected.1 && recvCipher.Value() == expected.2
    {
      ghost var c := recvCipher.Value();
      var err;
      err, rest := ReadFull(stream, nextCipherHeader, EncHeaderSize);
      if err.Some? {
        return Failure(err.value), rest;
      }
      assert nextCipherHeader[..] == stream[..EncHeaderSize];
      var pktLenBytes := recvCipher.Decrypt([], nextCipherHeader[..]);
      assert pktLenBytes == c.Open([], stream[..EncHeaderSize]);
      if pktLenBytes.None? {
        return Failure(AuthenticationFailed), rest;
      }
      FromBEBound(pktLenBytes.value);
      Pow256Of2And8();
      var pktLen := FromBE(pktLenBytes.value) + MacSize;
      var body := rest;
      assert body == stream[EncHeaderSize..];
      err, rest := ReadFull(body, nextCipherText, pktLen);
      if err.Some? {
        return Failure(err.value), rest;
      }
      assert nextCipherText[..pktLen] == body[..pktLen];
      var p := recvCipher.Decrypt([], nextCipherText[..pktLen]);
      assert p == c.Advanced().Open([], body[..pktLen]);
      r := if p.None? then Failure(AuthenticationFailed) else Success(p.value);
    }
  }
}
