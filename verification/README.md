# Brontide and fee rates, in Dafny

This project models two parts of lnd (the Actinium fork).

**Brontide** (`brontide/noise.go`) is the encrypted, authenticated transport of the Lightning Network, specified in BOLT #8. It has two phases.

- **Handshake.** Two peers run a three-act Noise_XK handshake with secp256k1, ChaCha20-Poly1305 and SHA-256 (section 7.5 of the Noise Protocol Framework). The initiator already knows the responder's static key. The handshake ends with one cipherState per direction.
- **Transport.** Each message travels as an encrypted 2-byte length with its own tag, then the encrypted payload with its tag. Every encryption or decryption advances a 64-bit nonce. The key is ratcheted forward with HKDF every 1000 operations.

**Fee rates** (`lnwallet/chainfee/rates.go`) are integer conversions between satoshis per 1000 virtual bytes and satoshis per 1000 weight units. It also covers the fee these rates charge for a transaction.

## How it is modelled

Module by module:

- **Wrappers** (`wrappers.dfy`): `Option` and `Result`.
- **Errors** (`errors.dfy`): the errors the core can report.
- **Bytes** (`bytes.dfy`): bytes, and the little-endian and big-endian encodings of `encoding/binary`.
- **Primitives** (`primitives.dfy`): SHA-256, HKDF, the AEAD and secp256k1.
  - They are the fields of one constant `Crypto` of type `Suite`.
  - Nothing is known about `Crypto` except the laws a `Suite` obeys:
    - the output sizes;
    - opening undoes sealing under the same key, nonce and associated data;
    - the compressed encoding of the public key of a scalar in [1, n-1] parses, and the encoding of any derived public key parses to nothing but that key (a point value off the curve is not covered);
    - both sides of a Diffie-Hellman exchange agree.
  - Every result below therefore holds for any primitives with these properties.
  - `Insecure` is a suite that satisfies the laws, which shows they are consistent.
  - A 32-byte key or digest is held as the number its big-endian bytes denote.
- **CipherStates** (`cipher_state.dfy`): cipherState.
  - `CipherValue` is its value.
  - `Advanced` is the deferred step that follows every Encrypt and every Decrypt.
  - The class `CipherState` holds the fields and updates them in place, as the Go methods do.
- **SymmetricStates** (`symmetric_state.dfy`): symmetricState, as a value and as a class.
  - `MixAll` is the SHA-256 fold that describes the running handshake digest.
- **Handshakes** (`handshake.dfy`): handshakeState and the six acts, as functions on `HandshakeValue` and as a class.
  - It proves that two honest peers driven in lock step finish the handshake.
  - They end with the same digest and chaining key, and with mirrored transport ciphers.
- **RecordLayer** (`record_layer.dfy`): the bytes and cipher states of WriteMessage and ReadMessage.
  - A stream is the finite sequence of bytes available before end of file.
  - It proves that a reader recovers every message a writer sends.
  - Both sides stay in step through any number of key rotations.
- **Brontide** (`machine.dfy`): the `Machine` class and `io.ReadFull` into a fixed buffer.
  - Each method is proved to change the state exactly as the corresponding function describes.
- **ChainFee** (`rates.dfy`): the two rate types over Go's `int64`.
  - Go's truncating division is written out as `TruncDiv`.

## Model

| member | source | states |
|---|---|---|
| Primitives.Ecdh | brontide/noise.go:77-85 | The shared secret is 32 bytes, the SHA-256 of the compressed point priv·pub. |
| Primitives.EcdhAgreement | brontide/noise.go:77-85 | ecdh(pub(a), b) equals ecdh(pub(b), a), so both ends of an exchange derive the same secret. |
| CipherStates.NonceBytes | brontide/noise.go:124-125 | The AEAD nonce is 12 bytes: four zero bytes, then the 64-bit counter in little-endian order. |
| CipherStates.CipherValue.Advanced | brontide/noise.go:116-122 | The step after every operation. The nonce becomes (nonce+1) mod 1000. Key and salt are kept unless the nonce reaches 1000; then the state is exactly the rotated one, with nonce 0. |
| CipherStates.CipherValue.Seal | brontide/noise.go:123-127 | Encryption under the current key and nonce; the ciphertext is the plaintext length plus the 16-byte tag. |
| CipherStates.CipherValue.Open | brontide/noise.go:142-145 | Decryption under the current key and nonce. It succeeds only on a ciphertext of at least 16 bytes, giving a plaintext 16 bytes shorter. |
| CipherStates.OpenSealed | brontide/noise.go:115-146 | Decrypt in the state that encrypted recovers the plaintext. |
| CipherStates.AdvancedByAdds | brontide/noise.go:116-122 | a operations followed by b operations are a+b operations. |
| CipherStates.RotationSchedule | brontide/noise.go:116-121 | k operations from any valid state leave the nonce at (nonce+k) mod 1000. The key has then been rotated exactly (nonce+k) div 1000 times. |
| CipherStates.CipherState.constructor | brontide/noise.go:90-111 | The zero-valued cipherState: nonce 0, zero key and salt, no AEAD instance. |
| CipherStates.CipherState.Encrypt | brontide/noise.go:115-128 | Returns the sealed text under the old key and nonce, then takes the deferred step (increment, rotation at 1000). |
| CipherStates.CipherState.Decrypt | brontide/noise.go:133-146 | Returns the opened text or None. It takes the same deferred step whether or not authentication succeeds. |
| CipherStates.CipherState.InitializeKey | brontide/noise.go:150-157 | Sets the key, resets the nonce to 0, keeps the salt, and keys the AEAD. |
| CipherStates.CipherState.InitializeKeyWithSalt | brontide/noise.go:161-164 | Sets salt and key, with nonce 0. |
| CipherStates.CipherState.RotateKey | brontide/noise.go:170-188 | HKDF(salt, old key): the new salt is block 1, the new key is block 2, and the nonce restarts at 0. |
| SymmetricStates.SymmetricValue.MixKey | brontide/noise.go:220-237 | HKDF(chaining key, input): the chaining key becomes block 1; the temp key becomes block 2, which keys the cipher with nonce 0. The digest is unchanged. |
| SymmetricStates.SymmetricValue.MixHash | brontide/noise.go:242-248 | The digest becomes SHA-256(digest ‖ data); nothing else changes. |
| SymmetricStates.SymmetricValue.EncryptAndHash | brontide/noise.go:253-259 | Seals under the digest as associated data, advances the cipher, then mixes the ciphertext into the digest. |
| SymmetricStates.SymmetricValue.DecryptAndHash | brontide/noise.go:264-273 | Opens under the digest as associated data and advances the cipher either way. The digest absorbs the ciphertext only when the tag verifies; on failure it is unchanged. |
| SymmetricStates.SymmetricValue.InitializeSymmetric | brontide/noise.go:277-283 | Digest and chaining key both become SHA-256(protocol name), and the cipher key is all zero. |
| SymmetricStates.MixAllAppend | brontide/noise.go:242-248 | Mixing xs then ys into the digest is mixing xs + ys. |
| SymmetricStates.DecryptAndHashEncrypted | brontide/noise.go:253-273 | A peer in the same symmetric state decrypts what EncryptAndHash produced and reaches the same state. |
| SymmetricStates.SymmetricState.constructor | brontide/noise.go:195-213 | The zero-valued symmetricState. |
| SymmetricStates.SymmetricState.MixKey | brontide/noise.go:220-237 | The new state is the MixKey of the old one. |
| SymmetricStates.SymmetricState.MixHash | brontide/noise.go:242-248 | The new state is the MixHash of the old one. |
| SymmetricStates.SymmetricState.EncryptAndHash | brontide/noise.go:253-259 | Ciphertext and new state are those of EncryptAndHash on the old state. |
| SymmetricStates.SymmetricState.DecryptAndHash | brontide/noise.go:264-273 | Plaintext and new state are those of DecryptAndHash on the old state; on failure the digest is unchanged. |
| SymmetricStates.SymmetricState.InitializeSymmetric | brontide/noise.go:277-283 | The new state is InitializeSymmetric of the old one. |
| Handshakes.NewHandshake | brontide/noise.go:305-332 | Chaining key = SHA-256(protocol name), zero cipher, no ephemerals. The digest is that hash with the prologue, then the responder's compressed static key, mixed in. |
| Handshakes.InitialStatesAgree | brontide/noise.go:305-332 | Initiator and responder start from the same symmetric state when the initiator holds the responder's key. For a remote key that is a valid point, the items they hash coincide exactly then. |
| Handshakes.HandshakeValue.GenActOne | brontide/noise.go:456-482 | If the generator fails, its error, with no ephemeral key. Otherwise a 50-byte packet: version 0, the compressed ephemeral key, and the tag, with both parts mixed into the digest. The chaining key and temporary key are the HKDF of the old chaining key with the es secret, ECDH of the remote static key and the new ephemeral key (brontide/noise.go:472). The tag seals the empty payload under the new temporary key with nonce 0 and the digest as associated data; the cipher is left at nonce 1. |
| Handshakes.HandshakeValue.RecvActOne | brontide/noise.go:488-521 | The version byte is checked first: a wrong one gives InvalidVersion(1, v) and leaves the state untouched. Otherwise the ephemeral key is parsed; once it parses, chaining key and temporary key are the HKDF of the old chaining key with the ECDH of that key and the local static key (brontide/noise.go:514). The act is accepted exactly when the tag opens under the new temporary key with nonce 0 and the digest as associated data; otherwise it fails with AuthenticationFailed. An unparsable key gives InvalidPubKey. Success means both parts are mixed in. |
| Handshakes.HandshakeValue.GenActTwo | brontide/noise.go:529-555 | As GenActOne, with the ee secret: ECDH of the remote ephemeral key and the new ephemeral key (brontide/noise.go:545); the same tag and nonce. |
| Handshakes.HandshakeValue.RecvActTwo | brontide/noise.go:560-591 | As RecvActOne, with InvalidVersion(2, v) and the ee secret: ECDH of the parsed key and the local ephemeral key (brontide/noise.go:586); accepted exactly when the tag opens, otherwise AuthenticationFailed. |
| Handshakes.HandshakeValue.GenActThree | brontide/noise.go:600-620 | A 66-byte packet: version 0, bytes 1-49 being the compressed local static key sealed under the current cipher key and nonce, and the final tag, with both parts mixed into the digest. The chaining key and temporary key are the HKDF of the old chaining key with the se secret, ECDH of the remote ephemeral key and the local static key (brontide/noise.go:606). The final tag is sealed under the new temporary key with nonce 0, and the cipher is left at nonce 1. |
| Handshakes.HandshakeValue.RecvActThree | brontide/noise.go:626-667 | The version gate runs first, giving InvalidVersion(3, v) with no state change. Once the static key decrypts and parses, it is the remote static key, and chaining key and temporary key are the HKDF of the old chaining key with the ECDH of that key and the local ephemeral key (brontide/noise.go:655). A static key that does not decrypt gives AuthenticationFailed, one that does not parse gives InvalidPubKey, and past the ECDH the act is accepted exactly when the final tag opens under the new temporary key with nonce 0, otherwise AuthenticationFailed. Success means both parts were mixed in. |
| Handshakes.HandshakeValue.Split | brontide/noise.go:674-703 | HKDF(chaining key, empty) gives two keys, both with the chaining key as salt and nonce 0. The initiator sends with block 1 and receives with block 2; the responder does the opposite. |
| Handshakes.ActOneLockStep | brontide/noise.go:456-521 | For an ephemeral scalar in [1, n-1], the responder accepts the initiator's act one, and both reach the same symmetric state. |
| Handshakes.ActTwoLockStep | brontide/noise.go:529-591 | For an ephemeral scalar in [1, n-1], the initiator accepts the responder's act two, and both reach the same symmetric state. |
| Handshakes.ActThreeLockStep | brontide/noise.go:600-667 | For an initiator static scalar in [1, n-1], the responder accepts act three and learns the initiator's static key; both reach the same symmetric state. |
| Handshakes.ActThreeNonces | brontide/noise.go:560-620 | After an accepted act two, act three seals the initiator's static key under the act-two temporary key with nonce 1, and the final tag under the new temporary key with nonce 0. |
| Handshakes.SplitMirrored | brontide/noise.go:674-703 | With equal chaining keys, the initiator's send and receive ciphers are the responder's receive and send ciphers. |
| Handshakes.ExchangeActOne | brontide/noise.go:456-521 | On success, both sides keep their role and static key, and the responder's remote ephemeral key is the public key of the initiator's new ephemeral key. |
| Handshakes.ExchangeActTwo | brontide/noise.go:529-591 | On success, both sides keep their role and static key, and the initiator's remote ephemeral key is the public key of the responder's new ephemeral key. |
| Handshakes.ExchangeActThree | brontide/noise.go:600-667 | On success, both sides keep their role and static key. |
| Handshakes.HandshakeAgreement | brontide/noise.go:456-703 | With the responder's true key, working generators and all four private scalars in [1, n-1], the six acts succeed. The responder learns the initiator's key; both share digest and chaining key; the transport ciphers mirror each other. The chaining key is SHA-256 of the protocol name ratcheted by HKDF with the es, ee and se secrets in that order. |
| Handshakes.HandshakeState.constructor | brontide/noise.go:305-332 | The new handshakeState has the value NewHandshake describes. |
| Brontide.ReadFull | brontide/noise.go:741-743 | With at least n bytes available, it copies them and leaves the rest. Otherwise it reports EOF (nothing read) or UnexpectedEOF (some read), and copies what there was. |
| Brontide.Machine.constructor | brontide/noise.go:398-417 | NewBrontideMachine: a handshake state built with the prologue "lightning", unkeyed transport ciphers, and the given ephemeral key generator. |
| Brontide.Machine.GenActOne | brontide/noise.go:456-482 | The handshake state and packet are those of HandshakeValue.GenActOne on the generator's result. |
| Brontide.Machine.RecvActOne | brontide/noise.go:488-521 | The handshake state and error are those of HandshakeValue.RecvActOne. |
| Brontide.Machine.GenActTwo | brontide/noise.go:529-555 | The handshake state and packet are those of HandshakeValue.GenActTwo. |
| Brontide.Machine.RecvActTwo | brontide/noise.go:560-591 | The handshake state and error are those of HandshakeValue.RecvActTwo. |
| Brontide.Machine.GenActThree | brontide/noise.go:600-620 | As HandshakeValue.GenActThree, after which the transport ciphers are those of Split. |
| Brontide.Machine.RecvActThree | brontide/noise.go:626-667 | As HandshakeValue.RecvActThree. The transport ciphers are keyed by Split only when the act is accepted, and untouched otherwise. |
| Brontide.Machine.Split | brontide/noise.go:674-703 | Both transport ciphers are keyed as HandshakeValue.Split describes. |
| Brontide.Machine.WriteMessage | brontide/noise.go:709-736 | The bytes written and the new send cipher are those of WriteRecord. |
| Brontide.Machine.ReadMessage | brontide/noise.go:740-771 | The message or error, the unread bytes, and the new receive cipher are those of ReadRecord. |
| RecordLayer.WriteRecord | brontide/noise.go:709-736 | A payload over 65535 bytes fails with MaxMessageLengthExceeded, and the cipher does not advance. Otherwise the output is 18 + len + 16 bytes and the cipher advances twice. |
| RecordLayer.WriteRecordLayout | brontide/noise.go:719-735 | The first 18 bytes seal the 2-byte big-endian length; the rest seals the payload under the next nonce. |
| RecordLayer.ReadRecord | brontide/noise.go:740-771 | Fewer than 18 bytes gives EOF or UnexpectedEOF with the cipher untouched. Otherwise the cipher advances once or twice. A message is 18 + len + 16 bytes of the stream, at most 65535 long, with two advances. |
| RecordLayer.ReadRecordAuthenticated | brontide/noise.go:738-771 | A header whose tag does not verify gives AuthenticationFailed. After a verified header, a short body gives EOF or UnexpectedEOF; a full body is accepted exactly when its tag verifies, and otherwise gives AuthenticationFailed. A returned message is the plaintext of the body, and the header holds its length. |
| RecordLayer.ReadWhatWasWritten | brontide/noise.go:709-771 | Reading what WriteMessage wrote, followed by anything, gives back the message, stops right after it, and leaves the reader's cipher where the writer's is. |
| RecordLayer.WriteRecords | brontide/noise.go:709-736 | Writing n messages advances the send cipher by 2n operations. |
| RecordLayer.StreamRoundTrip | brontide/noise.go:709-771 | Lock step over a whole session: the reader recovers every message in order and ends on the writer's cipher state, through any number of key rotations. |
| ChainFee.TruncDiv | lnwallet/chainfee/rates.go:22 | Go's int64 division by a positive divisor: the quotient rounds toward zero, with the remainder taking the dividend's sign. |
| ChainFee.TruncDivMonotone | lnwallet/chainfee/rates.go:22 | Truncating division is monotone in the dividend. |
| ChainFee.TruncDivMultiple | lnwallet/chainfee/rates.go:27 | A multiple of the divisor divides exactly. |
| ChainFee.SatPerKVByte.FeeForVSize | lnwallet/chainfee/rates.go:19-23 | rate·vbytes/1000 rounded toward zero; down for a non-negative product. |
| ChainFee.SatPerKVByte.FeePerKWeight | lnwallet/chainfee/rates.go:25-28 | The sat/kb rate divided by 4, truncating toward zero. |
| ChainFee.SatPerKWeight.FeeForWeight | lnwallet/chainfee/rates.go:38-43 | rate·wu/1000 rounded toward zero, down for a non-negative product, as BOLT #3 asks. |
| ChainFee.SatPerKWeight.FeePerKVByte | lnwallet/chainfee/rates.go:45-48 | The sat/kb rate is four times the sat/kw rate. |
| ChainFee.KWeightRoundTrip | lnwallet/chainfee/rates.go:25-28 | sat/kw → sat/kb → sat/kw returns the original rate. |
| ChainFee.KVByteRoundTrip | lnwallet/chainfee/rates.go:45-48 | sat/kb → sat/kw → sat/kb never grows a non-negative rate (nor shrinks a negative one). It is the identity exactly when the rate is divisible by 4. |
| ChainFee.FeeConsistent | lnwallet/chainfee/rates.go:21-23 | Pricing v vbytes at r.FeePerKVByte() equals pricing 4v weight units at r. |
| ChainFee.FeeForVSizeMonotone | lnwallet/chainfee/rates.go:19-23 | At a non-negative rate, more vbytes never cost less. |
| ChainFee.FeeForWeightMonotone | lnwallet/chainfee/rates.go:38-43 | At a non-negative rate, more weight never costs less. |
| ChainFee.FloorRate | lnwallet/chainfee/rates.go:13 | FeePerKwFloor is 253 sat/kw, which is 1012 sat/kb, and charges 253 satoshis per 1000 weight units. |

## Left out

- **The internals of SHA-256, HKDF, ChaCha20-Poly1305 and secp256k1.** The model relies only on the laws of `Suite`. It assumes no collision resistance and no unforgeability. So it proves that honest peers agree, and that a packet or record whose tag does not open is rejected with AuthenticationFailed; it does not prove that a tampered packet fails to open.
- **I/O.**
  - The `io.Writer` of WriteMessage is the returned byte sequence. A failing or short write, which in the source leaves the send cipher advanced once or twice, is not modelled.
  - The `io.Reader` of ReadMessage is the sequence of bytes available before end of file. Other reader errors are not modelled.
- **The connection wrappers.** The handshake read timeout `handshakeReadTimeout` and `net.Conn` are not part of this model.
- **`readBufferPool`, `runtime.SetFinalizer` and `freeReadBuffer`** (brontide/noise.go:757-760, 777-780). `nextCipherText` is one array of `ReadBufferSize` bytes, allocated by the constructor.
- **`EphemeralGenerator`** (brontide/noise.go:338-342). The functional options become a constructor parameter: the key generator, as a function returning a key or an error. The default generator draws randomness and is left out.
- **The `String()` methods** of rates.go, which are formatting only.
- ChainFee.SatPerKVByte.FeeForVSize: requires the int64 product rate·vbytes not to overflow; Go would wrap it around.
- ChainFee.SatPerKWeight.FeeForWeight: requires the int64 product rate·wu not to overflow; Go would wrap it around.
- ChainFee.SatPerKWeight.FeePerKVByte: requires 4·rate not to overflow int64; Go would wrap it around.
- Handshakes.HandshakeValue.GenActOne: requires the remote static key whenever the generator succeeds. A responder calling GenActOne makes the source dereference a nil key.
- Handshakes.HandshakeValue.GenActTwo: requires the remote ephemeral key whenever the generator succeeds. Without it the source dereferences nil.
- Handshakes.HandshakeValue.RecvActTwo: requires a local ephemeral key whenever the packet reaches the ECDH. Without it the source dereferences nil.
- Handshakes.HandshakeValue.RecvActThree: requires a local ephemeral key whenever the packet reaches the ECDH. Without it the source dereferences nil.
- Handshakes.HandshakeValue.GenActThree: always succeeds in the source (its error result is always nil), so it returns the packet alone.
- Handshakes.NewHandshake: requires the remote static key for an initiator. Without it the source dereferences a nil key (brontide/noise.go:326).
- Handshakes.HandshakeState.constructor: requires the remote static key for an initiator, for the same reason (brontide/noise.go:326).
- Brontide.Machine.constructor: requires the remote static key for an initiator, for the same reason (brontide/noise.go:326).
- Handshakes.HandshakeValue.GenActThree: requires the remote ephemeral key. Without it the ECDH dereferences nil (brontide/noise.go:606).
- Brontide.Machine.GenActOne, Brontide.Machine.GenActTwo, Brontide.Machine.RecvActTwo and Brontide.Machine.RecvActThree carry the requires of the HandshakeValue acts they run, for the same reasons.
- Handshakes.ActOneLockStep, Handshakes.ActTwoLockStep, Handshakes.ActThreeLockStep and Handshakes.HandshakeAgreement: require the private scalars whose public keys are parsed to lie in [1, n-1], as btcec.NewPrivateKey draws them. For the scalar 0 the source's ParsePubKey rejects the encoded point at infinity and the handshake fails.
- Brontide.Machine.GenActThree: requires the remote ephemeral key. Without it the ECDH dereferences nil (brontide/noise.go:606).
- Brontide.Machine.WriteMessage: requires a keyed send cipher. Before split the source calls a nil AEAD (brontide/noise.go:725).
- Brontide.Machine.ReadMessage: requires a keyed receive cipher. Before split the source calls a nil AEAD (brontide/noise.go:746).
- Handshakes.InitialStatesAgree: requires the remote key to parse back from its own encoding, as any key btcec hands out does. The law of `Suite` covers only keys derived from a private key.
- CipherStates.CipherState.Encrypt: requires a keyed cipher. On a zero-valued cipherState the source calls a nil AEAD.
- CipherStates.CipherState.Decrypt: requires a keyed cipher, for the same reason.
- **The comment on the `nonce` field** (brontide/noise.go:91-93) says the nonce grows after each *successful* operation. The deferred increment in the code advances it after a failed Open too, and the model follows the code.
- **Empty associated data.** The transport passes nil associated data. ChaCha20-Poly1305 treats nil and empty alike, so the model uses the empty sequence.
