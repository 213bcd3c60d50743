/** The errors the handshake and the record layer report. */
module Errors {
  import opened Bytes

  datatype Error =
    | InvalidVersion(act: nat, version: byte)  // a handshake act whose first byte is not HandshakeVersion
    | InvalidPubKey                            // btcec.ParsePubKey rejected the bytes
    | AuthenticationFailed                     // the AEAD tag did not verify
    | MaxMessageLengthExceeded                 // ErrMaxMessageLengthExceeded
    | EOF                                      // io.ReadFull found no bytes at all
    | UnexpectedEOF                            // io.ReadFull found some bytes, but too few
}
