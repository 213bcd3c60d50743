/**
 * The transport phase after the handshake: every message travels as an
 * encrypted 2-byte big-endian length with its own tag (18 bytes), then the
 * encrypted payload with its tag. Each record costs the sending and the
 * receiving cipherState two nonces.
 *
 * WriteRecord and ReadRecord describe the bytes and the cipher state of one
 * Machine.WriteMessage / Machine.ReadMessage; the stream a reader sees is the
 * finite sequence of bytes available before end of file.
 */
module RecordLayer {
  import opened Wrappers
  import opened Bytes
  import opened Primitives
  import opened Errors
  import opened CipherStates

  /** The largest payload whose length fits the 16-bit length prefix. */
  const MaxMessageLength: nat := 0xffff

  const LengthHeaderSize: nat := 2

  /** The encrypted length prefix: 2 bytes of length plus the tag. */
  const EncHeaderSize: nat := LengthHeaderSize + MacSize

  /** The error io.ReadFull reports when the stream ends after `read` of the bytes it wanted. */
  function ShortReadError(read: nat): Error
  {
    if read == 0 then EOF else UnexpectedEOF
  }

  /** WriteMessage on the sending cipher: the bytes written and the cipher afterwards. */
  function WriteRecord(c: CipherValue, p: seq<byte>): (r: (Result<seq<byte>, Error>, CipherValue))
    requires c.Valid()
    ensures r.1.Valid()
    ensures |p| > MaxMessageLength <==> r.0.Failure?
    ensures |p| > MaxMessageLength ==> r == (Failure(MaxMessageLengthExceeded), c)
    ensures |p| <= MaxMessageLength ==> |r.0.value| == EncHeaderSize + |p| + MacSize && r.1 == c.Advanced().Advanced()
  {
    if |p| > MaxMessageLength then (Failure(MaxMessageLengthExceeded), c)
    else
      var cipherLen := c.Seal([], ToBE(|p|, LengthHeaderSize));
      var c1 := c.Advanced();
      var cipherText := c1.Seal([], p);
      (Success(cipherLen + cipherText), c1.Advanced())
  }

  /** The bytes WriteMessage emits: the sealed length prefix, then the sealed payload under the next nonce. */
  lemma WriteRecordLayout(c: CipherValue, p: seq<byte>)
    requires c.Valid() && |p| <= MaxMessageLength
    ensures var out := WriteRecord(c, p).0.value;
            && out[..EncHeaderSize] == c.Seal([], ToBE(|p|, LengthHeaderSize))
            && out[EncHeaderSize..] == c.Advanced().Seal([], p)
  {
  }

  /**
   * ReadMessage on the receiving cipher: the message or the error, the bytes
   * of the stream left unread, and the cipher afterwards.
   */
  function ReadRecord(c: CipherValue, stream: seq<byte>): (r: (Result<seq<byte>, Error>, seq<byte>, CipherValue))
    requires c.Valid()
    ensures r.2.Valid()
    ensures |r.1| <= |stream| && r.1 == stream[|stream| - |r.1|..]
    ensures |stream| < EncHeaderSize ==> r == (Failure(ShortReadError(|stream|)), [], c)
    ensures |stream| >= EncHeaderSize ==> r.2 == c.Advanced() || r.2 == c.Advanced().Advanced()
    ensures r.0.Success? ==>
      && |r.0.value| <= MaxMessageLength
      && |stream| == EncHeaderSize + |r.0.value| + MacSize + |r.1|
      && r.2 == c.Advanced().Advanced()
  {
    if |stream| < EncHeaderSize then (Failure(ShortReadError(|stream|)), [], c)
    else
      var header, body := stream[..EncHeaderSize], stream[EncHeaderSize..];
      match c.Open([], header)
      case None => (Failure(AuthenticationFailed), body, c.Advanced())
      case Some(pktLenBytes) =>
        var c1 := c.Advanced();
        FromBEBound(pktLenBytes);
        Pow256Of2And8();
        var pktLen := FromBE(pktLenBytes) + MacSize;
        if |body| < pktLen then (Failure(ShortReadError(|body|)), [], c1)
        else
          match c1.Open([], body[..pktLen])
          case None => (Failure(AuthenticationFailed), body[pktLen..], c1.Advanced())
          case Some(p) => (Success(p), body[pktLen..], c1.Advanced())
  }

  /**
   * ReadMessage authenticates what it returns: a header or a body whose tag
   * does not verify is rejected with AuthenticationFailed, and a message is
   * returned only when both tags verify; it is then the plaintext of the
   * body, and the header holds its length.
   */
  lemma ReadRecordAuthenticated(c: CipherValue, stream: seq<byte>)
    requires c.Valid() && |stream| >= EncHeaderSize
    ensures var header := c.Open([], stream[..EncHeaderSize]);
            header.None? ==> ReadRecord(c, stream) == (Failure(AuthenticationFailed), stream[EncHeaderSize..], c.Advanced())
    ensures var header := c.Open([], stream[..EncHeaderSize]);
            header.Some? ==>
            var n := FromBE(header.value) + MacSize;
            var r := ReadRecord(c, stream);
            && (|stream| < EncHeaderSize + n ==> r == (Failure(ShortReadError(|stream| - EncHeaderSize)), [], c.Advanced()))
            && (|stream| >= EncHeaderSize + n ==>
                  && r.1 == stream[EncHeaderSize + n..]
                  && (r.0.Success? <==> c.Advanced().Open([], stream[EncHeaderSize..EncHeaderSize + n]).Some?)
                  && (r.0.Failure? ==> r.0.error == AuthenticationFailed))
    ensures var r := ReadRecord(c, stream);
            r.0.Success? ==>
            && c.Open([], stream[..EncHeaderSize]) == Some(ToBE(|r.0.value|, LengthHeaderSize))
            && c.Advanced().Open([], stream[EncHeaderSize..EncHeaderSize + |r.0.value| + MacSize]) == Some(r.0.value)
  {
    var header := c.Open([], stream[..EncHeaderSize]);
    if header.Some? {
      var n := FromBE(header.value) + MacSize;
      var body := stream[EncHeaderSize..];
      if |stream| >= EncHeaderSize + n {
        assert body[..n] == stream[EncHeaderSize..EncHeaderSize + n];
        assert body[n..] == stream[EncHeaderSize + n..];
      }
      ToBEFromBE(header.value);
    }
  }

  /** One record round trip: the reader recovers the message, stops right after it, and keeps in step with the writer. */
  lemma ReadWhatWasWritten(c: CipherValue, p: seq<byte>, rest: seq<byte>)
    requires c.Valid() && |p| <= MaxMessageLength
    ensures ReadRecord(c, WriteRecord(c, p).0.value + rest) == (Success(p), rest, WriteRecord(c, p).1)
  {
    var (written, c2) := WriteRecord(c, p);
    var stream := written.value + rest;
    var header := ToBE(|p|, LengthHeaderSize);
    WriteRecordLayout(c, p);
    assert stream[..EncHeaderSize] == c.Seal([], header);
    OpenSealed(c, [], header);
    Pow256Of2And8();
    FromBEToBE(|p|, LengthHeaderSize);
    var body := stream[EncHeaderSize..];
    assert body[..|p| + MacSize] == c.Advanced().Seal([], p);
    assert body[|p| + MacSize..] == rest;
    OpenSealed(c.Advanced(), [], p);
  }

  /** A sequence of messages written back to back, each at most MaxMessageLength bytes. */
  function WriteRecords(c: CipherValue, msgs: seq<seq<byte>>): (r: (seq<byte>, CipherValue))
    requires c.Valid()
    requires forall i :: 0 <= i < |msgs| ==> |msgs[i]| <= MaxMessageLength
    ensures r.1.Valid()
    ensures r.1 == c.AdvancedBy(2 * |msgs|)
    decreases |msgs|
  {
    if msgs == [] then ([], c)
    else
      var (first, c1) := WriteRecord(c, msgs[0]);
      var rest := msgs[1..];
      assert forall i :: 0 <= i < |rest| ==> rest[i] == msgs[i + 1];
      assert c1 == c.Advanced().Advanced();
      var (others, c2) := WriteRecords(c1, rest);
      AdvancedTwiceThenBy(c, |rest|);
      (first.value + others, c2)
  }

  /** n messages read back to back; the first error stops the reading. */
  function ReadRecords(c: CipherValue, stream: seq<byte>, n: nat): (r: (Result<seq<seq<byte>>, Error>, CipherValue))
    requires c.Valid()
    ensures r.1.Valid()
    decreases n
  {
    if n == 0 then (Success([]), c)
    else
      var (first, rest, c1) := ReadRecord(c, stream);
      if first.Failure? then (Failure(first.error), c1)
      else
        var (others, c2) := ReadRecords(c1, rest, n - 1);
        if others.Failure? then (Failure(others.error), c2)
        else (Success([first.value] + others.value), c2)
  }

  /** One step of StreamRoundTrip: once the messages after the first read back, so do all of them. */
  lemma StreamStep(c: CipherValue, msgs: seq<seq<byte>>)
    requires c.Valid() && msgs != []
    requires forall i :: 0 <= i < |msgs| ==> |msgs[i]| <= MaxMessageLength
    requires var c1 := WriteRecord(c, msgs[0]).1;
             ReadRecords(c1, WriteRecords(c1, msgs[1..]).0, |msgs| - 1) == (Success(msgs[1..]), WriteRecords(c1, msgs[1..]).1)
    ensures ReadRecords(c, WriteRecords(c, msgs).0, |msgs|) == (Success(msgs), WriteRecords(c, msgs).1)
  {
    var w := WriteRecord(c, msgs[0]);
    var ws := WriteRecords(w.1, msgs[1..]);
    ReadWhatWasWritten(c, msgs[0], ws.0);
    assert [msgs[0]] + msgs[1..] == msgs;
  }

  /**
   * Lock step over a whole session: reading back what one cipher wrote
   * recovers every message, and both sides end on the same cipher state,
   * 2 nonces per message further on, through as many key rotations as that
   * takes.
   */
  lemma {:induction false} StreamRoundTrip(c: CipherValue, msgs: seq<seq<byte>>)
    requires c.Valid()
    requires forall i :: 0 <= i < |msgs| ==> |msgs[i]| <= MaxMessageLength
    ensures ReadRecords(c, WriteRecords(c, msgs).0, |msgs|) == (Success(msgs), WriteRecords(c, msgs).1)
    decreases |msgs|
  {
    if msgs != [] {
      StreamRoundTrip(WriteRecord(c, msgs[0]).1, msgs[1..]);
      StreamStep(c, msgs);
    }
  }
}
