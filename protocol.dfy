/**
 * The response protocol as relations on values: what the sender and the
 * connection handler may write for a given file, peer and request, and
 * what a client can conclude from it. The imperative code in `Server` is
 * proved to produce exactly these transcripts.
 */
module Protocol {
  import opened Wrappers
  import opened Bytes
  import opened Text
  import opened Request
  import opened Chunks
  import opened Environment

  /** How `send_file` ends. `ReadPanicked` is the `expect` on a failed file read. */
  datatype SendOutcome = MetadataFailed | HeaderFailed | Completed | WriteFailed | ReadPanicked

  /** How one pass of the accept loop ends. `OpenPanicked` is the `unwrap` on a failed `File::open`. */
  datatype ConnOutcome = ReadFailed | Rejected(message: string) | OpenPanicked | Sent(outcome: SendOutcome)

  /** A panic ends the whole server, not just the connection. */
  predicate Panicked(o: ConnOutcome) {
    o == OpenPanicked || o == Sent(ReadPanicked)
  }

  /** The text sent back when the file's metadata cannot be read. */
  const MetadataErrorMessage: string := "Err: Failed to get file metadata"

  /** `respond_with_error`: the message's bytes, then the zero-length end marker. */
  function ErrorResponse(message: string): (ws: seq<seq<Byte>>)
    ensures |ws| == 2 && ws[1] == [] && Concat(ws) == Utf8(message)
  {
    assert Concat([Utf8(message)]) == Utf8(message);
    [Utf8(message), []]
  }

  /** The eight header bytes for a file of `size` bytes. */
  function Header(size: U64): (h: seq<Byte>)
    ensures |h| == 8 && FromBigEndian(h) == ChunkAmount(size)
  {
    ToBeBytes(ChunkAmount(size))
  }

  /**
   * The writes `send_file` makes for a file of `size` bytes, given how it
   * ended and the data writes it made.
   */
  function SendTranscript(size: U64, o: SendOutcome, chunks: seq<seq<Byte>>): seq<seq<Byte>> {
    match o
    case MetadataFailed => ErrorResponse(MetadataErrorMessage)
    case HeaderFailed => [Header(size), []]
    case _ => [Header(size)] + LoopTranscript(o, chunks)
  }

  /** The writes of the chunk loop: the data writes, then the end marker unless a read panicked. */
  function LoopTranscript(o: SendOutcome, chunks: seq<seq<Byte>>): seq<seq<Byte>> {
    if o == ReadPanicked then chunks else chunks + [[]]
  }

  /** None of the `count` writes from position `from` on fails. */
  predicate Delivered(failingWrites: set<nat>, from: nat, count: nat) {
    forall k :: from <= k < from + count ==> k !in failingWrites
  }

  /** None of the `count` read calls from call `from` on fails. */
  predicate ReadsSucceed(failingReads: set<nat>, from: nat, count: nat) {
    forall k :: from <= k < from + count ==> k !in failingReads
  }

  /** The data writes are chunks that together are the file's bytes from `cursor` on, up to some point. */
  predicate SentPrefix(f: FileEntry, cursor: nat, chunks: seq<seq<Byte>>) {
    && AreChunks(chunks)
    && cursor + |Concat(chunks)| <= |f.data|
    && Concat(chunks) == f.data[cursor..cursor + |Concat(chunks)|]
  }

  /**
   * The chunk loop of `send_file` on `f`, with the read cursor at `cursor`
   * and `r0` reads done, on a connection that has made `w1` writes, may end
   * with `o` after the data writes `chunks`: every read before the last one
   * succeeded and every data write before the last one was delivered.
   */
  predicate ChunkLoop(f: FileEntry, cursor: nat, r0: nat, failingWrites: set<nat>, w1: nat,
                      chunks: seq<seq<Byte>>, o: SendOutcome)
  {
    && SentPrefix(f, cursor, chunks)
    && match o
       case Completed =>
         && cursor + |Concat(chunks)| == |f.data|
         && Delivered(failingWrites, w1, |chunks|)
         && ReadsSucceed(f.failingReads, r0, |chunks| + 1)
       case WriteFailed =>
         && chunks != []
         && Delivered(failingWrites, w1, |chunks| - 1)
         && w1 + |chunks| - 1 in failingWrites
         && ReadsSucceed(f.failingReads, r0, |chunks|)
       case ReadPanicked =>
         && Delivered(failingWrites, w1, |chunks|)
         && ReadsSucceed(f.failingReads, r0, |chunks|)
         && r0 + |chunks| in f.failingReads
       case _ => false
  }

  /**
   * The state of the chunk loop after the data writes `chunks`: the read
   * cursor has moved to `pos` past exactly those bytes, one read call was
   * made per chunk and every one of them and every data write succeeded.
   */
  predicate LoopSoFar(f: FileEntry, cursor: nat, r0: nat, failingWrites: set<nat>, w1: nat,
                      chunks: seq<seq<Byte>>, pos: nat, readCalls: nat)
  {
    && SentPrefix(f, cursor, chunks)
    && pos == cursor + |Concat(chunks)|
    && readCalls == r0 + |chunks|
    && ReadsSucceed(f.failingReads, r0, |chunks|)
    && Delivered(failingWrites, w1, |chunks|)
  }

  /** A successful read of the next bytes whose write is delivered extends the loop state. */
  lemma LoopStep(f: FileEntry, cursor: nat, r0: nat, failingWrites: set<nat>, w1: nat,
                 chunks: seq<seq<Byte>>, pos: nat, readCalls: nat, c: seq<Byte>)
    requires LoopSoFar(f, cursor, r0, failingWrites, w1, chunks, pos, readCalls)
    requires IsChunk(c) && pos + |c| <= |f.data| && c == f.data[pos..pos + |c|]
    requires readCalls !in f.failingReads && w1 + |chunks| !in failingWrites
    ensures LoopSoFar(f, cursor, r0, failingWrites, w1, chunks + [c], pos + |c|, readCalls + 1)
  {
    ConcatExtendsSlice(f.data, cursor, chunks, c);
  }

  /** A read at end of file ends the loop with `Completed`. */
  lemma LoopCompleted(f: FileEntry, cursor: nat, r0: nat, failingWrites: set<nat>, w1: nat,
                      chunks: seq<seq<Byte>>, pos: nat, readCalls: nat)
    requires LoopSoFar(f, cursor, r0, failingWrites, w1, chunks, pos, readCalls)
    requires pos == |f.data| && readCalls !in f.failingReads
    ensures ChunkLoop(f, cursor, r0, failingWrites, w1, chunks, Completed)
  {
  }

  /** A successful read whose write fails ends the loop with `WriteFailed`. */
  lemma LoopWriteFailed(f: FileEntry, cursor: nat, r0: nat, failingWrites: set<nat>, w1: nat,
                        chunks: seq<seq<Byte>>, pos: nat, readCalls: nat, c: seq<Byte>)
    requires LoopSoFar(f, cursor, r0, failingWrites, w1, chunks, pos, readCalls)
    requires IsChunk(c) && pos + |c| <= |f.data| && c == f.data[pos..pos + |c|]
    requires readCalls !in f.failingReads && w1 + |chunks| in failingWrites
    ensures ChunkLoop(f, cursor, r0, failingWrites, w1, chunks + [c], WriteFailed)
  {
    ConcatExtendsSlice(f.data, cursor, chunks, c);
  }

  /** A failed read ends the loop with `ReadPanicked`. */
  lemma LoopReadPanicked(f: FileEntry, cursor: nat, r0: nat, failingWrites: set<nat>, w1: nat,
                         chunks: seq<seq<Byte>>, pos: nat, readCalls: nat)
    requires LoopSoFar(f, cursor, r0, failingWrites, w1, chunks, pos, readCalls)
    requires readCalls in f.failingReads
    ensures ChunkLoop(f, cursor, r0, failingWrites, w1, chunks, ReadPanicked)
  {
  }

  /**
   * `send_file` on `f` with the read cursor at `cursor` and `r0` reads done,
   * on a connection that has made `w0` writes, may end with `o` after the
   * data writes `chunks`.
   */
  predicate SentFile(f: FileEntry, cursor: nat, r0: nat, failingWrites: set<nat>, w0: nat,
                     chunks: seq<seq<Byte>>, o: SendOutcome)
  {
    match o
    case MetadataFailed =>
      !f.metadataOk && chunks == []
    case HeaderFailed =>
      f.metadataOk && w0 in failingWrites && chunks == []
    case _ =>
      f.metadataOk && w0 !in failingWrites && ChunkLoop(f, cursor, r0, failingWrites, w0 + 1, chunks, o)
  }

  /** Without metadata `send_file` answers with the metadata error and sends no data. */
  lemma SentFileMetadataFailed(f: FileEntry, cursor: nat, r0: nat, failingWrites: set<nat>, w0: nat)
    requires !f.metadataOk
    ensures SentFile(f, cursor, r0, failingWrites, w0, [], MetadataFailed)
    ensures SendTranscript(|f.data|, MetadataFailed, []) == ErrorResponse(MetadataErrorMessage)
  {
  }

  /** A failed header write is followed by the end marker alone. */
  lemma SentFileHeaderFailed(f: FileEntry, cursor: nat, r0: nat, failingWrites: set<nat>, w0: nat)
    requires f.metadataOk && w0 in failingWrites
    ensures SentFile(f, cursor, r0, failingWrites, w0, [], HeaderFailed)
    ensures SendTranscript(|f.data|, HeaderFailed, []) == [Header(|f.data|), []]
  {
  }

  /** A chunk loop run after a delivered header makes a whole `send_file` run. */
  lemma SentFileFromLoop(f: FileEntry, cursor: nat, r0: nat, failingWrites: set<nat>, w0: nat,
                         chunks: seq<seq<Byte>>, o: SendOutcome)
    requires f.metadataOk && w0 !in failingWrites
    requires ChunkLoop(f, cursor, r0, failingWrites, w0 + 1, chunks, o)
    ensures SentFile(f, cursor, r0, failingWrites, w0, chunks, o)
    ensures SendTranscript(|f.data|, o, chunks) == [Header(|f.data|)] + LoopTranscript(o, chunks)
  {
    assert o != MetadataFailed && o != HeaderFailed;
  }

  /**
   * One pass of the accept loop for `p`, with the served folder's files in
   * `fs` keyed by name: the request read, the verdict on it, and then the
   * error response, the panic on a missing file, or `send_file`'s writes.
   */
  predicate Answered(p: Peer, fs: map<string, FileEntry>, request: seq<Byte>,
                     chunks: seq<seq<Byte>>, out: seq<seq<Byte>>, o: ConnOutcome)
  {
    match p.readError
    case Some(e) =>
      o == ReadFailed && request == [] && chunks == [] && out == ErrorResponse(ReadErrorMessage(e))
    case None =>
      && |request| <= RequestBufferSize && request <= p.inbound
      && (request == [] <==> p.inbound == [])
      && match Validate(request)
         case Reject(m) =>
           o == Rejected(m) && chunks == [] && out == ErrorResponse(m)
         case Serve(name) =>
           if name !in fs then o == OpenPanicked && chunks == [] && out == []
           else
             && o.Sent?
             && SentFile(fs[name], 0, 0, p.failingWrites, 0, chunks, o.outcome)
             && out == SendTranscript(|fs[name].data|, o.outcome, chunks)
  }

  /** `send_file`'s writes end with the end marker unless a file read panicked. */
  lemma SendEndsWithMarker(size: U64, o: SendOutcome, chunks: seq<seq<Byte>>)
    requires AreChunks(chunks)
    ensures var ws := SendTranscript(size, o, chunks);
      o != ReadPanicked <==> (ws != [] && ws[|ws| - 1] == [])
  {
    var ws := SendTranscript(size, o, chunks);
    if o == ReadPanicked {
      if chunks != [] {
        assert ws[|ws| - 1] == chunks[|chunks| - 1];
        assert IsChunk(chunks[|chunks| - 1]);
      } else {
        assert ws == [Header(size)];
      }
    }
  }

  /**
   * Every connection's writes end with the zero-length end marker, except
   * when the server panics on it.
   */
  lemma EndMarkerUnlessPanic(p: Peer, fs: map<string, FileEntry>, request: seq<Byte>,
                             chunks: seq<seq<Byte>>, out: seq<seq<Byte>>, o: ConnOutcome)
    requires Answered(p, fs, request, chunks, out, o)
    ensures !Panicked(o) <==> (out != [] && out[|out| - 1] == [])
  {
    match p.readError
    case Some(e) =>
      assert out == ErrorResponse(ReadErrorMessage(e)) && o == ReadFailed;
    case None =>
      match Validate(request)
      case Reject(m) =>
        assert out == ErrorResponse(m) && o == Rejected(m);
      case Serve(name) =>
        if name in fs {
          var f := fs[name];
          assert AreChunks(chunks) by {
            if chunks != [] {
              assert SentPrefix(f, 0, chunks);
            }
          }
          SendEndsWithMarker(|f.data|, o.outcome, chunks);
        }
  }

  /**
   * Neither an oversized request nor a traversal attempt opens a file: the
   * connection gets the matching error text and the end marker, nothing else.
   */
  lemma RejectionsNeverOpen(p: Peer, fs: map<string, FileEntry>, request: seq<Byte>,
                            chunks: seq<seq<Byte>>, out: seq<seq<Byte>>, o: ConnOutcome)
    requires Answered(p, fs, request, chunks, out, o)
    requires p.readError.None?
    ensures |request| > MaxRequestSize ==>
      o == Rejected(TooLargeMessage(|request|)) && out == ErrorResponse(TooLargeMessage(|request|))
    ensures |request| <= MaxRequestSize && (HasSlashByte(request) || HasDotDotBytes(request)) ==>
      var m := InvalidFileMessage(DecodeLossy(request));
      o == Rejected(m) && out == ErrorResponse(m)
  {
    if |request| <= MaxRequestSize && (HasSlashByte(request) || HasDotDotBytes(request)) {
      TraversalRejected(request);
    }
  }

  /** On the wire, the chunk loop's writes carry exactly the bytes of its data writes. */
  lemma LoopWire(o: SendOutcome, chunks: seq<seq<Byte>>)
    ensures Concat(LoopTranscript(o, chunks)) == Concat(chunks)
  {
    if o != ReadPanicked {
      ConcatAppend(chunks, [[]]);
      assert Concat([[]]) == [];
    }
  }

  /** On the wire, a send that got past its header carries the header, then the data writes' bytes. */
  lemma SendWire(size: U64, o: SendOutcome, chunks: seq<seq<Byte>>)
    requires o == Completed || o == WriteFailed || o == ReadPanicked
    ensures Concat(SendTranscript(size, o, chunks)) == Header(size) + Concat(chunks)
  {
    var loop := LoopTranscript(o, chunks);
    assert SendTranscript(size, o, chunks) == [Header(size)] + loop;
    ConcatAppend([Header(size)], loop);
    assert Concat([Header(size)]) == Header(size);
    LoopWire(o, chunks);
  }

  /**
   * Whatever way `send_file` ends after its header, the bytes on the wire
   * are the header for the whole file followed by a prefix of the file; on
   * normal termination that prefix is the whole file, so a client parses
   * back the chunk amount and the file byte for byte.
   */
  lemma SentBytesArePrefix(f: FileEntry, failingWrites: set<nat>, chunks: seq<seq<Byte>>, o: SendOutcome)
    requires SentFile(f, 0, 0, failingWrites, 0, chunks, o)
    requires o == Completed || o == WriteFailed || o == ReadPanicked
    ensures var wire := Concat(SendTranscript(|f.data|, o, chunks));
      && ParseDownload(wire).Some?
      && ParseDownload(wire).value.chunkAmount == ChunkAmount(|f.data|)
      && ParseDownload(wire).value.contents <= f.data
      && (o == Completed ==> ParseDownload(wire) == Some(Download(ChunkAmount(|f.data|), f.data)))
  {
    var header := Header(|f.data|);
    var body := Concat(chunks);
    SendWire(|f.data|, o, chunks);
    assert (header + body)[..8] == header;
    assert (header + body)[8..] == body;
    assert SentPrefix(f, 0, chunks);
    if o == Completed {
      assert f.data[0..|f.data|] == f.data;
    }
  }

  /** What `Answered` says when the connection reached `send_file`. */
  lemma AnsweredBySending(p: Peer, fs: map<string, FileEntry>, request: seq<Byte>,
                          chunks: seq<seq<Byte>>, out: seq<seq<Byte>>, o: ConnOutcome)
    requires Answered(p, fs, request, chunks, out, o)
    requires o.Sent?
    ensures p.readError.None? && Validate(request) == Serve(DecodeLossy(request))
    ensures DecodeLossy(request) in fs
    ensures var f := fs[DecodeLossy(request)];
      SentFile(f, 0, 0, p.failingWrites, 0, chunks, o.outcome) &&
      out == SendTranscript(|f.data|, o.outcome, chunks)
  {
  }

  /** A completed download reconstructs the requested file, and ends with the end marker. */
  lemma CompletedDownloadRoundTrip(p: Peer, fs: map<string, FileEntry>, request: seq<Byte>,
                                   chunks: seq<seq<Byte>>, out: seq<seq<Byte>>)
    requires Answered(p, fs, request, chunks, out, Sent(Completed))
    ensures DecodeLossy(request) in fs
    ensures var data := fs[DecodeLossy(request)].data;
      ParseDownload(Concat(out)) == Some(Download(ChunkAmount(|data|), data))
    ensures out[|out| - 1] == []
  {
    AnsweredBySending(p, fs, request, chunks, out, Sent(Completed));
    var f := fs[DecodeLossy(request)];
    SentBytesArePrefix(f, p.failingWrites, chunks, Completed);
  }

  /**
   * The header announces exactly as many data writes as a completed send
   * makes when every read but the last fills the 1024-byte buffer; in every
   * case it announces no more than there are.
   */
  lemma HeaderCountsChunks(f: FileEntry, failingWrites: set<nat>, chunks: seq<seq<Byte>>)
    requires SentFile(f, 0, 0, failingWrites, 0, chunks, Completed)
    ensures ChunkAmount(|f.data|) <= |chunks|
    ensures (forall i :: 0 <= i < |chunks| - 1 ==> |chunks[i]| == ChunkSize) ==> |chunks| == ChunkAmount(|f.data|)
  {
    ChunkCountBounds(chunks);
    if forall i :: 0 <= i < |chunks| - 1 ==> |chunks[i]| == ChunkSize {
      FullChunksMatchAmount(chunks);
    }
  }

  /**
   * Short reads break the header: `send_file` on a two-byte file may read
   * it one byte at a time and complete normally after two data writes,
   * while its header announces one chunk.
   */
  lemma ShortReadsBreakHeader()
    ensures var f := FileEntry([0, 0], true, {});
      var chunks: seq<seq<Byte>> := [[0], [0]];
      && SentFile(f, 0, 0, {}, 0, chunks, Completed)
      && FromBigEndian(Header(|f.data|)) == 1
      && |chunks| == 2
  {
    var f := FileEntry([0, 0], true, {});
    var chunks: seq<seq<Byte>> := [[0], [0]];
    assert Concat(chunks[..1]) == [0];
    assert Concat(chunks) == f.data[0..2];
  }

  /**
   * A failed metadata lookup sends only its error text and the end marker;
   * a failed header write is followed only by the end marker. Neither sends
   * file bytes.
   */
  lemma FailuresBeforeDataSendNoFileBytes(size: U64, o: SendOutcome, chunks: seq<seq<Byte>>)
    requires o == MetadataFailed || o == HeaderFailed
    ensures o == MetadataFailed ==>
      SendTranscript(size, o, chunks) == [Utf8(MetadataErrorMessage), []]
    ensures o == HeaderFailed ==>
      var ws := SendTranscript(size, o, chunks);
      |ws| == 2 && ws[1] == [] && Concat(ws) == Header(size)
  {
    if o == HeaderFailed {
      var ws := SendTranscript(size, o, chunks);
      assert ws[..1] == [Header(size)];
      assert Concat(ws[..1]) == Header(size);
    }
  }
}
