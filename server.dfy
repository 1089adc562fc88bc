/**
 * The server's control flow: `respond_with_error`, `send_file`, one pass of
 * the accept loop in `main`, and the accept loop itself. Each method is
 * proved to write exactly a transcript that `Protocol` allows.
 */
module Server {
  import opened Wrappers
  import opened Bytes
  import opened Text
  import opened Request
  import opened Chunks
  import opened Protocol
  import opened Environment
  import opened Io

  /** `respond_with_error`: write the message's bytes, then the end marker, ignoring failures. */
  method RespondWithError(stream: Stream, message: string)
    modifies stream`writes
    ensures stream.writes == old(stream.writes) + ErrorResponse(message)
  {
    ghost var log := stream.writes;
    var _ := stream.WriteAll(Utf8(message));
    var _ := stream.WriteAll([]);
    AppendWrites(log, [Utf8(message)], [[]]);
  }

  /**
   * `send_file`: the metadata error, or the eight-byte chunk-count header
   * followed by one write per successful read until end of file, a failed
   * write or a failed read. The ghost `chunks` are the data writes made.
   */
  method SendFile(file: FileReader, stream: Stream) returns (o: SendOutcome, ghost chunks: seq<seq<Byte>>)
    requires file.Valid()
    modifies file, stream`writes
    ensures file.Valid()
    ensures SentFile(file.entry, old(file.pos), old(file.readCalls), stream.failingWrites,
                     |old(stream.writes)|, chunks, o)
    ensures stream.writes == old(stream.writes) + SendTranscript(|file.entry.data|, o, chunks)
  {
    ghost var log := stream.writes;
    ghost var w0, cursor, r0 := |log|, file.pos, file.readCalls;
    var size := file.Metadata();
    if size.None? {
      RespondWithError(stream, MetadataErrorMessage);
      SentFileMetadataFailed(file.entry, cursor, r0, stream.failingWrites, w0);
      return MetadataFailed, [];
    }
    var header := ToBeBytes(ChunkAmount(size.value));
    assert header == Header(|file.entry.data|);
    var headerSent := stream.WriteAll(header);
    if !headerSent {
      var _ := stream.WriteAll([]);
      AppendWrites(log, [header], [[]]);
      SentFileHeaderFailed(file.entry, cursor, r0, stream.failingWrites, w0);
      return HeaderFailed, [];
    }
    o, chunks := SendChunks(file, stream);
    AppendWrites(log, [header], LoopTranscript(o, chunks));
    SentFileFromLoop(file.entry, cursor, r0, stream.failingWrites, w0, chunks, o);
  }

  /**
   * The loop of `send_file`: read up to 1024 bytes into a fresh buffer;
   * at end of file write the end marker and stop; otherwise write the bytes
   * read, and after a failed write send the end marker and stop. A failed
   * read panics. The ghost `chunks` are the data writes made.
   */
  method SendChunks(file: FileReader, stream: Stream) returns (o: SendOutcome, ghost chunks: seq<seq<Byte>>)
    requires file.Valid()
    modifies file, stream`writes
    ensures file.Valid()
    ensures ChunkLoop(file.entry, old(file.pos), old(file.readCalls), stream.failingWrites,
                      |old(stream.writes)|, chunks, o)
    ensures stream.writes == old(stream.writes) + LoopTranscript(o, chunks)
  {
    ghost var log := stream.writes;
    ghost var w1 := |log|;
    ghost var cursor := file.pos;
    ghost var r0 := file.readCalls;
    chunks := [];
    while true
      invariant file.Valid()
      invariant LoopSoFar(file.entry, cursor, r0, stream.failingWrites, w1, chunks, file.pos, file.readCalls)
      invariant stream.writes == log + chunks
      decreases |file.entry.data| - file.pos
    {
      ghost var pos, calls := file.pos, file.readCalls;
      var chunk := new Byte[ChunkSize];
      var read := file.Read(chunk);
      if read.None? {
        // `expect("Failed to read from file")` panics
        LoopReadPanicked(file.entry, cursor, r0, stream.failingWrites, w1, chunks, pos, calls);
        return ReadPanicked, chunks;
      }
      var n := read.value;
      if n == 0 {
        var _ := stream.WriteAll([]);
        AppendWrites(log, chunks, [[]]);
        LoopCompleted(file.entry, cursor, r0, stream.failingWrites, w1, chunks, pos, calls);
        return Completed, chunks;
      }
      var sent := stream.WriteAll(chunk[..n]);
      AppendWrites(log, chunks, [chunk[..n]]);
      if !sent {
        var _ := stream.WriteAll([]);
        AppendWrites(log, chunks + [chunk[..n]], [[]]);
        LoopWriteFailed(file.entry, cursor, r0, stream.failingWrites, w1, chunks, pos, calls, chunk[..n]);
        return WriteFailed, chunks + [chunk[..n]];
      }
      LoopStep(file.entry, cursor, r0, stream.failingWrites, w1, chunks, pos, calls, chunk[..n]);
      chunks := chunks + [chunk[..n]];
    }
  }

  /**
   * One pass of the accept loop, on the connection accepted from `peer`
   * with the served folder's files in `fs` keyed by name: read at most 512
   * request bytes, answer a failed read or a refused request with an error,
   * panic when the name does not open, and otherwise send the file. `out`
   * is every write made on the connection.
   */
  method HandleConnection(peer: Peer, fs: map<string, FileEntry>)
    returns (o: ConnOutcome, out: seq<seq<Byte>>, request: seq<Byte>, ghost chunks: seq<seq<Byte>>)
    ensures Answered(peer, fs, request, chunks, out, o)
    ensures !Panicked(o) <==> out != [] && out[|out| - 1] == []
  {
    var stream := new Stream.Accept(peer);
    var buffer := new Byte[RequestBufferSize](_ => 0);
    var read := stream.Read(buffer);
    if read.Failure? {
      RespondWithError(stream, ReadErrorMessage(read.error));
      o, out, request, chunks := ReadFailed, stream.writes, [], [];
      EndMarkerUnlessPanic(peer, fs, request, chunks, out, o);
      return;
    }
    request, chunks := buffer[..read.value], [];
    var verdict := Validate(request);
    if verdict.Reject? {
      RespondWithError(stream, verdict.message);
      o, out := Rejected(verdict.message), stream.writes;
      EndMarkerUnlessPanic(peer, fs, request, chunks, out, o);
      return;
    }
    if verdict.name !in fs {
      // `File::open(file_path).unwrap()` panics
      return OpenPanicked, stream.writes, request, chunks;
    }
    var file := new FileReader.Open(fs[verdict.name]);
    var sent;
    sent, chunks := SendFile(file, stream);
    o, out := Sent(sent), stream.writes;
    EndMarkerUnlessPanic(peer, fs, request, chunks, out, o);
  }

  /**
   * The accept loop over the clients in `peers`, in order: each connection
   * is handled to the end before the next is accepted; the loop ends when
   * no client is left, or with the first panic, which ends the server.
   */
  method Run(peers: seq<Peer>, fs: map<string, FileEntry>)
    returns (outcomes: seq<ConnOutcome>, transcripts: seq<seq<seq<Byte>>>,
             requests: seq<seq<Byte>>, ghost chunkLists: seq<seq<seq<Byte>>>)
    ensures |outcomes| == |transcripts| == |requests| == |chunkLists| <= |peers|
    ensures forall i :: 0 <= i < |outcomes| ==>
      Answered(peers[i], fs, requests[i], chunkLists[i], transcripts[i], outcomes[i])
    ensures forall i :: 0 <= i < |outcomes| - 1 ==> !Panicked(outcomes[i])
    ensures |outcomes| == |peers| || (outcomes != [] && Panicked(outcomes[|outcomes| - 1]))
  {
    outcomes, transcripts, requests, chunkLists := [], [], [], [];
    while |outcomes| < |peers|
      invariant |outcomes| == |transcripts| == |requests| == |chunkLists| <= |peers|
      invariant forall i :: 0 <= i < |outcomes| ==>
        Answered(peers[i], fs, requests[i], chunkLists[i], transcripts[i], outcomes[i])
      invariant forall i :: 0 <= i < |outcomes| ==> !Panicked(outcomes[i])
    {
      var o, out, request, chunks := HandleConnection(peers[|outcomes|], fs);
      outcomes, transcripts := outcomes + [o], transcripts + [out];
      requests, chunkLists := requests + [request], chunkLists + [chunks];
      if Panicked(o) {
        return;
      }
    }
  }
}
