# socket-dl in Dafny

socket-dl is a small TCP file server. A client connects and sends a file
name. The server answers with one of two things:

- an error text followed by a zero-length write (the end marker);
- an eight-byte big-endian chunk count, then the file's bytes in writes of
  at most 1024 bytes, then the end marker.

Connections are handled one at a time, in the order they are accepted.

This project models that server and proves what it writes on every
connection. The model is split into the following modules:

- `Bytes`: bytes, 64-bit unsigned values, and `u64::to_be_bytes` with its
  inverse.
- `Text`: decimal rendering of sizes, UTF-8 encoding of messages, and the
  decoding of the request into a file name.
- `Request`: the size cap and the two traversal checks applied to the
  request, as the function `Validate`.
- `Chunks`: the chunk amount announced in the header, the data writes, and
  what a client parses off the wire.
- `Protocol`: the behaviour of `respond_with_error`, `send_file` and one
  pass of the accept loop, written as relations on values.
  - `SendTranscript` and `ErrorResponse` give the exact writes.
  - `SentFile`, `ChunkLoop` and `Answered` say which runs are possible
    given the file, the peer and the failures.
  - Its lemmas state the end-marker, prefix, round-trip and rejection
    properties.
- `Environment`: what the server runs against: the files of the served
  folder and the connecting clients, with the failures each will cause.
- `Io`: the two objects the server mutates.
  - `Stream` is the TCP connection: its pending inbound bytes, and a log of
    every `write_all` call.
  - `FileReader` is the `BufReader<File>`: the file, its read cursor and a
    count of read calls.
- `Server`: `respond_with_error`, `send_file` (with its chunk loop as
  `SendChunks`), one pass of the accept loop (`HandleConnection`) and the
  accept loop (`Run`). Each is an imperative method proved to produce
  exactly a transcript the `Protocol` relations allow.

Failures and nondeterminism are explicit:

- How many bytes a read returns is left open. A file read returns between
  1 and `min(1024, remaining)` bytes, and 0 only at end of file. So the
  header is proved equal to the number of data writes only when every read
  but the last is full. `ShortReadsBreakHeader` shows a case where it is
  not.
- A failing `write_all` is chosen by an oracle on the connection: a set of
  write positions.
- A failing file read is chosen by an oracle on the file: a set of
  read-call numbers.
- A failing request read is an error fixed for the connection.
- The files of the served folder are a map from file name to file entry.
  A name that is not in the map is a failed `File::open`.

Two panics are outcomes that stop the accept loop:

- the `unwrap` on `File::open` (src/main.rs:106);
- the `expect` on a failed file read (src/main.rs:90).

Both happen inside `main`'s async body. They unwind out of the
current-thread runtime and end the process, so `Run` stops at the first
panic. A third `unwrap`, on the second metadata lookup (src/main.rs:70), is
not modelled; see "Left out".

## Model

| member | source | states |
|---|---|---|
| Bytes.ToBeBytes | src/main.rs:81 | the header encoding of a `u64` is exactly 8 bytes, and reading them most significant first gives the value back |
| Bytes.FromBigEndianOfBigEndian | src/main.rs:81 | decoding the n-byte big-endian form of any value below 256^n gives that value |
| Bytes.BigEndianOfFromBigEndian | src/main.rs:81 | re-encoding the value of any byte string at its own length gives the same bytes |
| Bytes.ToBeBytesOnto | src/main.rs:81 | every 8-byte string is the header encoding of exactly one `u64`, namely its big-endian value |
| Text.Decimal | src/main.rs:46 | the `{}` rendering of a size is a non-empty string of digits, without a leading zero, whose decimal value is the size |
| Text.EncodeChar | src/main.rs:112 | a character's UTF-8 form has 1 to 4 bytes; it is one byte, the code itself, exactly for ASCII |
| Text.Utf8Append | src/main.rs:112 | the bytes of a concatenated message are the bytes of its parts, in order |
| Text.DecodeLossy | src/main.rs:52 | the decoded name has one character per request byte, and a character is ASCII exactly when its byte is |
| Text.AsciiRoundTrip | src/main.rs:52 | for an ASCII request, encoding the decoded name gives back the request bytes |
| Text.DecodeKeepsSlash | src/main.rs:52-54 | the decoded name contains `/` if and only if the request holds byte 0x2F |
| Text.DecodeKeepsDotDot | src/main.rs:52-54 | the decoded name contains `..` if and only if the request holds two adjacent 0x2E bytes |
| Request.Validate | src/main.rs:43-57 | a served name comes from a request of at most 500 bytes, has one character per byte, and contains neither `/` nor `..` |
| Request.ServedExactly | src/main.rs:43-57 | a request is served if and only if it is at most 500 bytes and holds neither 0x2F nor 0x2E 0x2E; the served name is its decoding |
| Request.OversizedRejected | src/main.rs:43-50 | a request over 500 bytes is refused with a message that starts with `Err: Request size is too large: ` and ends in the digits of its size |
| Request.TraversalRejected | src/main.rs:52-57 | a request within the cap that holds `/` or `..` is refused with `Invalid file <name>`. That message does not start with `Err:`. For an ASCII request its bytes are the fixed text followed by the request |
| Request.EmptyRequestServed | src/main.rs:43-57 | a zero-byte request passes both checks and asks for the empty name |
| Chunks.ChunkAmount | src/main.rs:75 | the chunk amount is the least number of 1024-byte chunks that hold the file, and never more than its size |
| Chunks.ChunkAmountExamples | src/main.rs:75 | the amount is 0 for an empty file, 1 for 1024 bytes and 2 for 1025 bytes |
| Chunks.ChunkedLength | src/main.rs:88-95 | n data writes of 1 to 1024 bytes each carry between n and 1024·n bytes in total |
| Chunks.ChunkCountBounds | src/main.rs:75-101 | however the reads split the file, there are at least as many data writes as the header announces, and no more than there are bytes |
| Chunks.FullChunksMatchAmount | src/main.rs:75-101 | when every data write but the last is a full 1024 bytes, the number of data writes equals the announced chunk amount |
| Chunks.DownloadRoundTrip | src/main.rs:75-95 | a client parsing the header followed by the file recovers the chunk amount and the file |
| Protocol.ErrorResponse | src/main.rs:111-113 | an error response is exactly two writes, the message's bytes and then a zero-length write |
| Protocol.Header | src/main.rs:75-81 | the header is 8 bytes whose big-endian value is the chunk amount of the file size |
| Protocol.SendEndsWithMarker | src/main.rs:68-101 | `send_file`'s last write is the end marker if and only if it did not end in a failed file read |
| Protocol.EndMarkerUnlessPanic | src/main.rs:30-113 | every connection's last write is the end marker, except exactly when the server panics on it |
| Protocol.RejectionsNeverOpen | src/main.rs:43-57 | an oversized request, and a request naming `/` or `..`, are answered with their error text and the end marker; the file is never opened |
| Protocol.LoopWire | src/main.rs:88-101 | the bytes the chunk loop puts on the wire are exactly its data writes, concatenated |
| Protocol.SendWire | src/main.rs:81-101 | once the header is delivered, the wire carries the header followed by the data writes' bytes |
| Protocol.SentBytesArePrefix | src/main.rs:81-101 | however `send_file` ends after its header, a client parses the right chunk amount and a prefix of the file; on normal termination it gets the whole file |
| Protocol.CompletedDownloadRoundTrip | src/main.rs:29-101 | a connection whose send completed delivers the requested file byte for byte under the right header, and ends with the end marker |
| Protocol.HeaderCountsChunks | src/main.rs:75-101 | for a completed send the header never announces more chunks than were written, and it announces exactly as many when every read but the last was full |
| Protocol.ShortReadsBreakHeader | src/main.rs:68-101 | `send_file` on a two-byte file may read one byte at a time and complete normally after two data writes, while its header announces one chunk |
| Protocol.FailuresBeforeDataSendNoFileBytes | src/main.rs:69-86 | a failed metadata lookup sends only its error text and the end marker; after a failed header write the only further write is the end marker; neither sends file bytes |
| Io.Stream.Accept | src/main.rs:29 | an accepted connection has the peer's pending bytes and failures, and nothing written |
| Io.Stream.Read | src/main.rs:30-31 | a read returns the error, or copies a prefix of the pending bytes into the buffer and consumes exactly that prefix; it returns 0 only when nothing is pending. The rest of the buffer is left untouched |
| Io.Stream.WriteAll | src/main.rs:95 | each `write_all` is appended to the connection's write log, and it reports failure exactly at the oracle's failing positions |
| Io.FileReader.Open | src/main.rs:104-108 | an opened file is read from its first byte, and no read calls have been made on it yet |
| Io.FileReader.Read | src/main.rs:90 | a read fails on the oracle's calls; otherwise it copies the next bytes of the file at the cursor into the buffer and advances the cursor by that many; it returns 0 only at end of file. The rest of the buffer is left untouched, and a failed read changes nothing in it |
| Server.RespondWithError | src/main.rs:111-115 | the connection receives exactly the message's bytes and then the end marker, whatever the writes report |
| Server.SendFile | src/main.rs:68-102 | the writes are exactly `SendTranscript`. Without metadata they are the error response. After a failed header write only the end marker follows. Otherwise the header is followed by chunks that are consecutive slices of the file, and the run ends in a way `ChunkLoop` allows |
| Server.SendChunks | src/main.rs:88-101 | each data write is 1 to 1024 bytes, and together they are the file's bytes from the cursor on. The loop ends at end of file after sending all of it, at the first failed write, or at the first failed read. The end marker follows unless a read failed |
| Server.HandleConnection | src/main.rs:30-64 | one pass of the accept loop on a fresh connection does exactly what `Answered` allows. That covers the request read error, the refusals, the panic on a missing file, and `send_file` on the named file. The connection's writes end with the end marker exactly when the pass does not panic |
| Server.Run | src/main.rs:29-65 | every connection handled is answered as `Answered` allows, and none but possibly the last panicked; the loop stops only when the clients run out or at the first panic |

## Left out

- Socket setup, `bind`, and the accept error that ends `while let Ok(...)` (src/main.rs:20-29). These are network I/O. `Run` takes the accepted clients as a finite sequence and stops when it runs out of them.
- Server.Run: every client is assumed to send its request and close its side, and to read whatever it is sent. The server has no time-out. A client that neither sends nor closes blocks `stream.read` (src/main.rs:31) forever. A client that stops reading can block a `write_all` (src/main.rs:81, 95, 112) forever. In both cases no later client is ever served. `Peer` cannot describe such a client, so `Server.Run` and `Server.HandleConnection` promise that every pass ends.
- Io.FileReader.Metadata: `metadata()` is called twice (src/main.rs:69-70) and the second result is unwrapped. The model looks it up once, so the panic when the first lookup succeeds and the second fails is not modelled.
- Io.FileReader.Metadata: the size it reports is the length of the bytes the reads return. The file is assumed not to change between the size lookup and the reads, and a special file whose reported length is 0 but which has contents is not modelled. The source reads until `read` returns 0, whatever `len()` said, so in those cases the header does not match the data.
- `.env` loading and the `PORT` and `FOLDER_PATH` lookups, including the `unwrap` on `FOLDER_PATH` (src/main.rs:14-18, 60). This is configuration plumbing. The served folder is the map of files handed to `HandleConnection`.
- All `println!` output. It is console logging with no effect on the protocol.
- `PathBuf::join` and `File::open` (src/main.rs:104-108). These are filesystem calls. The map of files stands for them, keyed by the decoded name. The empty name joins to the folder itself; a map can describe that case with an entry whose first read fails.
- Text.DecodeLossy: non-ASCII bytes are each decoded to U+FFFD, whereas `String::from_utf8_lossy` decodes valid multi-byte sequences. This does not change any verdict, because the checks depend only on the bytes 0x2F and 0x2E 0x2E. For non-ASCII requests, the served name and the bytes of the `Invalid file` message may differ from the source's.
- Request.Validate: "one character per byte" holds for the per-byte decoder only; `from_utf8_lossy` gives fewer characters when the request holds multi-byte sequences.
- Chunks.ChunkAmount: the `f64` division and `ceil` are modelled as integer ceiling division. The two agree for every size up to 2^53.
- Io.Stream.WriteAll: a failed `write_all` is logged whole, although the real call may have written part of the bytes. Whether a write fails is an oracle, not a property of the network.
- A zero-length `write_all` is an event in the write log. What it does on the TCP connection is not modelled.
- Io.FileReader.Read: the model says how many bytes a read may return, but not how many it will. A real `BufReader` usually fills the buffer, but nothing guarantees it. So the header equals the number of data writes only under the full-reads condition of `Chunks.FullChunksMatchAmount`.
- Concurrency: tokio's runtime is not modelled, since the server awaits each connection to the end before accepting the next.
