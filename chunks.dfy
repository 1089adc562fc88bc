/**
 * The chunk stream: the chunk count announced in the header, the data
 * writes that follow it, and what a client reads off the wire.
 */
module Chunks {
  import opened Wrappers
  import opened Bytes

  /** Size of the buffer each file read fills. */
  const ChunkSize: nat := 1024

  /**
   * `(file_size as f64 / 1024.0).ceil() as u64`, in integers: the least
   * number of 1024-byte chunks that hold `size` bytes. The floating-point
   * original agrees with it for every size up to 2^53.
   */
  function ChunkAmount(size: nat): (r: nat)
    ensures r * 1024 >= size
    ensures r == 0 || (r - 1) * 1024 < size
    ensures r <= size
  {
    (size + 1023) / 1024
  }

  /** The three sizes that fix the rounding: empty, one full chunk, one byte more. */
  lemma ChunkAmountExamples()
    ensures ChunkAmount(0) == 0 && ChunkAmount(1024) == 1 && ChunkAmount(1025) == 2
  {
  }

  /** The bytes of a sequence of writes, in order. */
  function Concat(ws: seq<seq<Byte>>): seq<Byte> {
    if ws == [] then [] else Concat(ws[..|ws| - 1]) + ws[|ws| - 1]
  }

  /** Concatenation distributes over appending sequences of writes. */
  lemma {:induction false} ConcatAppend(a: seq<seq<Byte>>, b: seq<seq<Byte>>)
    ensures Concat(a + b) == Concat(a) + Concat(b)
  {
    if b == [] {
      assert a + b == a;
    } else {
      var ab := a + b;
      assert ab[..|ab| - 1] == a + b[..|b| - 1];
      ConcatAppend(a, b[..|b| - 1]);
    }
  }

  /** Appending the next slice of `data` to writes that spell a slice of it spells the longer slice. */
  lemma ConcatExtendsSlice(data: seq<Byte>, from: nat, ws: seq<seq<Byte>>, next: seq<Byte>)
    requires from + |Concat(ws)| + |next| <= |data|
    requires Concat(ws) == data[from..from + |Concat(ws)|]
    requires next == data[from + |Concat(ws)|..from + |Concat(ws)| + |next|]
    ensures Concat(ws + [next]) == data[from..from + |Concat(ws)| + |next|]
  {
    assert (ws + [next])[..|ws|] == ws;
  }

  /** A data write: the bytes of one successful read, never empty, at most one buffer. */
  predicate IsChunk(c: seq<Byte>) {
    0 < |c| <= ChunkSize
  }

  /** Every write in `cs` is a data write. */
  predicate AreChunks(cs: seq<seq<Byte>>) {
    forall i :: 0 <= i < |cs| ==> IsChunk(cs[i])
  }

  /** Data writes carry between one and 1024 bytes each. */
  lemma {:induction false} ChunkedLength(cs: seq<seq<Byte>>)
    requires AreChunks(cs)
    ensures |cs| <= |Concat(cs)| <= 1024 * |cs|
  {
    if cs != [] {
      ChunkedLength(cs[..|cs| - 1]);
    }
  }

  /**
   * However the reads split the file, there are at least as many data writes
   * as the header announces, and no more than there are bytes.
   */
  lemma ChunkCountBounds(cs: seq<seq<Byte>>)
    requires AreChunks(cs)
    ensures ChunkAmount(|Concat(cs)|) <= |cs| <= |Concat(cs)|
  {
    ChunkedLength(cs);
  }

  /** Full chunks: `n` of them carry `1024 * n` bytes. */
  lemma {:induction false} FullChunksLength(cs: seq<seq<Byte>>)
    requires forall i :: 0 <= i < |cs| ==> |cs[i]| == ChunkSize
    ensures |Concat(cs)| == 1024 * |cs|
  {
    if cs != [] {
      FullChunksLength(cs[..|cs| - 1]);
    }
  }

  /**
   * When every read but the last fills the buffer, the number of data writes
   * is exactly the chunk amount of the bytes they carry.
   */
  lemma FullChunksMatchAmount(cs: seq<seq<Byte>>)
    requires AreChunks(cs)
    requires forall i :: 0 <= i < |cs| - 1 ==> |cs[i]| == ChunkSize
    ensures |cs| == ChunkAmount(|Concat(cs)|)
  {
    if cs != [] {
      var init := cs[..|cs| - 1];
      FullChunksLength(init);
      assert IsChunk(cs[|cs| - 1]);
    }
  }

  /** What a client that read the whole connection learns: the announced chunk amount and the file bytes. */
  datatype Download = Download(chunkAmount: nat, contents: seq<Byte>)

  /** The client side of the success wire format: eight header bytes, then the file. */
  function ParseDownload(wire: seq<Byte>): (d: Option<Download>)
    ensures d.Some? <==> |wire| >= 8
    ensures d.Some? ==> |d.value.contents| == |wire| - 8 && d.value.chunkAmount < 0x1_0000_0000_0000_0000
  {
    if |wire| < 8 then None else Some(Download(FromBigEndian(wire[..8]), wire[8..]))
  }

  /** A header for `data` followed by `data` parses back to the chunk amount and `data`. */
  lemma DownloadRoundTrip(data: seq<Byte>)
    requires |data| < 0x1_0000_0000_0000_0000
    ensures ParseDownload(ToBeBytes(ChunkAmount(|data|)) + data) == Some(Download(ChunkAmount(|data|), data))
  {
    var header := ToBeBytes(ChunkAmount(|data|));
    assert (header + data)[..8] == header;
    assert (header + data)[8..] == data;
  }
}
