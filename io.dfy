/**
 * The two objects the server mutates: the TCP connection (`TcpStream`) and
 * the buffered file (`BufReader<File>`). Failures come from oracles fixed
 * when the object is created; how many bytes a read returns is left open.
 */
module Io {
  import opened Wrappers
  import opened Bytes
  import opened Environment

  /** An accepted connection: unread inbound bytes and the record of every `write_all`. */
  class Stream {
    /** Bytes the peer has sent that have not been read yet. */
    var inbound: seq<Byte>
    /** The error every read reports, if any. */
    const readError: Option<string>
    /** Positions in `writes` whose `write_all` reports an error. */
    const failingWrites: set<nat>
    /** Every `write_all` call, in order, zero-length ones included. */
    var writes: seq<seq<Byte>>

    /** The stream `accept` hands over for `peer`: nothing read, nothing written. */
    constructor Accept(peer: Peer)
      ensures inbound == peer.inbound && readError == peer.readError
      ensures failingWrites == peer.failingWrites && writes == []
    {
      inbound := peer.inbound;
      readError := peer.readError;
      failingWrites := peer.failingWrites;
      writes := [];
    }

    /**
     * `stream.read(buf)`: the error, or some of the pending bytes copied to
     * the front of `buf`; zero bytes only when the peer has sent nothing
     * more (or `buf` is empty).
     */
    method Read(buf: array<Byte>) returns (r: Result<nat, string>)
      modifies this`inbound, buf
      ensures readError.Some? ==>
        r == Failure(readError.value) && inbound == old(inbound) && buf[..] == old(buf[..])
      ensures readError.None? ==> r.Success? && r.value <= buf.Length && r.value <= |old(inbound)|
      ensures readError.None? ==> (r.value == 0 <==> buf.Length == 0 || old(inbound) == [])
      ensures readError.None? ==>
        buf[..r.value] == old(inbound)[..r.value] && inbound == old(inbound)[r.value..]
      ensures readError.None? ==> buf[r.value..] == old(buf[r.value..])
    {
      if readError.Some? {
        return Failure(readError.value);
      }
      var pending := inbound;
      var most := if buf.Length < |pending| then buf.Length else |pending|;
      var n: nat :| n <= most && (n == 0 <==> most == 0);
      forall i | 0 <= i < n {
        buf[i] := pending[i];
      }
      inbound := pending[n..];
      r := Success(n);
      assert buf[..n] == pending[..n];
    }

    /** `stream.write_all(bytes)`: recorded in `writes`; reports whether it succeeded. */
    method WriteAll(bytes: seq<Byte>) returns (ok: bool)
      modifies this`writes
      ensures writes == old(writes) + [bytes]
      ensures ok <==> |old(writes)| !in failingWrites
    {
      ok := |writes| !in failingWrites;
      writes := writes + [bytes];
    }
  }

  /** Appending to a write log in two steps is appending the two parts at once. */
  lemma AppendWrites(log: seq<seq<Byte>>, first: seq<seq<Byte>>, second: seq<seq<Byte>>)
    ensures (log + first) + second == log + (first + second)
  {
  }

  /** An opened file behind a `BufReader`: its bytes, the read cursor, and the number of reads made. */
  class FileReader {
    /** The file as it was opened. */
    const entry: FileEntry
    /** How many bytes have been read. */
    var pos: nat
    /** How many read calls have been made. */
    var readCalls: nat

    ghost predicate Valid()
      reads this
    {
      pos <= |entry.data|
    }

    /** `BufReader::new(File::open(path))` on an existing file: cursor at the start. */
    constructor Open(e: FileEntry)
      ensures Valid() && entry == e && pos == 0 && readCalls == 0
    {
      entry := e;
      pos := 0;
      readCalls := 0;
    }

    /** `metadata().len()`: the file size, or nothing when the lookup fails. */
    function Metadata(): (r: Option<U64>)
      ensures r.Some? <==> entry.metadataOk
      ensures r.Some? ==> r.value == |entry.data|
    {
      if entry.metadataOk then Some(|entry.data|) else None
    }

    /**
     * `file.read(buf)`: an I/O error, or between one and `min(buf.Length,
     * remaining)` bytes of the file copied to the front of `buf` with the
     * cursor moved past them; zero only at end of file (or for an empty `buf`).
     */
    method Read(buf: array<Byte>) returns (r: Option<nat>)
      requires Valid()
      modifies this, buf
      ensures Valid() && readCalls == old(readCalls) + 1
      ensures old(readCalls) in entry.failingReads ==> r.None? && pos == old(pos) && buf[..] == old(buf[..])
      ensures old(readCalls) !in entry.failingReads ==>
        && r.Some? && r.value <= buf.Length && pos == old(pos) + r.value
        && (r.value == 0 <==> buf.Length == 0 || old(pos) == |entry.data|)
        && buf[..r.value] == entry.data[old(pos)..pos]
        && buf[r.value..] == old(buf[r.value..])
    {
      readCalls := readCalls + 1;
      if readCalls - 1 in entry.failingReads {
        return None;
      }
      var remaining := |entry.data| - pos;
      var most := if buf.Length < remaining then buf.Length else remaining;
      var n: nat :| n <= most && (n == 0 <==> most == 0);
      forall i | 0 <= i < n {
        buf[i] := entry.data[pos + i];
      }
      pos := pos + n;
      return Some(n);
    }
  }
}
