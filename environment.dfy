/**
 * What the server runs against: the files of the served folder and the
 * clients that connect, each with the failures it will cause fixed in
 * advance.
 */
module Environment {
  import opened Wrappers
  import opened Bytes

  /** File contents: `metadata().len()` is a `u64`, so a file holds fewer than 2^64 bytes. */
  type FileData = s: seq<Byte> | |s| < 0x1_0000_0000_0000_0000

  /**
   * A file in the served folder as the server sees it: its bytes, whether
   * `metadata()` succeeds on it, and which read calls (counted from zero)
   * report an I/O error.
   */
  datatype FileEntry = FileEntry(data: FileData, metadataOk: bool, failingReads: set<nat>)

  /**
   * A connecting client: the bytes it sends before closing, the error the
   * request read reports (if any), and which writes (counted from zero) fail.
   */
  datatype Peer = Peer(inbound: seq<Byte>, readError: Option<string>, failingWrites: set<nat>)
}
