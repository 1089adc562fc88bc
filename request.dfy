/**
 * Validation of one request inside the accept loop: the size cap, then the
 * traversal checks on the decoded name.
 */
module Request {
  import opened Bytes
  import opened Text

  /** Size of the buffer the request is read into. */
  const RequestBufferSize: nat := 512

  /** Largest request that is served. */
  const MaxRequestSize: nat := 500

  /** What the handler does with a request. */
  datatype Verdict = Reject(message: string) | Serve(name: string)

  /** Fixed beginnings of the three error texts the accept loop formats. */
  const ReadErrorPrefix: string := "Err: Failed to read from tcp stream: "
  const TooLargePrefix: string := "Err: Request size is too large: "
  const InvalidFilePrefix: string := "Invalid file "

  /** The text sent back when reading the request fails. */
  function ReadErrorMessage(error: string): string {
    ReadErrorPrefix + error
  }

  /** The text sent back for an oversized request. */
  function TooLargeMessage(size: nat): string {
    TooLargePrefix + Decimal(size)
  }

  /** The text sent back for a name that tries to leave the served folder. */
  function InvalidFileMessage(name: string): string {
    InvalidFilePrefix + name
  }

  /** `file.contains("/") || file.contains("..")`. */
  predicate IsTraversal(name: string) {
    '/' in name || ContainsDotDot(name)
  }

  /**
   * Decide a request: oversized requests are refused with their size, names
   * with a `/` or a `..` are refused with the name, anything else is served.
   * A served name is never a traversal and comes from a request within the cap.
   */
  function Validate(request: seq<Byte>): (v: Verdict)
    ensures v.Serve? ==> |request| <= MaxRequestSize && !IsTraversal(v.name)
    ensures v.Serve? ==> |v.name| == |request|
  {
    if |request| > MaxRequestSize then Reject(TooLargeMessage(|request|))
    else
      var name := DecodeLossy(request);
      if IsTraversal(name) then Reject(InvalidFileMessage(name)) else Serve(name)
  }

  /**
   * A request is served exactly when it is within the cap and its bytes hold
   * neither 0x2F nor two adjacent 0x2E; the served name is its decoding.
   */
  lemma ServedExactly(request: seq<Byte>)
    ensures Validate(request).Serve? <==>
      |request| <= MaxRequestSize && !HasSlashByte(request) && !HasDotDotBytes(request)
    ensures Validate(request).Serve? ==> Validate(request).name == DecodeLossy(request)
  {
    DecodeKeepsSlash(request);
    DecodeKeepsDotDot(request);
  }

  /**
   * An oversized request is refused with an `Err:` message that ends in the
   * decimal digits of its size.
   */
  lemma OversizedRejected(request: seq<Byte>)
    requires |request| > MaxRequestSize
    ensures Validate(request).Reject?
    ensures var m := Validate(request).message;
      |m| > |TooLargePrefix| && m[..|TooLargePrefix|] == TooLargePrefix &&
      m[..4] == "Err:" &&
      IsDigits(m[|TooLargePrefix|..]) && DecimalValue(m[|TooLargePrefix|..]) == |request|
  {
    var m := Validate(request).message;
    assert m == TooLargePrefix + Decimal(|request|);
    assert m[|TooLargePrefix|..] == Decimal(|request|);
  }

  /**
   * A request within the cap whose bytes hold a `/` or a `..` is refused with
   * `Invalid file <name>`, which has no `Err:` prefix; for an ASCII request
   * the message's bytes are the fixed text followed by the request itself.
   */
  lemma TraversalRejected(request: seq<Byte>)
    requires |request| <= MaxRequestSize
    requires HasSlashByte(request) || HasDotDotBytes(request)
    ensures Validate(request) == Reject(InvalidFileMessage(DecodeLossy(request)))
    ensures Validate(request).message[..4] != "Err:"
    ensures IsAscii(request) ==> Utf8(Validate(request).message) == Utf8(InvalidFilePrefix) + request
  {
    DecodeKeepsSlash(request);
    DecodeKeepsDotDot(request);
    assert Validate(request).message[..4] == "Inva";
    if IsAscii(request) {
      Utf8Append(InvalidFilePrefix, DecodeLossy(request));
      AsciiRoundTrip(request);
    }
  }

  /** An empty request passes both checks and asks for the empty name. */
  lemma EmptyRequestServed()
    ensures Validate([]) == Serve("")
  {
  }
}
