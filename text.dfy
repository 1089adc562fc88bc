/**
 * The text the server handles: decimal rendering of sizes (`{}` in
 * `format!`), UTF-8 encoding of messages (`str::as_bytes`), and decoding of
 * the request into a file name (`String::from_utf8_lossy`).
 */
module Text {
  import opened Bytes

  /** True when every character is an ASCII decimal digit. */
  predicate IsDigits(s: string) {
    forall i :: 0 <= i < |s| ==> '0' <= s[i] <= '9'
  }

  /** The number a string of decimal digits denotes. */
  function DecimalValue(s: string): nat
    requires IsDigits(s)
  {
    if s == [] then 0 else DecimalValue(s[..|s| - 1]) * 10 + (s[|s| - 1] as int - '0' as int)
  }

  /**
   * `format!("{}", n)` for an unsigned integer: a non-empty string of digits
   * without a leading zero whose decimal value is `n`.
   */
  function Decimal(n: nat): (s: string)
    ensures |s| >= 1 && IsDigits(s)
    ensures DecimalValue(s) == n
    ensures s[0] == '0' ==> s == "0"
  {
    if n < 10 then [(48 + n) as char]
    else
      var init := Decimal(n / 10);
      var s := init + [(48 + n % 10) as char];
      assert s[..|s| - 1] == init;
      s
  }

  /** The UTF-8 encoding of one Unicode scalar value. */
  function EncodeChar(c: char): (r: seq<Byte>)
    ensures 1 <= |r| <= 4
    ensures |r| == 1 <==> c as int < 0x80
    ensures |r| == 1 ==> r[0] == c as int
  {
    var x := c as int;
    if x < 0x80 then [x]
    else if x < 0x800 then [0xC0 + x / 0x40, 0x80 + x % 0x40]
    else if x < 0x1_0000 then [0xE0 + x / 0x1000, 0x80 + (x / 0x40) % 0x40, 0x80 + x % 0x40]
    else [0xF0 + x / 0x4_0000, 0x80 + (x / 0x1000) % 0x40, 0x80 + (x / 0x40) % 0x40, 0x80 + x % 0x40]
  }

  /** The bytes `f` gives each element of `s`, in order. */
  function FlatMap<T>(f: T -> seq<Byte>, s: seq<T>): seq<Byte> {
    if s == [] then [] else FlatMap(f, s[..|s| - 1]) + f(s[|s| - 1])
  }

  /** Mapping distributes over concatenation, whatever the per-element encoding. */
  lemma {:induction false} FlatMapAppend<T>(f: T -> seq<Byte>, a: seq<T>, b: seq<T>)
    ensures FlatMap(f, a + b) == FlatMap(f, a) + FlatMap(f, b)
  {
    if b == [] {
      assert a + b == a;
    } else {
      var init := b[..|b| - 1];
      assert (a + b)[..|a + b| - 1] == a + init;
      assert (a + b)[|a + b| - 1] == b[|b| - 1];
      FlatMapAppend(f, a, init);
    }
  }

  /** `s.as_bytes()`: the UTF-8 encoding of a string, character by character. */
  function Utf8(s: string): seq<Byte> {
    FlatMap(EncodeChar, s)
  }

  /** Encoding distributes over concatenation. */
  lemma Utf8Append(a: string, b: string)
    ensures Utf8(a + b) == Utf8(a) + Utf8(b)
  {
    FlatMapAppend(EncodeChar, a, b);
  }

  /** True when every byte is below 0x80. */
  predicate IsAscii(b: seq<Byte>) {
    forall i :: 0 <= i < |b| ==> b[i] < 0x80
  }

  /** U+FFFD REPLACEMENT CHARACTER, which lossy decoding puts in place of bytes it cannot decode. */
  const Replacement: char := '\U{FFFD}'

  /**
   * The file name decoded from the request bytes: an ASCII byte stands for
   * itself and every other byte becomes U+FFFD. For ASCII requests this is
   * exactly `String::from_utf8_lossy`.
   */
  function DecodeLossy(b: seq<Byte>): (s: string)
    ensures |s| == |b|
    ensures forall i :: 0 <= i < |b| ==> (s[i] as int < 0x80 <==> b[i] < 0x80)
  {
    seq(|b|, i requires 0 <= i < |b| => if b[i] < 0x80 then b[i] as char else Replacement)
  }

  /** An ASCII request decodes to a name whose UTF-8 encoding is the request itself. */
  lemma {:induction false} AsciiRoundTrip(b: seq<Byte>)
    requires IsAscii(b)
    ensures Utf8(DecodeLossy(b)) == b
  {
    if b != [] {
      var s := DecodeLossy(b);
      var init := b[..|b| - 1];
      assert s[..|s| - 1] == DecodeLossy(init);
      AsciiRoundTrip(init);
      assert b == init + [b[|b| - 1]];
    }
  }

  /** True when the byte string holds a `/` (0x2F). */
  predicate HasSlashByte(b: seq<Byte>) {
    exists i :: 0 <= i < |b| && b[i] == 0x2F
  }

  /** True when the byte string holds two adjacent `.` bytes (0x2E 0x2E). */
  predicate HasDotDotBytes(b: seq<Byte>) {
    exists i :: 0 <= i < |b| - 1 && b[i] == 0x2E && b[i + 1] == 0x2E
  }

  /** `s.contains("..")`. */
  predicate ContainsDotDot(s: string) {
    exists i :: 0 <= i < |s| - 1 && s[i] == '.' && s[i + 1] == '.'
  }

  /** The decoded name contains `/` exactly when the request bytes contain 0x2F. */
  lemma DecodeKeepsSlash(b: seq<Byte>)
    ensures '/' in DecodeLossy(b) <==> HasSlashByte(b)
  {
    var s := DecodeLossy(b);
    if '/' in s {
      var i :| 0 <= i < |s| && s[i] == '/';
      assert b[i] == 0x2F;
    }
    if HasSlashByte(b) {
      var i :| 0 <= i < |b| && b[i] == 0x2F;
      assert s[i] == '/';
    }
  }

  /** The decoded name contains `..` exactly when the request bytes contain 0x2E 0x2E. */
  lemma DecodeKeepsDotDot(b: seq<Byte>)
    ensures ContainsDotDot(DecodeLossy(b)) <==> HasDotDotBytes(b)
  {
    var s := DecodeLossy(b);
    if ContainsDotDot(s) {
      var i :| 0 <= i < |s| - 1 && s[i] == '.' && s[i + 1] == '.';
      assert b[i] == 0x2E && b[i + 1] == 0x2E;
    }
    if HasDotDotBytes(b) {
      var i :| 0 <= i < |b| - 1 && b[i] == 0x2E && b[i + 1] == 0x2E;
      assert s[i] == '.' && s[i + 1] == '.';
    }
  }
}
