/**
 * Octets, the `u64` the server puts on the wire, and its 8-byte big-endian
 * encoding (`u64::to_be_bytes`).
 */
module Bytes {

  /** One octet of a request, a file or a response. */
  type Byte = b: int | 0 <= b < 256

  /** Rust's `u64`: file sizes and the chunk-count header. */
  type U64 = n: int | 0 <= n < 0x1_0000_0000_0000_0000

  /** 256 to the power `n`: the number of values `n` bytes can hold. */
  function Pow256(n: nat): (p: nat)
    ensures p >= 1
  {
    if n == 0 then 1 else 256 * Pow256(n - 1)
  }

  /** The `n` low-order bytes of `x`, most significant first. */
  function BigEndian(x: nat, n: nat): (r: seq<Byte>)
    ensures |r| == n
  {
    if n == 0 then [] else BigEndian(x / 256, n - 1) + [x % 256]
  }

  /** The unsigned integer that `s` denotes when read most significant byte first. */
  function FromBigEndian(s: seq<Byte>): (v: nat)
    ensures v < Pow256(|s|)
  {
    if s == [] then 0 else FromBigEndian(s[..|s| - 1]) * 256 + s[|s| - 1]
  }

  /** Decoding the `n`-byte big-endian form of a value that fits in `n` bytes gives it back. */
  lemma {:induction false} FromBigEndianOfBigEndian(x: nat, n: nat)
    requires x < Pow256(n)
    ensures FromBigEndian(BigEndian(x, n)) == x
  {
    if n > 0 {
      var q, r := x / 256, x % 256;
      assert x == q * 256 + r;
      assert q < Pow256(n - 1) by {
        assert Pow256(n) == 256 * Pow256(n - 1);
      }
      var s := BigEndian(x, n);
      assert s == BigEndian(q, n - 1) + [r];
      assert s[..n - 1] == BigEndian(q, n - 1);
      FromBigEndianOfBigEndian(q, n - 1);
      assert FromBigEndian(s) == FromBigEndian(BigEndian(q, n - 1)) * 256 + r;
    }
  }

  /** Encoding the value of a byte string in as many bytes gives the byte string back. */
  lemma {:induction false} BigEndianOfFromBigEndian(s: seq<Byte>)
    ensures BigEndian(FromBigEndian(s), |s|) == s
  {
    if s != [] {
      var init := s[..|s| - 1];
      var v := FromBigEndian(s);
      assert v / 256 == FromBigEndian(init);
      assert v % 256 == s[|s| - 1];
      BigEndianOfFromBigEndian(init);
      assert s == init + [s[|s| - 1]];
    }
  }

  /** `x.to_be_bytes()`: exactly eight bytes, which read back big-endian as `x`. */
  function ToBeBytes(x: U64): (r: seq<Byte>)
    ensures |r| == 8
    ensures FromBigEndian(r) == x
  {
    assert Pow256(8) == 0x1_0000_0000_0000_0000;
    FromBigEndianOfBigEndian(x, 8);
    BigEndian(x, 8)
  }

  /** Every eight-byte string is the encoding of exactly one `u64`: the header encoding is a bijection. */
  lemma ToBeBytesOnto(s: seq<Byte>)
    requires |s| == 8
    ensures FromBigEndian(s) < 0x1_0000_0000_0000_0000
    ensures ToBeBytes(FromBigEndian(s)) == s
  {
    assert Pow256(8) == 0x1_0000_0000_0000_0000;
    BigEndianOfFromBigEndian(s);
  }
}
