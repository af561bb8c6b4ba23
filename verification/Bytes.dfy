/** Bytes, 32-bit integers and network byte order. */
module Bytes {

  type byte = x: int | 0 <= x < 256

  type int32 = x: int | -0x8000_0000 <= x < 0x8000_0000

  const INT_MAX := 0x7FFF_FFFF

  /** The four bytes that htonl followed by memcpy stores: two's complement, most significant byte first. */
  function NetInt(v: int32): (bs: seq<byte>)
    ensures |bs| == 4
  {
    var u := if v < 0 then v + 0x1_0000_0000 else v;
    [u / 0x100_0000, u / 0x1_0000 % 0x100, u / 0x100 % 0x100, u % 0x100]
  }

  function Unsigned(b3: int, b2: int, b1: int, b0: int): int {
    b3 * 0x100_0000 + b2 * 0x1_0000 + b1 * 0x100 + b0
  }

  /** getInt32FromNetByte on the bytes at index k. */
  function IntAt(s: seq<byte>, k: nat): (v: int32)
    requires k + 4 <= |s|
  {
    var u := Unsigned(s[k], s[k + 1], s[k + 2], s[k + 3]);
    if u >= 0x8000_0000 then u - 0x1_0000_0000 else u
  }

  /** Reading back a stored integer gives it again, negative values included. */
  lemma NetIntRoundTrip(v: int32)
    ensures IntAt(NetInt(v), 0) == v
  {
    var u := if v < 0 then v + 0x1_0000_0000 else v;
    DigitsUnsigned(u);
    assert NetInt(v) == [u / 0x100_0000, u / 0x1_0000 % 0x100, u / 0x100 % 0x100, u % 0x100];
    hide Unsigned, NetInt;
  }

  /** The four bytes are the integer's digits to the base 256, the most significant first. */
  lemma BigEndian(v: int32)
    ensures var a: int, b: int, c: int, d: int := NetInt(v)[0], NetInt(v)[1], NetInt(v)[2], NetInt(v)[3];
            ((a * 256 + b) * 256 + c) * 256 + d == if v < 0 then v + 4294967296 else v
  {
    DigitsUnsigned(if v < 0 then v + 0x1_0000_0000 else v);
  }

  lemma DigitsUnsigned(u: int)
    requires 0 <= u < 0x1_0000_0000
    ensures Unsigned(u / 0x100_0000, u / 0x1_0000 % 0x100, u / 0x100 % 0x100, u % 0x100) == u
  {
    assert u / 0x1_0000 == u / 0x100_0000 * 0x100 + u / 0x1_0000 % 0x100;
    assert u / 0x100 == u / 0x1_0000 * 0x100 + u / 0x100 % 0x100;
  }

  lemma UnsignedDigits(b3: int, b2: int, b1: int, b0: int)
    requires 0 <= b3 < 256 && 0 <= b2 < 256 && 0 <= b1 < 256 && 0 <= b0 < 256
    ensures var u := Unsigned(b3, b2, b1, b0);
            u / 0x100_0000 == b3 && u / 0x1_0000 % 0x100 == b2 && u / 0x100 % 0x100 == b1 && u % 0x100 == b0
  {
    var u := Unsigned(b3, b2, b1, b0);
    assert u / 0x100 == b3 * 0x1_0000 + b2 * 0x100 + b1;
    assert u / 0x1_0000 == b3 * 0x100 + b2;
  }

  /** Storing a read integer restores the four bytes, so the byte form of an integer is unique. */
  lemma IntAtRoundTrip(s: seq<byte>, k: nat)
    requires k + 4 <= |s|
    ensures NetInt(IntAt(s, k)) == s[k..k + 4]
  {
    UnsignedDigits(s[k], s[k + 1], s[k + 2], s[k + 3]);
  }

  /** An integer stored in the middle of a byte string is read back from there. */
  lemma IntAtInside(pre: seq<byte>, v: int32, post: seq<byte>)
    ensures IntAt(pre + NetInt(v) + post, |pre|) == v
  {
    NetIntRoundTrip(v);
    var s := pre + NetInt(v) + post;
    assert s[|pre|..|pre| + 4] == NetInt(v);
    assert s[|pre|] == NetInt(v)[0] && s[|pre| + 1] == NetInt(v)[1];
    assert s[|pre| + 2] == NetInt(v)[2] && s[|pre| + 3] == NetInt(v)[3];
  }

  function Min(a: int, b: int): int {
    if a < b then a else b
  }

  function Max(a: int, b: int): int {
    if a < b then b else a
  }

  lemma Assoc<T>(a: seq<T>, b: seq<T>, c: seq<T>)
    ensures a + (b + c) == (a + b) + c
  {
  }

  function Zeros(n: nat): (s: seq<byte>)
    ensures |s| == n && forall k :: 0 <= k < n ==> s[k] == 0
  {
    seq(n, _ => 0)
  }
}
