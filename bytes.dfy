/** Fixed-width integers and the big-endian layouts that Go's encoding/binary gives them.
    Go's uint8/uint16/uint32 are bit-vectors here, so that wrap-around, shifts and masks
    mean exactly what they mean in Go; Go's uint64 is kept as a mathematical integer with
    its bound, because the only uint64 of the protocol (the phone number) is decimal. */
module Bytes {

  type byte = bv8

  const Uint64Limit: int := 0x1_0000_0000_0000_0000

  type uint64 = x: int | 0 <= x < Uint64Limit

  /** A byte read as a number and converted back is the same byte. */
  lemma ByteRoundTrip(b: byte)
    ensures (b as int) as bv8 == b
  {
  }

  /** binary.Write(w, binary.BigEndian, x) for a uint16 */
  function Be16(x: bv16): (r: seq<byte>)
    ensures |r| == 2
  {
    [(x >> 8) as bv8, (x & 0xff) as bv8]
  }

  /** binary.Read(r, binary.BigEndian, &x) for a uint16 stored at s[off..off+2] */
  function ReadBe16(s: seq<byte>, off: nat): bv16
    requires off + 2 <= |s|
  {
    ((s[off] as bv16) << 8) | (s[off + 1] as bv16)
  }

  /** binary.Write(w, binary.BigEndian, x) for a uint32 */
  function Be32(x: bv32): (r: seq<byte>)
    ensures |r| == 4
  {
    [(x >> 24) as bv8, ((x >> 16) & 0xff) as bv8, ((x >> 8) & 0xff) as bv8, (x & 0xff) as bv8]
  }

  /** binary.Read(r, binary.BigEndian, &x) for a uint32 stored at s[off..off+4] */
  function ReadBe32(s: seq<byte>, off: nat): bv32
    requires off + 4 <= |s|
  {
    ((s[off] as bv32) << 24) | ((s[off + 1] as bv32) << 16) | ((s[off + 2] as bv32) << 8) | (s[off + 3] as bv32)
  }

  /** Reading back a big-endian uint16 wherever it sits in a longer buffer gives the value written. */
  lemma ReadBe16Be16(pre: seq<byte>, x: bv16, post: seq<byte>)
    ensures ReadBe16(pre + Be16(x) + post, |pre|) == x
  {
    var s := pre + Be16(x) + post;
    assert s[|pre|] == Be16(x)[0] && s[|pre| + 1] == Be16(x)[1];
  }

  /** Reading back a big-endian uint32 wherever it sits in a longer buffer gives the value written. */
  lemma ReadBe32Be32(pre: seq<byte>, x: bv32, post: seq<byte>)
    ensures ReadBe32(pre + Be32(x) + post, |pre|) == x
  {
    var s := pre + Be32(x) + post;
    assert s[|pre|] == Be32(x)[0] && s[|pre| + 1] == Be32(x)[1];
    assert s[|pre| + 2] == Be32(x)[2] && s[|pre| + 3] == Be32(x)[3];
  }
}
