/** Raw page bytes and the little-endian 32-bit integers that the storage code copies in and out of them. */
module Bytes {

  const PAGE_SIZE := 4096

  type Byte = b: int | 0 <= b < 256

  type PageBytes = s: seq<Byte> | |s| == PAGE_SIZE witness seq(PAGE_SIZE, i => 0)

  function ZeroPage(): (z: PageBytes)
    ensures forall i :: 0 <= i < PAGE_SIZE ==> z[i] == 0
  {
    seq(PAGE_SIZE, i => 0)
  }

  const INT_MIN := -0x8000_0000
  const INT_MAX := 0x7fff_ffff

  type Int32 = v: int | INT_MIN <= v <= INT_MAX

  /** The value a 64-bit integer keeps when it is cast to a 32-bit one. */
  function Wrap32(v: int): (r: Int32)
    ensures (v - r) % 0x1_0000_0000 == 0
    ensures INT_MIN <= v <= INT_MAX ==> r == v
  {
    (v - INT_MIN) % 0x1_0000_0000 + INT_MIN
  }

  /** The four bytes of `v`, least significant first. */
  function IntBytes(v: Int32): (s: seq<Byte>)
    ensures |s| == 4
  {
    var u := if v < 0 then v + 0x1_0000_0000 else v;
    [u % 256, u / 256 % 256, u / 0x1_0000 % 256, u / 0x100_0000 % 256]
  }

  function BytesInt(b0: Byte, b1: Byte, b2: Byte, b3: Byte): (v: Int32) {
    var u := b0 + b1 * 256 + b2 * 0x1_0000 + b3 * 0x100_0000;
    if u > INT_MAX then u - 0x1_0000_0000 else u
  }

  /** Reading an `int` at a byte offset. */
  function ReadInt(s: seq<Byte>, offset: nat): (v: Int32)
    requires offset + 4 <= |s|
  {
    BytesInt(s[offset], s[offset + 1], s[offset + 2], s[offset + 3])
  }

  /** `memcpy` of `bytes` to the given offset. */
  function Splice(s: seq<Byte>, offset: nat, bytes: seq<Byte>): (r: seq<Byte>)
    requires offset + |bytes| <= |s|
    ensures |r| == |s|
    ensures forall i {:trigger r[i]} :: 0 <= i < |s| ==>
      r[i] == if offset <= i < offset + |bytes| then bytes[i - offset] else s[i]
  {
    s[..offset] + bytes + s[offset + |bytes|..]
  }

  /** Four bytes are read as a two's complement number, the least significant byte first. */
  lemma LittleEndian(s: seq<Byte>, offset: nat)
    requires offset + 4 <= |s|
    ensures -2147483648 <= ReadInt(s, offset) <= 2147483647
    ensures var b0: int, b1: int, b2: int, b3: int := s[offset], s[offset + 1], s[offset + 2], s[offset + 3];
            var u := b0 + 256 * b1 + 65536 * b2 + 16777216 * b3;
            ReadInt(s, offset) == if s[offset + 3] < 128 then u else u - 4294967296
  {
  }

  lemma IntRoundTrip(v: Int32)
    ensures var s := IntBytes(v); BytesInt(s[0], s[1], s[2], s[3]) == v
  {
    var u := if v < 0 then v + 0x1_0000_0000 else v;
    assert u / 0x1_0000 == u / 256 / 256;
    assert u / 0x100_0000 == u / 0x1_0000 / 256;
    assert u / 0x100_0000 < 256;
  }

  lemma ReadWhole(v: Int32)
    ensures ReadInt(IntBytes(v), 0) == v
  {
    IntRoundTrip(v);
  }

  /** What was stored at an offset is what is read there. */
  lemma ReadBack(s: seq<Byte>, offset: nat, v: Int32)
    requires offset + 4 <= |s|
    ensures ReadInt(Splice(s, offset, IntBytes(v)), offset) == v
  {
    IntRoundTrip(v);
  }

  /** A copy that stays clear of an `int` leaves it alone. */
  lemma ReadElsewhere(s: seq<Byte>, offset: nat, bytes: seq<Byte>, at: nat)
    requires offset + |bytes| <= |s| && at + 4 <= |s|
    requires at + 4 <= offset || offset + |bytes| <= at
    ensures ReadInt(Splice(s, offset, bytes), at) == ReadInt(s, at)
  {
  }
}
