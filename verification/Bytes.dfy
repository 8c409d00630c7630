/** Machine integers and their big-endian byte forms (utils.go). */
module Bytes {

  type byte = x: int | 0 <= x < 0x100
  type u16 = x: int | 0 <= x < 0x1_0000
  type u32 = x: int | 0 <= x < 0x1_0000_0000

  datatype Option<+T> = None | Some(value: T)

  function ByteToUint16(b: seq<byte>): u16
    requires |b| >= 2
  {
    0x100 * (b[0] as int) + b[1]
  }

  function ByteToUint32(b: seq<byte>): u32
    requires |b| >= 4
  {
    0x1_0000 * (ByteToUint16(b) as int) + ByteToUint16(b[2..])
  }

  function Uint16ToByte(i: u16): (b: seq<byte>)
    ensures |b| == 2 && ByteToUint16(b) == i
  {
    [i / 0x100, i % 0x100]
  }

  function Uint32ToByte(i: u32): (b: seq<byte>)
    ensures |b| == 4 && ByteToUint32(b) == i
  {
    var high, low := Uint16ToByte(i / 0x1_0000), Uint16ToByte(i % 0x1_0000);
    assert (high + low)[2..] == low;
    high + low
  }

  /** The big-endian word on the wire at an offset (appendix B of RFC 791). */
  function WordAt(p: seq<byte>, at: nat): int
    requires at + 2 <= |p|
  {
    0x100 * (p[at] as int) + p[at + 1]
  }

  /** Reading two bytes and writing the word back gives the same bytes. */
  lemma Word16RoundTrip(b: seq<byte>)
    requires |b| >= 2
    ensures Uint16ToByte(ByteToUint16(b)) == b[..2]
  {
    assert ByteToUint16(b) / 0x100 == b[0];
  }

  lemma Word32RoundTrip(b: seq<byte>)
    requires |b| >= 4
    ensures Uint32ToByte(ByteToUint32(b)) == b[..4]
  {
    var i, high, low := ByteToUint32(b), ByteToUint16(b), ByteToUint16(b[2..]);
    assert i / 0x1_0000 == high && i % 0x1_0000 == low;
    Word16RoundTrip(b);
    Word16RoundTrip(b[2..]);
    assert b[..4] == b[..2] + b[2..][..2];
  }

  lemma ConcatSlices(a: seq<byte>, b: seq<byte>, c: seq<byte>)
    ensures (a + b + c)[..|a|] == a
    ensures (a + b + c)[|a|..|a| + |b|] == b
    ensures (a + b + c)[|a| + |b|..] == c
  {
  }
}
