/** The IPv4 header (ip.go): parsing, serialising, and its checksum. */
module IpHeaders {
  import opened Bytes
  import opened Checksum

  datatype Header = Header(
    version: byte, headerLen: byte, tos: byte, totalLen: u16, identity: u16, flagOffset: u16,
    ttl: byte, protocol: byte, headerChecksum: u16, srcAddr: u32, destAddr: u32)

  /** The parse at the start of ipInput. */
  function ParseHeader(packet: seq<byte>): (h: Header)
    requires |packet| >= 20
    ensures h.version < 0x10 && h.headerLen < 0x10
  {
    Header(packet[0] / 0x10, packet[0] % 0x10, packet[1],
           ByteToUint16(packet[2..4]), ByteToUint16(packet[4..6]), ByteToUint16(packet[6..8]),
           packet[8], packet[9], ByteToUint16(packet[10..12]),
           ByteToUint32(packet[12..16]), ByteToUint32(packet[16..20]))
  }

  /** Everything before the checksum field. */
  function Front(h: Header): (b: seq<byte>)
    ensures |b| == 10
  {
    [(h.version as int * 0x10 + h.headerLen) % 0x100, h.tos]
    + Uint16ToByte(h.totalLen) + Uint16ToByte(h.identity) + Uint16ToByte(h.flagOffset)
    + [h.ttl, h.protocol]
  }

  /** Everything after the checksum field. */
  function Back(h: Header): (b: seq<byte>)
    ensures |b| == 8
  {
    Uint32ToByte(h.srcAddr) + Uint32ToByte(h.destAddr)
  }

  function HeaderBytes(h: Header): (b: seq<byte>)
    ensures |b| == 20
  {
    Front(h) + Uint16ToByte(h.headerChecksum) + Back(h)
  }

  /** The checksum that ToPacket(true) writes. */
  function HeaderChecksum(h: Header): u16 {
    Fold(WordSum(HeaderBytes(h.(headerChecksum := 0))))
  }

  function Stamped(h: Header): Header {
    h.(headerChecksum := HeaderChecksum(h))
  }

  /** The mutable header that ipInput passes by pointer. */
  class IpHeader {
    var version: byte
    var headerLen: byte
    var tos: byte
    var totalLen: u16
    var identity: u16
    var flagOffset: u16
    var ttl: byte
    var protocol: byte
    var headerChecksum: u16
    var srcAddr: u32
    var destAddr: u32

    constructor (h: Header)
      ensures Value() == h
    {
      version, headerLen, tos := h.version, h.headerLen, h.tos;
      totalLen, identity, flagOffset := h.totalLen, h.identity, h.flagOffset;
      ttl, protocol, headerChecksum := h.ttl, h.protocol, h.headerChecksum;
      srcAddr, destAddr := h.srcAddr, h.destAddr;
    }

    function Value(): Header
      reads this
    {
      Header(version, headerLen, tos, totalLen, identity, flagOffset,
             ttl, protocol, headerChecksum, srcAddr, destAddr)
    }

    /** Writes the fields one after the other (ip.go:51-62). */
    method Write() returns (b: seq<byte>)
      ensures b == HeaderBytes(Value())
    {
      b := [(version as int * 0x10 + headerLen) % 0x100];
      b := b + [tos];
      b := b + Uint16ToByte(totalLen);
      b := b + Uint16ToByte(identity);
      b := b + Uint16ToByte(flagOffset);
      b := b + [ttl];
      b := b + [protocol];
      b := b + Uint16ToByte(headerChecksum);
      b := b + Uint32ToByte(srcAddr);
      b := b + Uint32ToByte(destAddr);
    }

    /** ip.go: ipHeader.ToPacket. When asked to calculate, the two checksum bytes are zeroed in
        the buffer, the sum of the buffer is folded, and the result goes into buffer and header. */
    method ToPacket(calculate: bool) returns (ipHeaderByte: seq<byte>)
      modifies this`headerChecksum
      ensures Value() == if calculate then Stamped(old(Value())) else old(Value())
      ensures ipHeaderByte == HeaderBytes(Value())
    {
      hide WordSum, Front, Back;
      ipHeaderByte := Write();
      if calculate {
        ipHeaderByte := ipHeaderByte[10 := 0][11 := 0];
        ChecksumField(Value(), 0);
        var sum := SumByteArr(ipHeaderByte);
        var cksum := FoldChecksum(sum.value);
        var w := Uint16ToByte(cksum);
        ipHeaderByte := ipHeaderByte[10 := w[0]][11 := w[1]];
        ChecksumField(Value(), cksum);
        headerChecksum := cksum;
      }
    }
  }

  /** The checksum is bytes 10 and 11 of the header. */
  lemma ChecksumField(h: Header, c: u16)
    ensures HeaderBytes(h.(headerChecksum := c))
         == HeaderBytes(h)[10 := Uint16ToByte(c)[0]][11 := Uint16ToByte(c)[1]]
  {
  }

  /** Parsing the serialised header gives it back exactly when version and header length fit
      in their four bits. */
  lemma HeaderParseBytes(h: Header, rest: seq<byte>)
    ensures ParseHeader(HeaderBytes(h) + rest) == h <==> h.version < 0x10 && h.headerLen < 0x10
  {
    var p := HeaderBytes(h) + rest;
    HeaderFields(h, rest);
    if h.version < 0x10 && h.headerLen < 0x10 {
      assert p[0] / 0x10 == h.version;
    }
  }

  lemma HeaderFields(h: Header, rest: seq<byte>)
    ensures var p := HeaderBytes(h) + rest;
      && p[0] == (h.version as int * 0x10 + h.headerLen) % 0x100 && p[1] == h.tos
      && ByteToUint16(p[2..4]) == h.totalLen && ByteToUint16(p[4..6]) == h.identity
      && ByteToUint16(p[6..8]) == h.flagOffset && p[8] == h.ttl && p[9] == h.protocol
      && ByteToUint16(p[10..12]) == h.headerChecksum
      && ByteToUint32(p[12..16]) == h.srcAddr && ByteToUint32(p[16..20]) == h.destAddr
  {
    var p := HeaderBytes(h) + rest;
    assert p[2..4] == Uint16ToByte(h.totalLen) && p[4..6] == Uint16ToByte(h.identity);
    assert p[6..8] == Uint16ToByte(h.flagOffset) && p[10..12] == Uint16ToByte(h.headerChecksum);
    assert p[12..16] == Uint32ToByte(h.srcAddr) && p[16..20] == Uint32ToByte(h.destAddr);
  }

  /** Serialising a parsed header gives its twenty bytes back. */
  lemma HeaderRoundTrip(packet: seq<byte>)
    requires |packet| >= 20
    ensures HeaderBytes(ParseHeader(packet)) == packet[..20]
  {
    Word16RoundTrip(packet[2..4]);
    Word16RoundTrip(packet[4..6]);
    Word16RoundTrip(packet[6..8]);
    Word16RoundTrip(packet[10..12]);
    Word32RoundTrip(packet[12..16]);
    Word32RoundTrip(packet[16..20]);
    assert (packet[0] / 0x10) as int * 0x10 + packet[0] % 0x10 == packet[0];
    assert packet[..20] == [packet[0], packet[1]] + packet[2..4] + packet[4..6] + packet[6..8]
                         + [packet[8], packet[9]] + packet[10..12] + packet[12..16] + packet[16..20];
  }

  /** Every header that ToPacket(true) writes verifies at the receiver. */
  lemma StampedVerifies(h: Header)
    ensures Verifies(WordSum(HeaderBytes(Stamped(h))))
  {
    WrittenChecksumVerifies(0, Front(h), Back(h));
    assert Front(h) == Front(Stamped(h)) == Front(h.(headerChecksum := 0));
  }

  /** The word holding TTL and protocol. */
  function TtlWord(h: Header): u16 {
    0x100 * (h.ttl as int) + h.protocol
  }

  lemma HeaderSum(h: Header)
    ensures WordSum(HeaderBytes(h)) ==
      WordSum(Front(h)[..8]) + TtlWord(h) + h.headerChecksum + WordSum(Back(h))
  {
    WordSumSplice(Front(h), h.headerChecksum, Back(h));
    WordSumConcat(Front(h)[..8], [h.ttl, h.protocol]);
    assert Front(h) == Front(h)[..8] + [h.ttl, h.protocol];
    assert [h.ttl, h.protocol][2..] == [];
  }

  /** Equation 3, section 3 of RFC 1624: for a header that arrived valid, the checksum
      recomputed after the TTL decrement is bit for bit the incremental update. */
  lemma TtlDecrementIsIncremental(h: Header)
    requires h.ttl >= 1 && h.headerLen >= 1 && h.version < 0x10 && h.headerLen < 0x10
    requires Verifies(WordSum(HeaderBytes(h)))
    ensures var h' := h.(ttl := h.ttl - 1);
      HeaderChecksum(h') == Fold((0xffff - h.headerChecksum) + (0xffff - TtlWord(h)) + TtlWord(h'))
  {
    hide WordSum, Front, Back, HeaderBytes;
    var h' := h.(ttl := h.ttl - 1);
    var zeroed := h'.(headerChecksum := 0);
    HeaderSum(h);
    HeaderSum(zeroed);
    OtherWords(h, zeroed);
    var rest := WordSum(Front(h)[..8]) + WordSum(Back(h));
    IncrementalUpdate(rest, h.headerChecksum, TtlWord(h), TtlWord(h'));
  }

  /** The words that a TTL decrement leaves alone, and that are not all zero. */
  lemma OtherWords(h: Header, h': Header)
    requires h' == h.(ttl := h'.ttl, headerChecksum := h'.headerChecksum)
    requires h.headerLen >= 1 && h.version < 0x10 && h.headerLen < 0x10
    ensures Front(h)[..8] == Front(h')[..8] && Back(h) == Back(h')
    ensures WordSum(Front(h)[..8]) > 0
  {
    assert Front(h)[0] == h.version as int * 0x10 + h.headerLen;
  }
}
