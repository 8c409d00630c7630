/** UDP and TCP headers (Header.go), ICMP echo messages (ICMP.go) and the ARP packet form
    (arp.go): parsing, serialising, and the round trips between the two. */
module Headers {
  import opened Bytes
  import opened Checksum

  // ---------- UDP ----------

  datatype UdpHeader = UdpHeader(srcPort: u16, destPort: u16, segmentLen: u16, checkSum: u16)

  /** Header.go: udpHeader.ParsePacket; a short packet gives the zero header. */
  function ParseUdp(packet: seq<byte>): UdpHeader {
    if |packet| < 8 then UdpHeader(0, 0, 0, 0)
    else UdpHeader(ByteToUint16(packet[0..2]), ByteToUint16(packet[2..4]),
                   ByteToUint16(packet[4..6]), ByteToUint16(packet[6..8]))
  }

  function UdpBytes(h: UdpHeader): (b: seq<byte>)
    ensures |b| == 8
  {
    Uint16ToByte(h.srcPort) + Uint16ToByte(h.destPort)
    + Uint16ToByte(h.segmentLen) + Uint16ToByte(h.checkSum)
  }

  lemma UdpRoundTrip(packet: seq<byte>)
    requires |packet| >= 8
    ensures UdpBytes(ParseUdp(packet)) == packet[..8]
    ensures var h := ParseUdp(packet);
      && h.srcPort == WordAt(packet, 0) && h.destPort == WordAt(packet, 2)
      && h.segmentLen == WordAt(packet, 4) && h.checkSum == WordAt(packet, 6)
  {
    Word16RoundTrip(packet[0..2]);
    Word16RoundTrip(packet[2..4]);
    Word16RoundTrip(packet[4..6]);
    Word16RoundTrip(packet[6..8]);
  }

  lemma UdpParseBytes(h: UdpHeader, data: seq<byte>)
    ensures ParseUdp(UdpBytes(h) + data) == h
  {
    var p := UdpBytes(h) + data;
    assert p[0..2] == Uint16ToByte(h.srcPort) && p[2..4] == Uint16ToByte(h.destPort);
    assert p[4..6] == Uint16ToByte(h.segmentLen) && p[6..8] == Uint16ToByte(h.checkSum);
  }

  // ---------- TCP ----------

  datatype TcpHeader = TcpHeader(
    srcPort: u16, destPort: u16, sequenceNum: u32, responseCheckNum: u32,
    dataOffset: byte, reserve: byte, flag: byte, windowSize: u16,
    checkSum: u16, urgPointer: u16, options: seq<byte>, tcpdata: seq<byte>)

  const ZERO_TCP := TcpHeader(0, 0, 0, 0, 0, 0, 0, 0, 0, 0, [], [])

  /** A segment whose data offset is 5..15 words and lies within the segment. */
  predicate WellFormedTcp(packet: seq<byte>) {
    |packet| >= 20 && packet[12] / 0x10 >= 5 && 4 * (packet[12] as int / 0x10) <= |packet|
  }

  /** Header.go: tcpHeader.ParsePacket; a malformed segment gives the zero header. */
  function ParseTcp(packet: seq<byte>): TcpHeader {
    if !WellFormedTcp(packet) then ZERO_TCP
    else
      var headerLen := 4 * (packet[12] as int / 0x10);
      TcpHeader(
        ByteToUint16(packet[0..2]), ByteToUint16(packet[2..4]),
        ByteToUint32(packet[4..8]), ByteToUint32(packet[8..12]),
        packet[12] / 0x10, packet[12] % 0x10, packet[13],
        ByteToUint16(packet[14..16]), ByteToUint16(packet[16..18]), ByteToUint16(packet[18..20]),
        packet[20..headerLen], packet[headerLen..])
  }

  /** The twenty fixed bytes: dataOffset << 4 | reserve & 0x0f shifts within a byte. */
  function TcpFixed(h: TcpHeader): (b: seq<byte>)
    ensures |b| == 20
  {
    Uint16ToByte(h.srcPort) + Uint16ToByte(h.destPort)
    + Uint32ToByte(h.sequenceNum) + Uint32ToByte(h.responseCheckNum)
    + [h.dataOffset % 0x10 * 0x10 + h.reserve % 0x10, h.flag]
    + Uint16ToByte(h.windowSize) + Uint16ToByte(h.checkSum) + Uint16ToByte(h.urgPointer)
  }

  function TcpBytes(h: TcpHeader): seq<byte> {
    TcpFixed(h) + h.options + h.tcpdata
  }

  /** Header.go: tcpHeader.toPacket, writing field by field into a buffer. */
  method TcpToPacket(h: TcpHeader) returns (b: seq<byte>)
    ensures b == TcpBytes(h)
  {
    b := Uint16ToByte(h.srcPort);
    b := b + Uint16ToByte(h.destPort);
    b := b + Uint32ToByte(h.sequenceNum);
    b := b + Uint32ToByte(h.responseCheckNum);
    b := b + [h.dataOffset % 0x10 * 0x10 + h.reserve % 0x10, h.flag];
    b := b + Uint16ToByte(h.windowSize);
    b := b + Uint16ToByte(h.checkSum);
    b := b + Uint16ToByte(h.urgPointer);
    if |h.options| != 0 {
      b := b + h.options;
    }
    if |h.tcpdata| != 0 {
      b := b + h.tcpdata;
    }
  }

  /** Header.go: udpHeader.toPacket. */
  method UdpToPacket(h: UdpHeader) returns (b: seq<byte>)
    ensures b == UdpBytes(h)
  {
    b := Uint16ToByte(h.srcPort);
    b := b + Uint16ToByte(h.destPort);
    b := b + Uint16ToByte(h.segmentLen);
    b := b + Uint16ToByte(h.checkSum);
  }

  lemma TcpFixedRoundTrip(packet: seq<byte>)
    requires WellFormedTcp(packet)
    ensures TcpFixed(ParseTcp(packet)) == packet[..20]
    ensures var h := ParseTcp(packet);
      && h.srcPort == WordAt(packet, 0) && h.destPort == WordAt(packet, 2)
      && h.sequenceNum == 0x1_0000 * WordAt(packet, 4) + WordAt(packet, 6)
      && h.responseCheckNum == 0x1_0000 * WordAt(packet, 8) + WordAt(packet, 10)
      && h.flag == packet[13] && h.windowSize == WordAt(packet, 14)
      && h.checkSum == WordAt(packet, 16) && h.urgPointer == WordAt(packet, 18)
  {
    Word16RoundTrip(packet[0..2]);
    Word16RoundTrip(packet[2..4]);
    Word32RoundTrip(packet[4..8]);
    Word32RoundTrip(packet[8..12]);
    Word16RoundTrip(packet[14..16]);
    Word16RoundTrip(packet[16..18]);
    Word16RoundTrip(packet[18..20]);
    assert packet[12] / 0x10 % 0x10 * 0x10 + packet[12] % 0x10 % 0x10 == packet[12];
    assert packet[..20] == packet[0..2] + packet[2..4] + packet[4..8] + packet[8..12]
                         + [packet[12], packet[13]] + packet[14..16] + packet[16..18] + packet[18..20];
  }

  /** Serialising what was parsed gives the segment back exactly when the segment is well
      formed, except for the one malformed segment that the zero header also writes. */
  lemma TcpRoundTrip(packet: seq<byte>)
    ensures TcpBytes(ParseTcp(packet)) == packet
        <==> WellFormedTcp(packet) || packet == seq(20, _ => 0)
  {
    if WellFormedTcp(packet) {
      TcpFixedRoundTrip(packet);
      var n := 4 * (packet[12] as int / 0x10);
      assert packet == packet[..20] + packet[20..n] + packet[n..];
    } else {
      assert TcpBytes(ZERO_TCP) == seq(20, _ => 0);
    }
  }

  /** Parsing what was serialised gives the header back exactly when its options fill the
      header length that its data offset states and the reserved bits fit in four. */
  lemma TcpParseBytes(h: TcpHeader)
    ensures ParseTcp(TcpBytes(h)) == h
        <==> h == ZERO_TCP
             || (5 <= h.dataOffset <= 15 && h.reserve < 0x10 && |h.options| == 4 * (h.dataOffset as int) - 20)
  {
    hide TcpFixed;
    var p := TcpBytes(h);
    TcpFixedFields(h);
    if ParseTcp(p) == h && !WellFormedTcp(p) {
      assert h == ZERO_TCP;
    }
    if h == ZERO_TCP {
      assert !WellFormedTcp(p);
    } else if 5 <= h.dataOffset <= 15 && h.reserve < 0x10 && |h.options| == 4 * (h.dataOffset as int) - 20 {
      assert p[12] / 0x10 == h.dataOffset && p[12] % 0x10 == h.reserve;
      var n := 4 * (h.dataOffset as int);
      ConcatSlices(TcpFixed(h), h.options, h.tcpdata);
      assert p[20..n] == h.options && p[n..] == h.tcpdata;
    }
  }

  lemma TcpFixedFields(h: TcpHeader)
    ensures var p := TcpBytes(h);
      && |p| >= 20
      && ByteToUint16(p[0..2]) == h.srcPort && ByteToUint16(p[2..4]) == h.destPort
      && ByteToUint32(p[4..8]) == h.sequenceNum && ByteToUint32(p[8..12]) == h.responseCheckNum
      && p[12] == h.dataOffset % 0x10 * 0x10 + h.reserve % 0x10 && p[13] == h.flag
      && ByteToUint16(p[14..16]) == h.windowSize && ByteToUint16(p[16..18]) == h.checkSum
      && ByteToUint16(p[18..20]) == h.urgPointer
  {
    var p := TcpBytes(h);
    assert p[0..2] == Uint16ToByte(h.srcPort) && p[2..4] == Uint16ToByte(h.destPort);
    assert p[4..8] == Uint32ToByte(h.sequenceNum);
    assert p[8..12] == Uint32ToByte(h.responseCheckNum);
    assert p[14..16] == Uint16ToByte(h.windowSize) && p[16..18] == Uint16ToByte(h.checkSum);
    assert p[18..20] == Uint16ToByte(h.urgPointer);
  }

  // ---------- ICMP ----------

  const ICMP_TYPE_ECHO_REPLY: byte := 0
  const ICMP_TYPE_ECHO_REQUEST: byte := 8

  datatype IcmpMessage = IcmpMessage(
    icmpType: byte, icmpCode: byte, checksum: u16,
    identity: u16, sequence: u16, timestamp: seq<byte>, data: seq<byte>)

  /** ICMP.go: icmpMessage.ParsePacket. The slice from byte 16 panics (None) on anything
      shorter than sixteen bytes. */
  function ParseIcmp(packet: seq<byte>): (r: Option<IcmpMessage>)
    ensures r.None? <==> |packet| < 16
  {
    if |packet| < 16 then None
    else Some(IcmpMessage(packet[0], packet[1], ByteToUint16(packet[2..4]),
                          ByteToUint16(packet[4..6]), ByteToUint16(packet[6..8]),
                          packet[8..16], packet[16..]))
  }

  /** The echo reply with checksum field c. */
  function ReplyBytes(m: IcmpMessage, c: u16): seq<byte> {
    [ICMP_TYPE_ECHO_REPLY, 0] + Uint16ToByte(c)
    + Uint16ToByte(m.identity) + Uint16ToByte(m.sequence) + m.timestamp + m.data
  }

  /** ICMP.go: icmpMessage.ReplyPacket; None when the checksum loop panics on an odd length. */
  method ReplyPacket(m: IcmpMessage) returns (r: Option<seq<byte>>)
    ensures r == ReplySpec(m)
  {
    var icmpPacket: seq<byte> := [ICMP_TYPE_ECHO_REPLY];
    icmpPacket := icmpPacket + [0];
    icmpPacket := icmpPacket + [0, 0];
    icmpPacket := icmpPacket + Uint16ToByte(m.identity);
    icmpPacket := icmpPacket + Uint16ToByte(m.sequence);
    icmpPacket := icmpPacket + m.timestamp;
    icmpPacket := icmpPacket + m.data;
    assert icmpPacket == ReplyBytes(m, 0);
    var sum := SumByteArr(icmpPacket);
    if sum.None? {
      return None;
    }
    var fold := FoldChecksum(sum.value);
    var checksum := Uint16ToByte(fold);
    icmpPacket := icmpPacket[2 := checksum[0]];
    icmpPacket := icmpPacket[3 := checksum[1]];
    assert icmpPacket == ReplyBytes(m, fold);
    return Some(icmpPacket);
  }

  function ReplySpec(m: IcmpMessage): Option<seq<byte>> {
    if |ReplyBytes(m, 0)| % 2 == 1 then None
    else Some(ReplyBytes(m, Fold(WordSum(ReplyBytes(m, 0)))))
  }

  /** What the reply carries over from the request. */
  function EchoTail(m: IcmpMessage): seq<byte> {
    Uint16ToByte(m.identity) + Uint16ToByte(m.sequence) + m.timestamp + m.data
  }

  lemma EchoTailRoundTrip(packet: seq<byte>)
    requires |packet| >= 16
    ensures EchoTail(ParseIcmp(packet).value) == packet[4..]
  {
    Word16RoundTrip(packet[4..6]);
    Word16RoundTrip(packet[6..8]);
    assert packet[4..] == packet[4..6] + packet[6..8] + packet[8..16] + packet[16..];
  }

  lemma ReplyLayout(m: IcmpMessage, c: u16)
    ensures ReplyBytes(m, c) == [0, 0] + Uint16ToByte(c) + EchoTail(m)
  {
  }

  /** The reply to a request echoes everything from the identifier on, has type and code
      zero, and verifies at the receiver; odd-length requests panic. */
  lemma ReplyEchoes(packet: seq<byte>)
    requires |packet| >= 16
    ensures var r := ReplySpec(ParseIcmp(packet).value);
      && (r.None? <==> |packet| % 2 == 1)
      && (r.Some? ==> |r.value| == |packet| && r.value[..2] == [0, 0]
                      && r.value[4..] == packet[4..] && Verifies(WordSum(r.value)))
  {
    hide WordSum, ReplyBytes, EchoTail, ParseIcmp;
    var m := ParseIcmp(packet).value;
    EchoTailRoundTrip(packet);
    ReplyLayout(m, 0);
    ReplyLayout(m, Fold(WordSum(ReplyBytes(m, 0))));
    WrittenChecksumVerifies(0, [0, 0], EchoTail(m));
  }

  // ---------- ARP ----------

  /** A hardware address: six bytes. */
  type Mac = m: seq<byte> | |m| == 6 witness [0, 0, 0, 0, 0, 0]

  datatype ArpMessage = ArpMessage(
    hardwareType: u16, protocolType: u16, hardwareLen: byte, protocolLen: byte, opcode: u16,
    senderHardwareAddr: Mac, senderIPAddr: u32, targetHardwareAddr: Mac, targetIPAddr: u32)

  /** arp.go: arpIPToEthernet.ToPacket. */
  function ArpBytes(m: ArpMessage): (b: seq<byte>)
    ensures |b| == 28
  {
    Uint16ToByte(m.hardwareType) + Uint16ToByte(m.protocolType) + [m.hardwareLen] + [m.protocolLen]
    + Uint16ToByte(m.opcode) + m.senderHardwareAddr + Uint32ToByte(m.senderIPAddr)
    + m.targetHardwareAddr + Uint32ToByte(m.targetIPAddr)
  }

  /** arp.go: the parse in arpInput; None for packets shorter than 28 bytes. */
  function ParseArp(packet: seq<byte>): Option<ArpMessage> {
    if |packet| < 28 then None
    else Some(ArpMessage(
      ByteToUint16(packet[0..2]), ByteToUint16(packet[2..4]), packet[4], packet[5],
      ByteToUint16(packet[6..8]), packet[8..14], ByteToUint32(packet[14..18]),
      packet[18..24], ByteToUint32(packet[24..28])))
  }

  lemma ArpParseBytes(m: ArpMessage, padding: seq<byte>)
    ensures ParseArp(ArpBytes(m) + padding) == Some(m)
  {
    var p := ArpBytes(m) + padding;
    assert p[0..2] == Uint16ToByte(m.hardwareType) && p[2..4] == Uint16ToByte(m.protocolType);
    assert p[6..8] == Uint16ToByte(m.opcode) && p[8..14] == m.senderHardwareAddr;
    assert p[14..18] == Uint32ToByte(m.senderIPAddr) && p[18..24] == m.targetHardwareAddr;
    assert p[24..28] == Uint32ToByte(m.targetIPAddr);
  }

  lemma ArpRoundTrip(packet: seq<byte>)
    requires |packet| >= 28
    ensures ArpBytes(ParseArp(packet).value) == packet[..28]
    ensures var m := ParseArp(packet).value;
      && m.hardwareType == WordAt(packet, 0) && m.protocolType == WordAt(packet, 2) && m.opcode == WordAt(packet, 6)
      && m.hardwareLen == packet[4] && m.protocolLen == packet[5]
      && m.senderHardwareAddr == packet[8..14] && m.targetHardwareAddr == packet[18..24]
      && m.senderIPAddr == 0x1_0000 * WordAt(packet, 14) + WordAt(packet, 16)
      && m.targetIPAddr == 0x1_0000 * WordAt(packet, 24) + WordAt(packet, 26)
  {
    Word16RoundTrip(packet[0..2]);
    Word16RoundTrip(packet[2..4]);
    Word16RoundTrip(packet[6..8]);
    Word32RoundTrip(packet[14..18]);
    Word32RoundTrip(packet[24..28]);
    assert packet[..28] == packet[0..2] + packet[2..4] + [packet[4]] + [packet[5]] + packet[6..8]
                         + packet[8..14] + packet[14..18] + packet[18..24] + packet[24..28];
  }
}
