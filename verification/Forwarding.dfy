/** What the router does with one received IP packet (ip.go: ipInput and everything it calls),
    as a function of the router's state; module Router refines it to the mutable state. */
module Forwarding {
  import opened Bytes
  import opened Checksum
  import opened Headers
  import opened IpHeaders
  import opened RadixTree
  import opened Arp
  import Nat
  import NatRuns

  const IP_ADDRESS_LIMITED_BROADCAST: u32 := 0xffff_ffff
  const IP_PROTOCOL_NUM_ICMP: byte := 0x01

  /** A device's NAT configuration: outside address and tables. */
  datatype NatConf = NatConf(outside: u32, tables: Nat.Tables)

  /** What ipInput reads of a netDevice; natdev is None for the zero natDevice. */
  datatype Device = Device(address: u32, broadcast: u32, natdev: Option<NatConf>)

  datatype State = State(devices: seq<Device>, routes: Routes, arp: ArpView)

  ghost predicate Valid(s: State) {
    forall i :: 0 <= i < |s.devices| && s.devices[i].natdev.Some? ==> Nat.Valid(s.devices[i].natdev.value.tables)
  }

  /** What leaves through a device: an IP packet to a hardware address, or the broadcast
      ARP request for an address. */
  datatype Frame = IpFrame(dev: nat, destMac: Mac, packet: seq<byte>) | ArpRequest(dev: nat, target: u32)

  /** What a call emits; Panicked is a nil dereference, slice or index panic of Go. */
  datatype Emission = Silent | Sent(frame: Frame) | Panicked

  /** The frames an emission puts on the wire. */
  function Frames(e: Emission): seq<Frame> {
    if e.Sent? then [e.frame] else []
  }

  datatype Outcome = Outcome(state: State, emission: Emission)

  // ---------- Output ----------

  /** An address is resolved by an entry whose hardware address is not zero. */
  predicate Resolved(arp: ArpView, ip: u32) {
    ip in arp && arp[ip].mac != NO_MAC
  }

  /** ip.go: ipPacketOutputToHost; a nil device panics either way. */
  function OutputToHost(arp: ArpView, dev: Option<nat>, destAddr: u32, packet: seq<byte>): Emission {
    if dev.None? then Panicked
    else if Resolved(arp, destAddr) then Sent(IpFrame(dev.value, arp[destAddr].mac, packet))
    else Sent(ArpRequest(dev.value, destAddr))
  }

  /** ip.go: ipPacketOutputToNexthop. */
  function OutputToNexthop(arp: ArpView, routes: Routes, nextHop: u32, packet: seq<byte>): Emission {
    if Resolved(arp, nextHop) then Sent(IpFrame(arp[nextHop].netdev, arp[nextHop].mac, packet))
    else
      var route := Search(routes, nextHop);
      if route == NO_ROUTE || !route.iptype.Connected? then Silent
      else if route.netdev.None? then Panicked
      else Sent(ArpRequest(route.netdev.value, nextHop))
  }

  /** Output along a route that has been looked up: to the host through hostDev, or to the
      next hop. */
  function OutputAlong(s: State, route: RouteEntry, hostDev: Option<nat>, destAddr: u32, packet: seq<byte>): Emission {
    if route == NO_ROUTE then Silent
    else if route.iptype.Connected? then OutputToHost(s.arp, hostDev, destAddr, packet)
    else OutputToNexthop(s.arp, s.routes, route.nexthop, packet)
  }

  /** The header ipPacketEncapsulateOutput builds. */
  function NewHeader(destAddr: u32, srcAddr: u32, len: nat, protocol: byte): Header {
    Header(4, 5, 0, (20 + len) % 0x1_0000, 0xf80c, 0x4000, 0x40, protocol, 0, srcAddr, destAddr)
  }

  /** ip.go: ipPacketEncapsulateOutput. */
  function Encapsulate(s: State, destAddr: u32, srcAddr: u32, payload: seq<byte>, protocol: byte): Emission {
    var packet := HeaderBytes(Stamped(NewHeader(destAddr, srcAddr, |payload|, protocol))) + payload;
    var route := Search(s.routes, destAddr);
    OutputAlong(s, route, route.netdev, destAddr, packet)
  }

  // ---------- Input ----------

  /** The three protocols NAT knows. */
  function ProtocolOf(protocol: byte): Option<Nat.Protocol> {
    if protocol == Nat.IP_PROTOCOL_NUM_UDP then Some(Nat.Udp)
    else if protocol == Nat.IP_PROTOCOL_NUM_TCP then Some(Nat.Tcp)
    else if protocol == IP_PROTOCOL_NUM_ICMP then Some(Nat.Icmp)
    else None
  }

  /** An unresolved source address is learned from the frame it came in. */
  function Learn(s: State, dev: nat, srcAddr: u32, srcMac: Mac): State {
    if Resolved(s.arp, srcAddr) then s else s.(arp := s.arp[srcAddr := Neighbour(srcMac, dev)])
  }

  /** The length checks of ipInput (ip.go:86-115). */
  predicate Accepted(packet: seq<byte>) {
    && |packet| >= 20
    && var h := ParseHeader(packet);
       h.headerLen >= 5 && 4 * (h.headerLen as int) <= h.totalLen <= |packet|
  }

  /** The payload the header delimits (ip.go:116). */
  function Payload(packet: seq<byte>): seq<byte>
    requires Accepted(packet)
  {
    var h := ParseHeader(packet);
    packet[4 * (h.headerLen as int)..h.totalLen]
  }

  /** Addressed to the router itself (ip.go:124-139). */
  predicate IsLocal(devices: seq<Device>, dev: nat, destAddr: u32)
    requires dev < |devices|
  {
    || destAddr == IP_ADDRESS_LIMITED_BROADCAST || devices[dev].address == destAddr
    || exists i :: 0 <= i < |devices| && (devices[i].address == destAddr || devices[i].broadcast == destAddr)
  }

  function WithTables(s: State, dev: nat, tables: Nat.Tables): (r: State)
    requires dev < |s.devices| && s.devices[dev].natdev.Some?
    ensures Valid(s) && Nat.Valid(tables) ==> Valid(r)
  {
    var d := s.devices[dev];
    s.(devices := s.devices[dev := d.(natdev := Some(NatConf(d.natdev.value.outside, tables)))])
  }

  /** The packet that is sent on: TTL one less, checksum written, data behind 20 bytes. */
  function ForwardBytes(h: Header, data: seq<byte>): seq<byte>
    requires h.ttl >= 1
  {
    HeaderBytes(Stamped(h.(ttl := h.ttl - 1))) + data
  }

  /** Route lookup, TTL check and output of a packet in transit (ip.go:169-196). */
  function Transmit(s: State, h: Header, data: seq<byte>): Emission {
    var route := Search(s.routes, h.destAddr);
    if route == NO_ROUTE || h.ttl <= 1 then Silent
    else OutputAlong(s, route, route.netdev, h.destAddr, ForwardBytes(h, data))
  }

  /** A packet in transit (ip.go:141-196), source-translated when it came in on a NAT device. */
  function Forward(s: State, dev: nat, h: Header, payload: seq<byte>): (r: Outcome)
    requires Valid(s) && dev < |s.devices|
    ensures Valid(r.state)
  {
    match s.devices[dev].natdev
    case None => Outcome(s, Transmit(s, h, payload))
    case Some(conf) =>
      match ProtocolOf(h.protocol)
      case None => Outcome(s, Transmit(s, h, []))
      case Some(proto) =>
        var r := Nat.NatExec(conf.outside, conf.tables,
                             Nat.Call(h.srcAddr, h.destAddr, payload, proto, Nat.Outgoing));
        var s' := WithTables(s, dev, r.tables);
        match r.output
        case Error(_) => Outcome(s', Silent)
        case Panic => Outcome(s', Panicked)
        case Packet(bytes) => Outcome(s', Transmit(s', h.(srcAddr := r.src, destAddr := r.dst), bytes))
  }

  /** The first device from position i on whose NAT has this outside address. */
  function FirstNat(devices: seq<Device>, destAddr: u32, i: nat): (r: nat)
    requires i <= |devices|
    ensures i <= r <= |devices|
    ensures r < |devices| ==> devices[r].natdev.Some? && devices[r].natdev.value.outside == destAddr
    ensures forall j :: i <= j < r ==> !(devices[j].natdev.Some? && devices[j].natdev.value.outside == destAddr)
    decreases |devices| - i
  {
    if i == |devices| then i
    else if devices[i].natdev.Some? && devices[i].natdev.value.outside == destAddr then i
    else FirstNat(devices, destAddr, i + 1)
  }

  /** ICMP.go: icmpInput. */
  function IcmpInput(s: State, srcAddr: u32, destAddr: u32, payload: seq<byte>): Emission {
    match ParseIcmp(payload)
    case None => Panicked
    case Some(m) =>
      if m.icmpType != ICMP_TYPE_ECHO_REQUEST then Silent
      else match ReplySpec(m)
           case None => Panicked
           case Some(reply) => Encapsulate(s, srcAddr, destAddr, reply, IP_PROTOCOL_NUM_ICMP)
  }

  /** The way back into the NAT on device i (ip.go:240-271). */
  function NatReturn(s: State, i: nat, proto: Nat.Protocol, h: Header, payload: seq<byte>): Emission
    requires Valid(s) && i < |s.devices| && s.devices[i].natdev.Some?
  {
    var conf := s.devices[i].natdev.value;
    var r := Nat.NatExec(conf.outside, conf.tables,
                         Nat.Call(h.srcAddr, h.destAddr, payload, proto, Nat.Incoming));
    match r.output
    case Error(_) => Silent
    case Panic => Panicked
    case Packet(bytes) =>
      if h.ttl <= 1 then Silent
      else OutputAlong(s, Search(s.routes, r.dst), Some(i), r.dst,
                       ForwardBytes(h.(srcAddr := r.src, destAddr := r.dst), bytes))
  }

  /** ip.go: ipInputToOurs. */
  function InputToOurs(s: State, h: Header, payload: seq<byte>): Emission
    requires Valid(s)
  {
    var i := FirstNat(s.devices, h.destAddr, 0);
    if i < |s.devices| && ProtocolOf(h.protocol).Some? then
      NatReturn(s, i, ProtocolOf(h.protocol).value, h, payload)
    else if h.protocol == IP_PROTOCOL_NUM_ICMP then IcmpInput(s, h.srcAddr, h.destAddr, payload)
    else Silent
  }

  /** ip.go: ipInput for a packet received on a device in a frame from srcMac. */
  function IpInput(s: State, dev: nat, srcMac: Mac, packet: seq<byte>): (r: Outcome)
    requires Valid(s) && dev < |s.devices|
    ensures Valid(r.state)
  {
    if s.devices[dev].address == 0 || !Accepted(packet) then Outcome(s, Silent)
    else
      var h := ParseHeader(packet);
      var s1 := Learn(s, dev, h.srcAddr, srcMac);
      if IsLocal(s.devices, dev, h.destAddr) then Outcome(s1, InputToOurs(s1, h, Payload(packet)))
      else Forward(s1, dev, h, Payload(packet))
  }

  // ---------- What a forwarded packet looks like ----------

  /** Whom a packet for destAddr is handed to along a route. */
  function NextHop(route: RouteEntry, destAddr: u32): u32 {
    if route.iptype.Connected? then destAddr else route.nexthop
  }

  /** Output along a route emits the packet as an IP frame exactly when there is a route and
      its next hop is resolved (and, on a connected route, has a device); the frame then goes
      to the next hop's hardware address. */
  lemma OutputAlongFrame(s: State, route: RouteEntry, hostDev: Option<nat>, destAddr: u32, packet: seq<byte>)
    ensures var o := OutputAlong(s, route, hostDev, destAddr, packet);
      var hop := NextHop(route, destAddr);
      && (o.Sent? && o.frame.IpFrame? <==>
            route != NO_ROUTE && Resolved(s.arp, hop) && (route.iptype.Connected? ==> hostDev.Some?))
      && (o.Sent? && o.frame.IpFrame? ==>
            o.frame == IpFrame(if route.iptype.Connected? then hostDev.value else s.arp[hop].netdev,
                               s.arp[hop].mac, packet))
  {
  }

  /** A frame is on its way to destAddr, by routes and ARP table alone: it goes to the hardware
      address of the host (through hostDev) or of the route's next hop (through the device where
      that neighbour was learned). */
  ghost predicate Toward(s: State, hostDev: Option<nat>, destAddr: u32, f: Frame) {
    var route := Search(s.routes, destAddr);
    var hop := NextHop(route, destAddr);
    && f.IpFrame? && route != NO_ROUTE && hop in s.arp && s.arp[hop].mac != [0, 0, 0, 0, 0, 0]
    && f.destMac == s.arp[hop].mac
    && Some(f.dev) == if route.iptype.Connected? then hostDev else Some(s.arp[hop].netdev)
  }

  /** What emission e makes of a packet for destAddr, every case: nothing without a route; a
      frame on its way when the next hop is known; otherwise an ARP request for the host
      through hostDev, or for the next hop through the device of its own connected route. */
  ghost predicate Handed(s: State, hostDev: Option<nat>, destAddr: u32, e: Emission) {
    var route := Search(s.routes, destAddr);
    var hop := NextHop(route, destAddr);
    var via, known := Search(s.routes, hop), hop in s.arp && s.arp[hop].mac != [0, 0, 0, 0, 0, 0];
    if route == NO_ROUTE then e == Silent
    else if route.iptype.Connected? && hostDev.None? then e == Panicked
    else if known then e.Sent? && Toward(s, hostDev, destAddr, e.frame)
    else if route.iptype.Connected? then e == Sent(ArpRequest(hostDev.value, destAddr))
    else if via == NO_ROUTE || !via.iptype.Connected? then e == Silent
    else e == if via.netdev.Some? then Sent(ArpRequest(via.netdev.value, hop)) else Panicked
  }

  lemma OutputAlongHands(s: State, hostDev: Option<nat>, destAddr: u32, packet: seq<byte>)
    ensures Handed(s, hostDev, destAddr, OutputAlong(s, Search(s.routes, destAddr), hostDev, destAddr, packet))
  {
    hide Search;
  }

  /** The header of a packet in transit at the next parser. */
  lemma ForwardBytesHeader(h: Header, data: seq<byte>)
    requires h.ttl >= 1 && h.version < 0x10 && h.headerLen < 0x10
    ensures var out := ForwardBytes(h, data);
      && |out| == 20 + |data| && out[20..] == data && Verifies(WordSum(out[..20]))
      && ParseHeader(out) == Stamped(h.(ttl := h.ttl - 1))
  {
    var h' := Stamped(h.(ttl := h.ttl - 1));
    HeaderParseBytes(h', data);
    StampedVerifies(h.(ttl := h.ttl - 1));
    assert ForwardBytes(h, data)[..20] == HeaderBytes(h');
  }

  /** A packet in transit leaves as an IP frame exactly when its TTL allows a hop and the
      longest-match route leads to a resolved neighbour; it then goes to that neighbour. */
  lemma TransmitFrame(s: State, h: Header, data: seq<byte>)
    ensures var o := Transmit(s, h, data);
      var route := Search(s.routes, h.destAddr);
      var hop := NextHop(route, h.destAddr);
      && (o.Sent? && o.frame.IpFrame? <==>
            h.ttl >= 2 && route != NO_ROUTE && Resolved(s.arp, hop)
            && (route.iptype.Connected? ==> route.netdev.Some?))
      && (o.Sent? && o.frame.IpFrame? ==>
            o.frame.packet == ForwardBytes(h, data) && o.frame.destMac == s.arp[hop].mac
            && o.frame.dev == if route.iptype.Connected? then route.netdev.value else s.arp[hop].netdev)
  {
    if h.ttl >= 2 {
      var route := Search(s.routes, h.destAddr);
      OutputAlongFrame(s, route, route.netdev, h.destAddr, ForwardBytes(h, data));
    }
  }

  /** A received packet that is sent on as an IP frame without NAT. */
  ghost predicate PlainlyForwarded(s: State, dev: nat, srcMac: Mac, packet: seq<byte>)
    requires Valid(s) && dev < |s.devices|
  {
    && s.devices[dev].natdev.None?
    && Accepted(packet) && !IsLocal(s.devices, dev, ParseHeader(packet).destAddr)
    && var e := IpInput(s, dev, srcMac, packet).emission; e.Sent? && e.frame.IpFrame?
  }

  lemma PlainForwardBytes(s: State, dev: nat, srcMac: Mac, packet: seq<byte>)
    requires Valid(s) && dev < |s.devices| && PlainlyForwarded(s, dev, srcMac, packet)
    ensures var h := ParseHeader(packet);
      && h.ttl >= 2
      && IpInput(s, dev, srcMac, packet).emission.frame.packet == ForwardBytes(h, Payload(packet))
  {
    hide ForwardBytes, ParseHeader, Search;
    var h := ParseHeader(packet);
    TransmitFrame(Learn(s, dev, h.srcAddr, srcMac), h, Payload(packet));
  }

  /** End-to-end forwarding without NAT: the emitted bytes carry the same header with TTL one
      less and a verifying checksum, then the same payload, and go to the next hop of the longest
      match through its device. Their number is the header's total length exactly when the
      header has no options. */
  lemma PlainForwarding(s: State, dev: nat, srcMac: Mac, packet: seq<byte>)
    requires Valid(s) && dev < |s.devices| && PlainlyForwarded(s, dev, srcMac, packet)
    ensures var out := IpInput(s, dev, srcMac, packet).emission.frame.packet;
      && |out| >= 20
      && var hi, ho := ParseHeader(packet), ParseHeader(out);
      && hi.ttl >= 2 && ho == hi.(ttl := hi.ttl - 1, headerChecksum := ho.headerChecksum)
      && Verifies(WordSum(out[..20]))
      && out[20..] == Payload(packet)
      && (|out| == hi.totalLen <==> hi.headerLen == 5)
      && var r := IpInput(s, dev, srcMac, packet);
         Toward(r.state, Search(s.routes, hi.destAddr).netdev, hi.destAddr, r.emission.frame)
  {
    hide IpInput, ForwardBytes, ParseHeader, WordSum, Toward, IsLocal, Search;
    PlainForwardBytes(s, dev, srcMac, packet);
    TransitToward(s, dev, srcMac, packet);
    ForwardBytesHeader(ParseHeader(packet), Payload(packet));
  }

  /** RFC 1624 on the wire: when the twenty header bytes arrived with a verifying checksum,
      the one sent on is the incremental update of the one received. */
  lemma PlainForwardingChecksum(s: State, dev: nat, srcMac: Mac, packet: seq<byte>)
    requires Valid(s) && dev < |s.devices| && PlainlyForwarded(s, dev, srcMac, packet)
    requires Verifies(WordSum(packet[..20]))
    ensures var out := IpInput(s, dev, srcMac, packet).emission.frame.packet;
      && |out| >= 20
      && var hc, m, m' := ByteToUint16(packet[10..12]), ByteToUint16(packet[8..10]), ByteToUint16(out[8..10]);
         ByteToUint16(out[10..12]) == Fold((0xffff - hc) + (0xffff - m) + m')
  {
    hide IpInput, ForwardBytes, WordSum, HeaderBytes, HeaderChecksum, Fold;
    var h := ParseHeader(packet);
    PlainForwardBytes(s, dev, srcMac, packet);
    ForwardBytesHeader(h, Payload(packet));
    HeaderRoundTrip(packet);
    TtlDecrementIsIncremental(h);
  }

  /** A received packet of a protocol NAT knows that is sent on by a NAT device. */
  ghost predicate NatForwarded(s: State, dev: nat, srcMac: Mac, packet: seq<byte>)
    requires Valid(s) && dev < |s.devices|
  {
    && s.devices[dev].natdev.Some?
    && Accepted(packet) && !IsLocal(s.devices, dev, ParseHeader(packet).destAddr)
    && ProtocolOf(ParseHeader(packet).protocol).Some?
    && var e := IpInput(s, dev, srcMac, packet).emission; e.Sent? && e.frame.IpFrame?
  }

  /** The natExec call such a packet causes. */
  function OutgoingCall(packet: seq<byte>): Nat.Call
    requires Accepted(packet) && ProtocolOf(ParseHeader(packet).protocol).Some?
  {
    var h := ParseHeader(packet);
    Nat.Call(h.srcAddr, h.destAddr, Payload(packet), ProtocolOf(h.protocol).value, Nat.Outgoing)
  }

  lemma NatForwardBytes(s: State, dev: nat, srcMac: Mac, packet: seq<byte>)
    requires Valid(s) && dev < |s.devices| && NatForwarded(s, dev, srcMac, packet)
    ensures var h, conf := ParseHeader(packet), s.devices[dev].natdev.value;
      var r := Nat.NatExec(conf.outside, conf.tables, OutgoingCall(packet));
      && h.ttl >= 2 && r.output.Packet?
      && IpInput(s, dev, srcMac, packet).emission.frame.packet
           == ForwardBytes(h.(srcAddr := r.src, destAddr := r.dst), r.output.bytes)
  {
    hide ForwardBytes, ParseHeader, Search, Nat.NatExec;
    var h := ParseHeader(packet);
    var s1 := Learn(s, dev, h.srcAddr, srcMac);
    var conf := s.devices[dev].natdev.value;
    var r := Nat.NatExec(conf.outside, conf.tables, OutgoingCall(packet));
    if r.output.Packet? {
      TransmitFrame(WithTables(s1, dev, r.tables), h.(srcAddr := r.src, destAddr := r.dst), r.output.bytes);
    }
  }

  /** End-to-end forwarding through NAT: the source address is the outside address, the
      header is otherwise as without NAT, and the segment is the translated one, with the
      global port of the sender's slot. */
  lemma NatForwarding(s: State, dev: nat, srcMac: Mac, packet: seq<byte>)
    requires Valid(s) && dev < |s.devices| && NatForwarded(s, dev, srcMac, packet)
    ensures var conf := s.devices[dev].natdev.value;
      Nat.Translates(conf.outside, conf.tables, OutgoingCall(packet))
    ensures var out := IpInput(s, dev, srcMac, packet).emission.frame.packet;
      && |out| >= 20
      && var hi, ho := ParseHeader(packet), ParseHeader(out);
      var conf, c := s.devices[dev].natdev.value, OutgoingCall(packet);
      var port := Nat.RewrittenPort(conf.outside, conf.tables, c);
      && hi.ttl >= 2
      && ho == hi.(ttl := hi.ttl - 1, srcAddr := conf.outside, headerChecksum := ho.headerChecksum)
      && Verifies(WordSum(out[..20]))
      && (Nat.WellFormed(c.proto, c.payload) ==> (|out| == hi.totalLen <==> hi.headerLen == 5))
      && NatRuns.Translated(c.proto, Nat.Outgoing, c.payload, port, ho.srcAddr, ho.destAddr, out[20..])
      && var r := IpInput(s, dev, srcMac, packet);
         Toward(r.state, Search(s.routes, hi.destAddr).netdev, hi.destAddr, r.emission.frame)
  {
    hide IpInput, ForwardBytes, ParseHeader, WordSum, Nat.NatExec, Nat.WellFormed, Toward, IsLocal, Search;
    TransitToward(s, dev, srcMac, packet);
    hide Nat.ReceiverSum, Nat.UdpAccepted, Nat.TrailerNeutral, Nat.Patched;
    var h := ParseHeader(packet);
    var conf := s.devices[dev].natdev.value;
    var r := Nat.NatExec(conf.outside, conf.tables, OutgoingCall(packet));
    NatForwardBytes(s, dev, srcMac, packet);
    NatRuns.TranslatedSegment(conf.outside, conf.tables, OutgoingCall(packet));
    Nat.ExecRewrites(conf.outside, conf.tables, OutgoingCall(packet));
    ForwardBytesHeader(h.(srcAddr := r.src, destAddr := r.dst), r.output.bytes);
  }

  /** The TTL allows a hop, and the longest-match route leads to a resolved neighbour (with a
      device, on a connected route). */
  predicate Sendable(s: State, h: Header) {
    var route := Search(s.routes, h.destAddr);
    h.ttl >= 2 && route != NO_ROUTE && Resolved(s.arp, NextHop(route, h.destAddr))
    && (route.iptype.Connected? ==> route.netdev.Some?)
  }

  /** A packet in transit is sent on exactly when it is sendable and, on a NAT device and for
      a protocol NAT knows, its translation succeeds. */
  lemma ForwardedExactly(s: State, dev: nat, srcMac: Mac, packet: seq<byte>)
    requires Valid(s) && dev < |s.devices| && s.devices[dev].address != 0
    requires Accepted(packet) && !IsLocal(s.devices, dev, ParseHeader(packet).destAddr)
    ensures var h := ParseHeader(packet);
      var d, e := s.devices[dev], IpInput(s, dev, srcMac, packet).emission;
      e.Sent? && e.frame.IpFrame? <==>
        && Sendable(Learn(s, dev, h.srcAddr, srcMac), h)
        && (d.natdev.Some? && ProtocolOf(h.protocol).Some? ==>
              Nat.NatExec(d.natdev.value.outside, d.natdev.value.tables, OutgoingCall(packet)).output.Packet?)
  {
    hide ForwardBytes, ParseHeader, Search, Nat.NatExec, IsLocal, Transmit;
    var h, d := ParseHeader(packet), s.devices[dev];
    var s1 := Learn(s, dev, h.srcAddr, srcMac);
    if d.natdev.None? {
      TransmitFrame(s1, h, Payload(packet));
    } else if ProtocolOf(h.protocol).None? {
      TransmitFrame(s1, h, []);
    } else {
      var r := Nat.NatExec(d.natdev.value.outside, d.natdev.value.tables, OutgoingCall(packet));
      if r.output.Packet? {
        Nat.ExecRewrites(d.natdev.value.outside, d.natdev.value.tables, OutgoingCall(packet));
        TransmitFrame(WithTables(s1, dev, r.tables), h.(srcAddr := r.src, destAddr := r.dst), r.output.bytes);
      }
    }
  }

  // ---------- Panics ----------

  /** Every connected route has a device, as set-up registers them. */
  ghost predicate DevicesRouted(routes: Routes) {
    forall p :: p in routes && routes[p] != NO_ROUTE && routes[p].iptype.Connected? ==> routes[p].netdev.Some?
  }

  lemma {:induction false} SearchRouted(routes: Routes, ip: u32, k: nat)
    requires k <= 32 && DevicesRouted(routes)
    ensures var r := LongestMatch(routes, ip, k); r != NO_ROUTE && r.iptype.Connected? ==> r.netdev.Some?
  {
    if k > 0 {
      SearchRouted(routes, ip, k - 1);
    }
  }

  /** Then output never dereferences a nil device. */
  lemma OutputAlongReturns(s: State, route: RouteEntry, hostDev: Option<nat>, destAddr: u32, packet: seq<byte>)
    requires DevicesRouted(s.routes)
    requires route != NO_ROUTE && route.iptype.Connected? ==> hostDev.Some?
    ensures !OutputAlong(s, route, hostDev, destAddr, packet).Panicked?
  {
    SearchRouted(s.routes, route.nexthop, 32);
  }

  /** An ICMP message for the router itself whose parse or whose reply panics. */
  predicate EchoPanics(payload: seq<byte>) {
    |payload| < 16 || (payload[0] == ICMP_TYPE_ECHO_REQUEST && |payload| % 2 == 1)
  }

  predicate CallPanics(conf: NatConf, c: Nat.Call) {
    NatRuns.Panics(conf.outside, conf.tables, c)
  }

  /** The packets that end the program: accepted, and either translated by some NAT with a
      panic, or an ICMP message to the router itself that panics. */
  predicate Crashes(s: State, dev: nat, packet: seq<byte>)
    requires dev < |s.devices|
  {
    && s.devices[dev].address != 0 && Accepted(packet)
    && var h, payload := ParseHeader(packet), Payload(packet);
       var proto, i := ProtocolOf(h.protocol), FirstNat(s.devices, h.destAddr, 0);
       if !IsLocal(s.devices, dev, h.destAddr) then
         s.devices[dev].natdev.Some? && proto.Some? && CallPanics(s.devices[dev].natdev.value, OutgoingCall(packet))
       else if i < |s.devices| && proto.Some? then
         CallPanics(s.devices[i].natdev.value,
                    Nat.Call(h.srcAddr, h.destAddr, payload, proto.value, Nat.Incoming))
       else h.protocol == IP_PROTOCOL_NUM_ICMP && EchoPanics(payload)
  }

  lemma TransmitReturns(s: State, h: Header, data: seq<byte>)
    requires DevicesRouted(s.routes)
    ensures !Transmit(s, h, data).Panicked?
  {
    SearchRouted(s.routes, h.destAddr, 32);
    if h.ttl >= 1 {
      var route := Search(s.routes, h.destAddr);
      OutputAlongReturns(s, route, route.netdev, h.destAddr, ForwardBytes(h, data));
    }
  }

  lemma ForwardPanics(s: State, dev: nat, h: Header, payload: seq<byte>)
    requires Valid(s) && dev < |s.devices| && DevicesRouted(s.routes)
    ensures Forward(s, dev, h, payload).emission.Panicked? <==>
      s.devices[dev].natdev.Some? && ProtocolOf(h.protocol).Some?
      && CallPanics(s.devices[dev].natdev.value,
                    Nat.Call(h.srcAddr, h.destAddr, payload, ProtocolOf(h.protocol).value, Nat.Outgoing))
  {
    hide Nat.NatExec, Transmit, NatRuns.Panics;
    TransmitReturns(s, h, payload);
    TransmitReturns(s, h, []);
    if s.devices[dev].natdev.Some? && ProtocolOf(h.protocol).Some? {
      var conf := s.devices[dev].natdev.value;
      var c := Nat.Call(h.srcAddr, h.destAddr, payload, ProtocolOf(h.protocol).value, Nat.Outgoing);
      var r := Nat.NatExec(conf.outside, conf.tables, c);
      NatRuns.OutcomeExactly(conf.outside, conf.tables, c);
      if r.output.Packet? {
        TransmitReturns(WithTables(s, dev, r.tables), h.(srcAddr := r.src, destAddr := r.dst), r.output.bytes);
      }
    }
  }

  lemma OursPanics(s: State, h: Header, payload: seq<byte>)
    requires Valid(s) && DevicesRouted(s.routes)
    ensures var i := FirstNat(s.devices, h.destAddr, 0);
      InputToOurs(s, h, payload).Panicked? <==>
        if i < |s.devices| && ProtocolOf(h.protocol).Some? then
          CallPanics(s.devices[i].natdev.value,
                     Nat.Call(h.srcAddr, h.destAddr, payload, ProtocolOf(h.protocol).value, Nat.Incoming))
        else h.protocol == IP_PROTOCOL_NUM_ICMP && EchoPanics(payload)
  {
    hide Nat.NatExec, OutputAlong, NatRuns.Panics, FirstNat, Search, ForwardBytes, ReplyBytes;
    var i := FirstNat(s.devices, h.destAddr, 0);
    if i < |s.devices| && ProtocolOf(h.protocol).Some? {
      var conf := s.devices[i].natdev.value;
      var c := Nat.Call(h.srcAddr, h.destAddr, payload, ProtocolOf(h.protocol).value, Nat.Incoming);
      var r := Nat.NatExec(conf.outside, conf.tables, c);
      NatRuns.OutcomeExactly(conf.outside, conf.tables, c);
      if r.output.Packet? && h.ttl >= 2 {
        OutputAlongReturns(s, Search(s.routes, r.dst), Some(i), r.dst,
                           ForwardBytes(h.(srcAddr := r.src, destAddr := r.dst), r.output.bytes));
      }
    } else if |payload| >= 16 {
      ReplyEchoes(payload);
      IcmpReturns(s, h, payload);
    }
  }

  lemma IcmpReturns(s: State, h: Header, payload: seq<byte>)
    requires DevicesRouted(s.routes) && |payload| >= 16
    ensures IcmpInput(s, h.srcAddr, h.destAddr, payload).Panicked? <==>
      payload[0] == ICMP_TYPE_ECHO_REQUEST && ReplySpec(ParseIcmp(payload).value).None?
  {
    hide OutputAlong, ReplySpec, Search, HeaderBytes;
    var r := ReplySpec(ParseIcmp(payload).value);
    if r.Some? {
      var route := Search(s.routes, h.srcAddr);
      SearchIsRouted(s.routes, h.srcAddr);
      OutputAlongReturns(s, route, route.netdev, h.srcAddr,
        HeaderBytes(Stamped(NewHeader(h.srcAddr, h.destAddr, |r.value|, IP_PROTOCOL_NUM_ICMP))) + r.value);
    }
  }

  lemma SearchIsRouted(routes: Routes, ip: u32)
    requires DevicesRouted(routes)
    ensures var r := Search(routes, ip); r != NO_ROUTE && r.iptype.Connected? ==> r.netdev.Some?
  {
    SearchRouted(routes, ip, 32);
  }

  /** The program panics on a received packet exactly when the packet is one of those. */
  lemma CrashesExactly(s: State, dev: nat, srcMac: Mac, packet: seq<byte>)
    requires Valid(s) && dev < |s.devices| && DevicesRouted(s.routes)
    ensures IpInput(s, dev, srcMac, packet).emission.Panicked? <==> Crashes(s, dev, packet)
  {
    hide Forward, InputToOurs, CallPanics, EchoPanics, FirstNat, IsLocal, ParseHeader;
    if s.devices[dev].address != 0 && Accepted(packet) {
      var h := ParseHeader(packet);
      var s1 := Learn(s, dev, h.srcAddr, srcMac);
      if IsLocal(s.devices, dev, h.destAddr) {
        OursPanics(s1, h, Payload(packet));
      } else {
        ForwardPanics(s1, dev, h, Payload(packet));
      }
    }
  }

  // ---------- Every case of ipInput ----------

  /** An IPv4 packet whose lengths are consistent (section 3.1 of RFC 791). */
  predicate Intact(packet: seq<byte>) {
    && |packet| >= 20
    && var header := 4 * (packet[0] as int % 0x10);
       20 <= header <= WordAt(packet, 2) <= |packet|
  }

  /** What ipInput reads, in terms of the bytes received. */
  lemma ReceivedFields(packet: seq<byte>)
    ensures Accepted(packet) <==> Intact(packet)
    ensures Accepted(packet) ==>
      && Payload(packet) == packet[4 * (packet[0] as int % 0x10)..WordAt(packet, 2)]
      && var h := ParseHeader(packet);
         && h.version == packet[0] / 0x10 && h.headerLen == packet[0] % 0x10 && h.tos == packet[1]
         && h.identity == WordAt(packet, 4) && h.flagOffset == WordAt(packet, 6)
         && h.ttl == packet[8] && h.protocol == packet[9]
         && h.srcAddr == 0x1_0000 * WordAt(packet, 12) + WordAt(packet, 14)
         && h.destAddr == 0x1_0000 * WordAt(packet, 16) + WordAt(packet, 18)
         && ProtocolOf(h.protocol) == match packet[9] as int
                                      case 1 => Some(Nat.Icmp)
                                      case 6 => Some(Nat.Tcp)
                                      case 17 => Some(Nat.Udp)
                                      case _ => None
  {
  }

  /** An address of the router itself: limited broadcast, or any device's own or broadcast one. */
  ghost predicate Own(devices: seq<Device>, a: u32) {
    a == 0xffff_ffff || exists d :: d in devices && a in {d.address, d.broadcast}
  }

  lemma LocalExactly(devices: seq<Device>, dev: nat, a: u32)
    requires dev < |devices|
    ensures IsLocal(devices, dev, a) <==> Own(devices, a)
  {
    if IsLocal(devices, dev, a) && a != 0xffff_ffff && devices[dev].address != a {
      var i :| 0 <= i < |devices| && (devices[i].address == a || devices[i].broadcast == a);
      assert devices[i] in devices;
    }
  }

  /** The device whose NAT answers to an address is the first one with that outside address. */
  ghost predicate NatOwner(devices: seq<Device>, a: u32, i: nat) {
    && i < |devices| && devices[i].natdev.Some? && devices[i].natdev.value.outside == a
    && forall j :: 0 <= j < i ==> devices[j].natdev.None? || devices[j].natdev.value.outside != a
  }

  lemma OwnerIsFirst(devices: seq<Device>, a: u32, i: nat)
    ensures NatOwner(devices, a, i) <==> i < |devices| && FirstNat(devices, a, 0) == i
  {
  }

  /** Packets on a device without address, and packets with inconsistent lengths, do nothing. */
  lemma IgnoredPackets(s: State, dev: nat, srcMac: Mac, packet: seq<byte>)
    requires Valid(s) && dev < |s.devices| && (s.devices[dev].address == 0 || !Intact(packet))
    ensures IpInput(s, dev, srcMac, packet) == Outcome(s, Silent)
  {
    ReceivedFields(packet);
  }

  /** All others are learned from: the source address, unless a hardware address is known for
      it, resolves to the sender on the receiving device; nothing else in the ARP table and
      nothing in the routes changes. */
  lemma InputLearns(s: State, dev: nat, srcMac: Mac, packet: seq<byte>)
    requires Valid(s) && dev < |s.devices| && s.devices[dev].address != 0 && Accepted(packet)
    ensures var r, src := IpInput(s, dev, srcMac, packet).state, ParseHeader(packet).srcAddr;
      && r.routes == s.routes && r.arp.Keys == s.arp.Keys + {src}
      && (forall ip :: ip in s.arp && ip != src ==> r.arp[ip] == s.arp[ip])
      && r.arp[src] == if src in s.arp && s.arp[src].mac != [0, 0, 0, 0, 0, 0] then s.arp[src]
                       else Neighbour(srcMac, dev)
  {
    hide Nat.NatExec, InputToOurs, Transmit, ParseHeader, IsLocal;
  }

  /** A packet in transit, every case: a translation that fails or panics ends it, and so does
      its TTL; all others are handed over along the longest match, through that route's device. */
  lemma TransitExactly(s: State, dev: nat, srcMac: Mac, packet: seq<byte>)
    requires Valid(s) && dev < |s.devices| && s.devices[dev].address != 0
    requires Accepted(packet) && !Own(s.devices, ParseHeader(packet).destAddr)
    ensures var h, d, r := ParseHeader(packet), s.devices[dev], IpInput(s, dev, srcMac, packet);
      var output := if d.natdev.None? || ProtocolOf(h.protocol).None? then Nat.Packet([])
                    else Nat.NatExec(d.natdev.value.outside, d.natdev.value.tables, OutgoingCall(packet)).output;
      if output.Panic? then r.emission == Panicked
      else if output.Error? || h.ttl <= 1 then r.emission == Silent
      else Handed(r.state, Search(s.routes, h.destAddr).netdev, h.destAddr, r.emission)
  {
    hide ForwardBytes, ParseHeader, Search, Nat.NatExec, IsLocal, OutputAlong, Handed, Payload;
    var h, d := ParseHeader(packet), s.devices[dev];
    var s1 := Learn(s, dev, h.srcAddr, srcMac);
    LocalExactly(s.devices, dev, h.destAddr);
    if d.natdev.None? {
      TransmitHands(s1, h, Payload(packet));
    } else if ProtocolOf(h.protocol).None? {
      TransmitHands(s1, h, []);
    } else {
      var r := Nat.NatExec(d.natdev.value.outside, d.natdev.value.tables, OutgoingCall(packet));
      if r.output.Packet? {
        Nat.ExecRewrites(d.natdev.value.outside, d.natdev.value.tables, OutgoingCall(packet));
        TransmitHands(WithTables(s1, dev, r.tables), h.(srcAddr := r.src, destAddr := r.dst), r.output.bytes);
      }
    }
  }

  /** What leaves as a frame in transit leaves towards its destination. */
  lemma TransitToward(s: State, dev: nat, srcMac: Mac, packet: seq<byte>)
    requires Valid(s) && dev < |s.devices|
    requires Accepted(packet) && !IsLocal(s.devices, dev, ParseHeader(packet).destAddr)
    requires var e := IpInput(s, dev, srcMac, packet).emission; e.Sent? && e.frame.IpFrame?
    ensures var h, r := ParseHeader(packet), IpInput(s, dev, srcMac, packet);
      Toward(r.state, Search(s.routes, h.destAddr).netdev, h.destAddr, r.emission.frame)
  {
    hide ParseHeader, Search, Nat.NatExec, IsLocal, Forward, Own, Payload, InputToOurs;
    LocalExactly(s.devices, dev, ParseHeader(packet).destAddr);
    TransitExactly(s, dev, srcMac, packet);
  }

  lemma TransmitHands(s: State, h: Header, data: seq<byte>)
    ensures var e := Transmit(s, h, data);
      if h.ttl <= 1 then e == Silent else Handed(s, Search(s.routes, h.destAddr).netdev, h.destAddr, e)
  {
    hide Search, ForwardBytes, OutputAlong;
    if h.ttl >= 2 {
      OutputAlongHands(s, Search(s.routes, h.destAddr).netdev, h.destAddr, ForwardBytes(h, data));
    }
  }

  /** A packet on its way back into the NAT of device i, every case: what the translation lets
      pass with a TTL is handed over to the local endpoint, through device i itself. */
  lemma ReturnExactly(s: State, dev: nat, srcMac: Mac, packet: seq<byte>, i: nat)
    requires Valid(s) && dev < |s.devices| && s.devices[dev].address != 0
    requires Accepted(packet) && ProtocolOf(ParseHeader(packet).protocol).Some?
    requires var dst := ParseHeader(packet).destAddr; Own(s.devices, dst) && NatOwner(s.devices, dst, i)
    ensures var h, conf, r := ParseHeader(packet), s.devices[i].natdev.value, IpInput(s, dev, srcMac, packet);
      var x := Nat.NatExec(conf.outside, conf.tables, OutgoingCall(packet).(dir := Nat.Incoming));
      if x.output.Panic? then r.emission == Panicked
      else if x.output.Error? || h.ttl <= 1 then r.emission == Silent
      else Handed(r.state, Some(i), x.dst, r.emission)
  {
    hide ForwardBytes, ParseHeader, Search, Nat.NatExec, IsLocal, OutputAlong, Handed, Payload, FirstNat;
    var h, conf := ParseHeader(packet), s.devices[i].natdev.value;
    var s1 := Learn(s, dev, h.srcAddr, srcMac);
    LocalExactly(s.devices, dev, h.destAddr);
    OwnerIsFirst(s.devices, h.destAddr, i);
    var x := Nat.NatExec(conf.outside, conf.tables, OutgoingCall(packet).(dir := Nat.Incoming));
    if x.output.Packet? && h.ttl >= 2 {
      OutputAlongHands(s1, Some(i), x.dst, ForwardBytes(h.(srcAddr := x.src, destAddr := x.dst), x.output.bytes));
    }
  }

  /** A packet for the router itself that no NAT takes, every case: only ICMP does anything. A
      message too short to parse and an odd-length echo request panic; the reply to any other
      echo request is handed over to the sender, through the device of the longest match. */
  lemma EchoExactly(s: State, dev: nat, srcMac: Mac, packet: seq<byte>)
    requires Valid(s) && dev < |s.devices| && s.devices[dev].address != 0
    requires Accepted(packet) && Own(s.devices, ParseHeader(packet).destAddr)
    requires ProtocolOf(ParseHeader(packet).protocol).None?
             || forall i: nat :: !NatOwner(s.devices, ParseHeader(packet).destAddr, i)
    ensures var r, p, src := IpInput(s, dev, srcMac, packet), Payload(packet), ParseHeader(packet).srcAddr;
      if packet[9] != 1 then r.emission == Silent
      else if |p| < 16 then r.emission == Panicked
      else if p[0] != 8 then r.emission == Silent
      else if |p| % 2 == 1 then r.emission == Panicked
      else Handed(r.state, Search(s.routes, src).netdev, src, r.emission)
  {
    hide ParseHeader, HeaderBytes, HeaderChecksum, ReplySpec, OutputAlong, Search, IsLocal, NatOwner, FirstNat, Handed;
    var h, p := ParseHeader(packet), Payload(packet);
    var s1 := Learn(s, dev, h.srcAddr, srcMac);
    LocalExactly(s.devices, dev, h.destAddr);
    OwnerIsFirst(s.devices, h.destAddr, FirstNat(s.devices, h.destAddr, 0));
    ReceivedFields(packet);
    assert IpInput(s, dev, srcMac, packet) == Outcome(s1, InputToOurs(s1, h, p));
    if packet[9] == 1 && |p| >= 16 && p[0] == 8 {
      ReplyEchoes(p);
      var reply := ReplySpec(ParseIcmp(p).value);
      if reply.Some? {
        EncapsulateHands(s1, h.srcAddr, h.destAddr, reply.value, IP_PROTOCOL_NUM_ICMP);
      }
    }
  }

  /** So a ping is answered exactly when it is an echo request of an even length of at least 16
      bytes and, once its sender has been learned, a next hop towards that sender is known. */
  lemma EchoAnsweredExactly(s: State, dev: nat, srcMac: Mac, packet: seq<byte>)
    requires Valid(s) && dev < |s.devices| && s.devices[dev].address != 0
    requires Accepted(packet) && Own(s.devices, ParseHeader(packet).destAddr) && packet[9] == 1
    requires forall i: nat :: !NatOwner(s.devices, ParseHeader(packet).destAddr, i)
    ensures var r, p, src := IpInput(s, dev, srcMac, packet), Payload(packet), ParseHeader(packet).srcAddr;
      var route := Search(s.routes, src);
      var hop := NextHop(route, src);
      && (r.emission.Sent? && r.emission.frame.IpFrame? <==>
            && |p| >= 16 && |p| % 2 == 0 && p[0] == 8
            && route != NO_ROUTE && (route.iptype.Connected? ==> route.netdev.Some?)
            && hop in r.state.arp && r.state.arp[hop].mac != [0, 0, 0, 0, 0, 0])
      && (r.emission.Sent? && r.emission.frame.IpFrame? ==>
            r.emission.frame.destMac == r.state.arp[hop].mac
            && r.emission.frame.dev == if route.iptype.Connected? then route.netdev.value else r.state.arp[hop].netdev)
  {
    hide IpInput, ParseHeader, Search, Own, NatOwner, Payload;
    EchoExactly(s, dev, srcMac, packet);
    InputLearns(s, dev, srcMac, packet);
  }

  /** A packet the router originates: a fresh header in front of the payload, handed over along
      the longest match for its destination. */
  lemma EncapsulateHands(s: State, destAddr: u32, srcAddr: u32, payload: seq<byte>, protocol: byte)
    ensures var e := Encapsulate(s, destAddr, srcAddr, payload, protocol);
      && Handed(s, Search(s.routes, destAddr).netdev, destAddr, e)
      && (e.Sent? && e.frame.IpFrame? ==>
            var out := e.frame.packet;
            && |out| == 20 + |payload| && out[20..] == payload && Verifies(WordSum(out[..20]))
            && ParseHeader(out) == Header(4, 5, 0, (20 + |payload|) % 0x1_0000, 0xf80c, 0x4000, 64, protocol,
                                          ParseHeader(out).headerChecksum, srcAddr, destAddr))
  {
    hide Search, HeaderBytes, HeaderChecksum, WordSum, ParseHeader, OutputAlong, Handed;
    var n := NewHeader(destAddr, srcAddr, |payload|, protocol);
    var out, route := HeaderBytes(Stamped(n)) + payload, Search(s.routes, destAddr);
    OutputAlongHands(s, route.netdev, destAddr, out);
    OutputAlongFrame(s, route, route.netdev, destAddr, out);
    HeaderParseBytes(Stamped(n), payload);
    StampedVerifies(n);
    assert out[..20] == HeaderBytes(Stamped(n));
  }

  // ---------- The received buffer ----------

  /** The received packet's bytes after ipInput: only an ICMP segment that some NAT translates
      is written to, by natExec. */
  function PacketAfter(s: State, dev: nat, packet: seq<byte>): (r: seq<byte>)
    requires Valid(s) && dev < |s.devices|
    ensures |r| == |packet|
  {
    if s.devices[dev].address == 0 || !Accepted(packet) then packet
    else
      var h := ParseHeader(packet);
      packet[..4 * (h.headerLen as int)] + PayloadAfter(s, dev, h, Payload(packet)) + packet[h.totalLen..]
  }

  function PayloadAfter(s: State, dev: nat, h: Header, payload: seq<byte>): (r: seq<byte>)
    requires Valid(s) && dev < |s.devices|
    ensures |r| == |payload|
  {
    if IsLocal(s.devices, dev, h.destAddr) then LocalAfter(s, h, payload) else TransitAfter(s, dev, h, payload)
  }

  function LocalAfter(s: State, h: Header, payload: seq<byte>): (r: seq<byte>)
    requires Valid(s)
    ensures |r| == |payload|
  {
    var i, proto := FirstNat(s.devices, h.destAddr, 0), ProtocolOf(h.protocol);
    if i == |s.devices| || proto.None? then payload
    else Nat.BufferAfter(s.devices[i].natdev.value.outside, s.devices[i].natdev.value.tables,
                         Nat.Call(h.srcAddr, h.destAddr, payload, proto.value, Nat.Incoming))
  }

  function TransitAfter(s: State, dev: nat, h: Header, payload: seq<byte>): (r: seq<byte>)
    requires Valid(s) && dev < |s.devices|
    ensures |r| == |payload|
  {
    var conf, proto := s.devices[dev].natdev, ProtocolOf(h.protocol);
    if conf.None? || proto.None? then payload
    else Nat.BufferAfter(conf.value.outside, conf.value.tables,
                         Nat.Call(h.srcAddr, h.destAddr, payload, proto.value, Nat.Outgoing))
  }

  // ---------- Echo ----------

  /** A ping of the router itself that is answered with an IP frame is answered by a packet
      with the addresses exchanged, TTL 64, the right total length, a verifying header, and
      the request's ICMP message turned into a verifying reply. */
  lemma EchoAnswered(s: State, dev: nat, srcMac: Mac, packet: seq<byte>)
    requires Valid(s) && dev < |s.devices| && Accepted(packet)
    requires IsLocal(s.devices, dev, ParseHeader(packet).destAddr)
    requires ParseHeader(packet).protocol == IP_PROTOCOL_NUM_ICMP
    requires FirstNat(s.devices, ParseHeader(packet).destAddr, 0) == |s.devices|
    requires var e := IpInput(s, dev, srcMac, packet).emission; e.Sent? && e.frame.IpFrame?
    ensures var out := IpInput(s, dev, srcMac, packet).emission.frame.packet;
      && |out| >= 20 && |Payload(packet)| >= 16
      && var hi, ho := ParseHeader(packet), ParseHeader(out);
      && Payload(packet)[0] == ICMP_TYPE_ECHO_REQUEST
      && ho.srcAddr == hi.destAddr && ho.destAddr == hi.srcAddr && ho.ttl == 64
      && ho.protocol == 1 && ho.version == 4 && ho.headerLen == 5 && ho.totalLen == |out|
      && ho.tos == 0 && ho.identity == 0xf80c && ho.flagOffset == 0x4000
      && Verifies(WordSum(out[..20])) && Verifies(WordSum(out[20..]))
      && |out[20..]| == |Payload(packet)| && out[20..22] == [0, 0] && out[24..] == Payload(packet)[4..]
  {
    hide ParseHeader, WordSum, HeaderBytes, HeaderChecksum, ReplySpec, OutputAlong, Search, IsLocal;
    var h, payload := ParseHeader(packet), Payload(packet);
    var s1 := Learn(s, dev, h.srcAddr, srcMac);
    assert IpInput(s, dev, srcMac, packet).emission == IcmpInput(s1, h.srcAddr, h.destAddr, payload);
    var reply := ReplySpec(ParseIcmp(payload).value).value;
    ReplyEchoes(payload);
    var n := NewHeader(h.srcAddr, h.destAddr, |reply|, IP_PROTOCOL_NUM_ICMP);
    var route := Search(s1.routes, h.srcAddr);
    OutputAlongFrame(s1, route, route.netdev, h.srcAddr, HeaderBytes(Stamped(n)) + reply);
    HeaderParseBytes(Stamped(n), reply);
    StampedVerifies(n);
    var out := HeaderBytes(Stamped(n)) + reply;
    assert out[..20] == HeaderBytes(Stamped(n)) && out[20..] == reply;
    assert out[20..22] == reply[..2] && out[24..] == reply[4..];
  }

  // ---------- Where the code falls short of that ----------

  const WITH_OPTIONS := Header(4, 6, 0, 24, 0, 0, 64, Nat.IP_PROTOCOL_NUM_UDP, 0, 0x0a00_0001, 0x0a00_0002)

  /** A router with one device, 10.0.0.254, a default route over it, and 10.0.0.2 resolved. */
  const ONE_DEVICE :=
    State([Device(0x0a00_00fe, 0x0a00_00ff, None)],
          map[[] := RouteEntry(Connected, Some(0), 0)],
          map[0x0a00_0002 := Neighbour([2, 0, 0, 0, 0, 2], 0)])

  lemma {:induction false} DefaultRoute(e: RouteEntry, ip: u32, k: nat)
    requires k <= 32 && e != NO_ROUTE
    ensures LongestMatch(map[[] := e], ip, k) == e
  {
    if k > 0 {
      assert |Bits(ip, k)| != 0;
      DefaultRoute(e, ip, k - 1);
    } else {
      assert Bits(ip, 0) == [];
    }
  }

  /** A header with one word of options: that router announces 24 bytes and sends 20. */
  lemma OptionsExample(srcMac: Mac, packet: seq<byte>)
    requires packet == HeaderBytes(WITH_OPTIONS) + [1, 1, 1, 1]
    ensures Valid(ONE_DEVICE) && Accepted(packet) && ParseHeader(packet).totalLen == 24
    ensures var e := IpInput(ONE_DEVICE, 0, srcMac, packet).emission;
      && e.Sent? && e.frame.IpFrame? && |e.frame.packet| == 20
      && ParseHeader(e.frame.packet).totalLen == 24
  {
    hide HeaderBytes, Stamped, ParseHeader, IpInput, Learn, Search, IsLocal;
    HeaderParseBytes(WITH_OPTIONS, [1, 1, 1, 1]);
    OptionsPacketTransits(srcMac);
    DefaultRoute(RouteEntry(Connected, Some(0), 0), 0x0a00_0002, 32);
    ForwardedExactly(ONE_DEVICE, 0, srcMac, packet);
    PlainForwarding(ONE_DEVICE, 0, srcMac, packet);
  }

  lemma OptionsPacketTransits(srcMac: Mac)
    ensures !IsLocal(ONE_DEVICE.devices, 0, 0x0a00_0002)
    ensures var s1 := Learn(ONE_DEVICE, 0, 0x0a00_0001, srcMac);
      s1.routes == ONE_DEVICE.routes && Resolved(s1.arp, 0x0a00_0002)
    ensures Search(ONE_DEVICE.routes, 0x0a00_0002) == LongestMatch(ONE_DEVICE.routes, 0x0a00_0002, 32)
  {
    var mac: Mac := [2, 0, 0, 0, 0, 2];
    assert mac[0] != NO_MAC[0];
  }

  /** A NAT device sends a packet of any other protocol on without its payload: the payload
      survives exactly when it was empty. */
  lemma OtherProtocolsLosePayload(s: State, dev: nat, srcMac: Mac, packet: seq<byte>)
    requires Valid(s) && dev < |s.devices| && s.devices[dev].natdev.Some?
    requires Accepted(packet) && !IsLocal(s.devices, dev, ParseHeader(packet).destAddr)
    requires ProtocolOf(ParseHeader(packet).protocol).None?
    requires var e := IpInput(s, dev, srcMac, packet).emission; e.Sent? && e.frame.IpFrame?
    ensures var out := IpInput(s, dev, srcMac, packet).emission.frame.packet;
      |out| == 20 && (out[20..] == Payload(packet) <==> Payload(packet) == [])
  {
    hide ForwardBytes, ParseHeader, Search;
    var h := ParseHeader(packet);
    TransmitFrame(Learn(s, dev, h.srcAddr, srcMac), h, []);
    ForwardBytesHeader(h, []);
  }
}
