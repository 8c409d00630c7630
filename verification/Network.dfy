/** Networks of such routers, with arbitrary topology and route tables: the bound that the TTL
    puts on what they do with a packet. */
module Network {
  import opened Bytes
  import opened Checksum
  import opened Headers
  import opened IpHeaders
  import opened RadixTree
  import opened Arp
  import opened Forwarding
  import opened Sessions
  import Nat
  import NatRuns

  // ---------- Hop bound ----------

  function Max(a: int, b: int): int {
    if a < b then b else a
  }

  /** A packet no router answers: not ICMP, or an option-free ICMP message that is not an echo
      request. (With options, forwarding changes where the next router finds the message.) */
  predicate Settled(packet: seq<byte>)
    requires |packet| >= 20
  {
    var h := ParseHeader(packet);
    h.protocol != IP_PROTOCOL_NUM_ICMP
    || (h.headerLen == 5 && (|packet| == 20 || packet[20] != ICMP_TYPE_ECHO_REQUEST))
  }

  /** How many IP frames a packet can still cause: its remaining hops, and for a packet that
      may be answered the hops of a fresh reply (TTL 64) on top. */
  function Potential(packet: seq<byte>): nat {
    if |packet| < 20 then 0
    else Max(ParseHeader(packet).ttl - 1, 0) + if Settled(packet) then 0 else 64
  }

  /** The next packet is the forwarded form of h with other addresses, over data that starts
      with the same byte as the payload (when there is any). */
  ghost predicate Passed(h: Header, payload: seq<byte>, out: seq<byte>) {
    exists src: u32, dst: u32, data: seq<byte> ::
      && h.ttl >= 2 && out == ForwardBytes(h.(srcAddr := src, destAddr := dst), data)
      && (h.protocol == IP_PROTOCOL_NUM_ICMP ==> data == [] || (payload != [] && data[0] == payload[0]))
  }

  lemma PassedPotential(packet: seq<byte>, out: seq<byte>)
    requires Accepted(packet) && Passed(ParseHeader(packet), Payload(packet), out)
    ensures |out| >= 20 && Potential(out) < Potential(packet)
    ensures ParseHeader(out).ttl == ParseHeader(packet).ttl - 1
  {
    hide ForwardBytes, Stamped;
    var h := ParseHeader(packet);
    var src: u32, dst: u32, data: seq<byte> :|
      && h.ttl >= 2 && out == ForwardBytes(h.(srcAddr := src, destAddr := dst), data)
      && (h.protocol == IP_PROTOCOL_NUM_ICMP ==>
            data == [] || (Payload(packet) != [] && data[0] == Payload(packet)[0]));
    ForwardBytesHeader(h.(srcAddr := src, destAddr := dst), data);
    StampedKeeps(h.(srcAddr := src, destAddr := dst, ttl := h.ttl - 1));
    if data != [] {
      assert out[20] == out[20..][0] == data[0];
    }
  }

  lemma StampedKeeps(h: Header)
    ensures Stamped(h) == h.(headerChecksum := Stamped(h).headerChecksum)
  {
  }

  /** Rewriting leaves the ICMP type alone. */
  lemma RewriteKeepsType(outside: u32, t: Nat.Tables, c: Nat.Call)
    requires Nat.Valid(t) && Nat.NatExec(outside, t, c).output.Packet? && c.proto.Icmp?
    ensures var b := Nat.NatExec(outside, t, c).output.bytes;
      |b| > 0 && c.payload != [] && b[0] == c.payload[0]
  {
  }

  lemma ForwardEmits(s: State, dev: nat, h: Header, payload: seq<byte>)
    requires Valid(s) && dev < |s.devices|
    ensures var o := Forward(s, dev, h, payload).emission;
      o.Sent? && o.frame.IpFrame? ==> Passed(h, payload, o.frame.packet)
  {
    hide Nat.NatExec, ForwardBytes, Transmit;
    TransmitPasses(s, h, payload, h.srcAddr, h.destAddr, payload);
    TransmitPasses(s, h, payload, h.srcAddr, h.destAddr, []);
    if s.devices[dev].natdev.Some? && ProtocolOf(h.protocol).Some? {
      var conf, proto := s.devices[dev].natdev.value, ProtocolOf(h.protocol).value;
      var c := Nat.Call(h.srcAddr, h.destAddr, payload, proto, Nat.Outgoing);
      var r := Nat.NatExec(conf.outside, conf.tables, c);
      if r.output.Packet? {
        if proto.Icmp? {
          RewriteKeepsType(conf.outside, conf.tables, c);
        }
        TransmitPasses(WithTables(s, dev, r.tables), h, payload, r.src, r.dst, r.output.bytes);
      }
    }
  }

  lemma TransmitPasses(s: State, h: Header, payload: seq<byte>, src: u32, dst: u32, data: seq<byte>)
    requires h.protocol == IP_PROTOCOL_NUM_ICMP ==> data == [] || (payload != [] && data[0] == payload[0])
    ensures var o := Transmit(s, h.(srcAddr := src, destAddr := dst), data);
      o.Sent? && o.frame.IpFrame? ==> Passed(h, payload, o.frame.packet)
  {
    hide ForwardBytes, Transmit;
    TransmitFrame(s, h.(srcAddr := src, destAddr := dst), data);
  }

  lemma NatReturnEmits(s: State, i: nat, proto: Nat.Protocol, h: Header, payload: seq<byte>)
    requires Valid(s) && i < |s.devices| && s.devices[i].natdev.Some?
    requires ProtocolOf(h.protocol) == Some(proto)
    ensures var o := NatReturn(s, i, proto, h, payload);
      o.Sent? && o.frame.IpFrame? ==> Passed(h, payload, o.frame.packet)
  {
    hide Nat.NatExec, ForwardBytes, OutputAlong, Search;
    var conf := s.devices[i].natdev.value;
    var c := Nat.Call(h.srcAddr, h.destAddr, payload, proto, Nat.Incoming);
    var r := Nat.NatExec(conf.outside, conf.tables, c);
    if r.output.Packet? && h.ttl >= 2 {
      if proto.Icmp? {
        RewriteKeepsType(conf.outside, conf.tables, c);
      }
      var out := ForwardBytes(h.(srcAddr := r.src, destAddr := r.dst), r.output.bytes);
      OutputAlongFrame(s, Search(s.routes, r.dst), Some(i), r.dst, out);
    }
  }

  /** An echo reply is settled and starts with TTL 64. */
  lemma ReplyPotential(destAddr: u32, srcAddr: u32, m: IcmpMessage, protocol: byte)
    requires ReplySpec(m).Some? && protocol == IP_PROTOCOL_NUM_ICMP
    ensures var reply := ReplySpec(m).value;
      Potential(HeaderBytes(Stamped(NewHeader(destAddr, srcAddr, |reply|, protocol))) + reply) == 63
  {
    hide WordSum, HeaderChecksum, HeaderBytes;
    var reply := ReplySpec(m).value;
    var h := NewHeader(destAddr, srcAddr, |reply|, protocol);
    StampedKeeps(h);
    HeaderParseBytes(Stamped(h), reply);
    var packet := HeaderBytes(Stamped(h)) + reply;
    assert packet[20] == reply[0] == ICMP_TYPE_ECHO_REPLY;
  }

  lemma EchoEmits(s: State, h: Header, payload: seq<byte>)
    ensures var o := IcmpInput(s, h.srcAddr, h.destAddr, payload);
      o.Sent? && o.frame.IpFrame? ==>
        |payload| >= 16 && payload[0] == ICMP_TYPE_ECHO_REQUEST
        && |o.frame.packet| >= 20 && Potential(o.frame.packet) == 63
  {
    hide OutputAlong, Search, ReplySpec, Potential, HeaderBytes;
    var m := ParseIcmp(payload);
    if m.Some? && m.value.icmpType == ICMP_TYPE_ECHO_REQUEST && ReplySpec(m.value).Some? {
      var reply := ReplySpec(m.value).value;
      var packet := HeaderBytes(Stamped(NewHeader(h.srcAddr, h.destAddr, |reply|, IP_PROTOCOL_NUM_ICMP))) + reply;
      var route := Search(s.routes, h.srcAddr);
      OutputAlongFrame(s, route, route.netdev, h.srcAddr, packet);
      ReplyPotential(h.srcAddr, h.destAddr, m.value, IP_PROTOCOL_NUM_ICMP);
    }
  }

  /** An IP frame a router emits on receiving a packet is either that packet passed on, or the
      echo reply to it. */
  lemma EmittedFrame(s: State, e: Event)
    requires Valid(s) && e.dev < |s.devices|
    requires var o := IpInput(s, e.dev, e.srcMac, e.packet).emission; o.Sent? && o.frame.IpFrame?
    ensures Accepted(e.packet)
    ensures var out := IpInput(s, e.dev, e.srcMac, e.packet).emission.frame.packet;
      || Passed(ParseHeader(e.packet), Payload(e.packet), out)
      || (!Settled(e.packet) && |out| >= 20 && Potential(out) == 63)
  {
    hide Forward, NatReturn, IcmpInput, FirstNat, Potential, Passed;
    var h, payload := ParseHeader(e.packet), Payload(e.packet);
    var s1 := Learn(s, e.dev, h.srcAddr, e.srcMac);
    if IsLocal(s.devices, e.dev, h.destAddr) {
      var i := FirstNat(s1.devices, h.destAddr, 0);
      if i < |s1.devices| && ProtocolOf(h.protocol).Some? {
        NatReturnEmits(s1, i, ProtocolOf(h.protocol).value, h, payload);
      } else {
        EchoEmits(s1, h, payload);
      }
    } else {
      ForwardEmits(s1, e.dev, h, payload);
    }
  }

  /** Every IP frame a router emits has less potential than the packet it received. */
  lemma PotentialDecreases(s: State, e: Event)
    requires Valid(s) && e.dev < |s.devices|
    requires var o := IpInput(s, e.dev, e.srcMac, e.packet).emission; o.Sent? && o.frame.IpFrame?
    ensures Potential(IpInput(s, e.dev, e.srcMac, e.packet).emission.frame.packet) < Potential(e.packet)
  {
    hide IpInput, Passed;
    EmittedFrame(s, e);
    var out := IpInput(s, e.dev, e.srcMac, e.packet).emission.frame.packet;
    if Passed(ParseHeader(e.packet), Payload(e.packet), out) {
      PassedPotential(e.packet, out);
    }
  }

  // ---------- Hops of one packet ----------

  /** One router, in any state, that receives a packet on some device. */
  datatype Hop = Hop(router: State, dev: nat, srcMac: Mac)

  /** Received at this hop, the packet is passed on: it is in transit, or on its way back into a
      NAT, and what leaves as an IP frame is out. (The router's own replies are not this.) */
  ghost predicate PassesOn(hop: Hop, packet: seq<byte>, out: seq<byte>) {
    && Valid(hop.router) && hop.dev < |hop.router.devices| && Accepted(packet)
    && (var h, devices := ParseHeader(packet), hop.router.devices;
        !IsLocal(devices, hop.dev, h.destAddr)
        || (FirstNat(devices, h.destAddr, 0) < |devices| && ProtocolOf(h.protocol).Some?))
    && var o := IpInput(hop.router, hop.dev, hop.srcMac, packet).emission;
       o.Sent? && o.frame.IpFrame? && o.frame.packet == out
  }

  /** Passing a packet on takes exactly one off its TTL, which was at least 2. */
  lemma PassingCostsTtl(hop: Hop, packet: seq<byte>, out: seq<byte>)
    requires PassesOn(hop, packet, out)
    ensures |packet| >= 20 && |out| >= 20
    ensures ParseHeader(packet).ttl >= 2 && ParseHeader(out).ttl == ParseHeader(packet).ttl - 1
  {
    hide Forward, NatReturn, IcmpInput, FirstNat, Potential, Passed, IsLocal, ParseHeader;
    var h, payload := ParseHeader(packet), Payload(packet);
    var s, s1 := hop.router, Learn(hop.router, hop.dev, h.srcAddr, hop.srcMac);
    if IsLocal(s.devices, hop.dev, h.destAddr) {
      NatReturnEmits(s1, FirstNat(s.devices, h.destAddr, 0), ProtocolOf(h.protocol).value, h, payload);
    } else {
      ForwardEmits(s1, hop.dev, h, payload);
    }
    PassedPotential(packet, out);
    PassedTtl(h, payload, out);
  }

  lemma PassedTtl(h: Header, payload: seq<byte>, out: seq<byte>)
    requires Passed(h, payload, out)
    ensures h.ttl >= 2
  {
  }

  /** The packet goes from hop to hop: packets[k] is passed on at hops[k] as packets[k + 1]. */
  ghost predicate Journey(hops: seq<Hop>, packets: seq<seq<byte>>) {
    && |packets| == |hops| + 1
    && forall k :: 0 <= k < |hops| ==> PassesOn(hops[k], packets[k], packets[k + 1])
  }

  /** Hop bound (section 5.3.1 of RFC 1812): any packet with TTL t, echo requests and packets
      with options included, is passed on at most max(t - 1, 0) times, through any routers in
      any states, loops included, on plain and NAT-return paths alike. */
  lemma {:induction false} HopBound(hops: seq<Hop>, packets: seq<seq<byte>>)
    requires Journey(hops, packets) && |packets[0]| >= 20
    ensures |hops| <= Max(ParseHeader(packets[0]).ttl - 1, 0)
    decreases |hops|
  {
    hide PassesOn, ParseHeader;
    if hops != [] {
      PassingCostsTtl(hops[0], packets[0], packets[1]);
      var rest := packets[1..];
      forall k | 0 <= k < |hops[1..]|
        ensures PassesOn(hops[1..][k], rest[k], rest[k + 1])
      {
        assert PassesOn(hops[k + 1], packets[k + 1], packets[k + 1 + 1]);
      }
      HopBound(hops[1..], rest);
    }
  }

  // ---------- Networks ----------

  /** One delivery in a network: copy k of those in flight reaches some router, in whatever
      state its tables are, on some device; what the router then emits as an IP frame is heard
      by that many receivers. The links are arbitrary. */
  datatype Delivery = Delivery(k: nat, router: State, dev: nat, srcMac: Mac, receivers: nat)

  ghost function Copies(packet: seq<byte>, n: nat): seq<seq<byte>> {
    seq(n, _ => packet)
  }

  /** The copies in flight after a delivery: the one delivered is consumed, and what the router
      emits is put on the wire once for every receiver. */
  ghost function Deliver(flight: seq<seq<byte>>, d: Delivery): seq<seq<byte>>
    requires Valid(d.router) && d.dev < |d.router.devices| && d.k < |flight|
  {
    var o := IpInput(d.router, d.dev, d.srcMac, flight[d.k]).emission;
    var rest := flight[..d.k] + flight[d.k + 1..];
    if o.Sent? && o.frame.IpFrame? then rest + Copies(o.frame.packet, d.receivers) else rest
  }

  /** Deliveries that a network with these copies in flight can make, in order, when no frame
      is heard by more than width receivers. */
  ghost predicate Possible(flight: seq<seq<byte>>, run: seq<Delivery>, width: nat)
    decreases |run|
  {
    run == [] ||
    (Valid(run[0].router) && run[0].dev < |run[0].router.devices| && run[0].k < |flight|
     && run[0].receivers <= width && Possible(Deliver(flight, run[0]), run[1..], width))
  }

  /** Deliveries caused by one copy with this potential: its own, and those of the copies of
      the frame it causes. */
  function Cost(potential: nat, width: nat): nat {
    if potential == 0 then 1 else 1 + width * Cost(potential - 1, width)
  }

  lemma {:induction false} CostMonotonic(p: nat, q: nat, width: nat)
    requires p <= q
    ensures Cost(p, width) <= Cost(q, width)
    decreases q
  {
    if p > 0 {
      CostMonotonic(p - 1, q - 1, width);
      Product(width, width, Cost(p - 1, width), Cost(q - 1, width));
    }
  }

  /** Where every frame has one receiver, the cost is linear. */
  lemma {:induction false} CostPointToPoint(potential: nat)
    ensures Cost(potential, 1) == 1 + potential
  {
    if potential > 0 {
      CostPointToPoint(potential - 1);
    }
  }

  /** What all copies in flight can cost. */
  function Budget(flight: seq<seq<byte>>, width: nat): nat {
    if flight == [] then 0 else Cost(Potential(flight[0]), width) + Budget(flight[1..], width)
  }

  lemma {:induction false} BudgetConcat(a: seq<seq<byte>>, b: seq<seq<byte>>, width: nat)
    ensures Budget(a + b, width) == Budget(a, width) + Budget(b, width)
  {
    hide Potential, Cost;
    if a == [] {
      assert a + b == b;
    } else {
      assert (a + b)[1..] == a[1..] + b;
      BudgetConcat(a[1..], b, width);
    }
  }

  lemma {:induction false} BudgetCopies(p: seq<byte>, n: nat, width: nat)
    ensures Budget(Copies(p, n), width) == n * Cost(Potential(p), width)
  {
    hide Potential, Cost;
    if n > 0 {
      assert Copies(p, n)[1..] == Copies(p, n - 1);
      BudgetCopies(p, n - 1, width);
      assert n * Cost(Potential(p), width) == (n - 1) * Cost(Potential(p), width) + Cost(Potential(p), width);
    }
  }

  lemma DeliveryCosts(flight: seq<seq<byte>>, d: Delivery, width: nat)
    requires Valid(d.router) && d.dev < |d.router.devices| && d.k < |flight| && d.receivers <= width
    ensures Budget(Deliver(flight, d), width) < Budget(flight, width)
  {
    hide IpInput, Potential, Budget, Copies;
    var front, p, tail := flight[..d.k], flight[d.k], flight[d.k + 1..];
    assert flight == front + ([p] + tail);
    BudgetConcat(front, [p] + tail, width);
    BudgetConcat([p], tail, width);
    BudgetOne(p, width);
    BudgetConcat(front, tail, width);
    var o := IpInput(d.router, d.dev, d.srcMac, p).emission;
    if o.Sent? && o.frame.IpFrame? {
      var out := o.frame.packet;
      PotentialDecreases(d.router, Event(d.dev, d.srcMac, p));
      BudgetConcat(front + tail, Copies(out, d.receivers), width);
      BudgetCopies(out, d.receivers, width);
      EmissionCost(Potential(out), Potential(p), d.receivers, width);
    }
  }

  lemma BudgetOne(p: seq<byte>, width: nat)
    ensures Budget([p], width) == Cost(Potential(p), width)
  {
    hide Potential, Cost;
    assert [p][1..] == [];
  }

  lemma EmissionCost(p: nat, q: nat, receivers: nat, width: nat)
    requires p < q && receivers <= width
    ensures receivers * Cost(p, width) < Cost(q, width)
  {
    CostMonotonic(p, q - 1, width);
    Product(receivers, width, Cost(p, width), Cost(q - 1, width));
  }

  lemma Product(a: nat, b: nat, c: nat, d: nat)
    requires a <= b && c <= d
    ensures a * c <= b * d
  {
    assert a * c + (b - a) * c == b * c;
    assert b * c + b * (d - c) == b * d;
  }

  /** No network of such routers forwards for ever: whatever the topology, the route tables
      (loops included), the order of deliveries and the receivers of each frame (broadcast
      frames have several), the number of deliveries is bounded by the potentials of the copies
      in flight at the start. */
  lemma {:induction false} NetworkRunBounded(flight: seq<seq<byte>>, run: seq<Delivery>, width: nat)
    requires Possible(flight, run, width)
    ensures |run| <= Budget(flight, width)
    decreases |run|
  {
    hide Budget, Deliver;
    if run != [] {
      DeliveryCosts(flight, run[0], width);
      NetworkRunBounded(Deliver(flight, run[0]), run[1..], width);
    }
  }

  /** With one receiver per frame, a settled packet with TTL t is delivered at most max(t - 1, 0)
      times after the first, and any other at most 64 times more. */
  lemma {:induction false} PacketRunBounded(packet: seq<byte>, run: seq<Delivery>)
    requires |packet| >= 20 && Possible([packet], run, 1)
    ensures |run| <= 1 + Max(ParseHeader(packet).ttl - 1, 0) + (if Settled(packet) then 0 else 64)
  {
    hide Possible, Settled, ParseHeader;
    NetworkRunBounded([packet], run, 1);
    BudgetOne(packet, 1);
    CostPointToPoint(Potential(packet));
  }
}
